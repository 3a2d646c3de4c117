/** findOpModes and getNextAvailableIndex: grouping op modes into buckets keyed by their declared
    pairing key, or by a counter-generated key when none is declared. */
module Grouping {
  import opened JavaStrings
  import opened OpModes

  /** The HashMap from pairing key to the bucket (LinkedList) of op modes. */
  type OpModeTable = map<string, seq<OpModeClass>>

  /** The counter and the table that findOpModes threads through its loop. */
  datatype Grouping = Grouping(nextAvailableIndex: nat, opModes: OpModeTable)

  /** getNextAvailableIndex: an empty key bumps the counter and `put`s a singleton bucket under its
      decimal string, replacing any bucket there; a non-empty key appends to that key's bucket,
      creating it if absent. No other key changes. */
  function GetNextAvailableIndex(nextAvailableIndex: nat, opModes: OpModeTable, currentClass: OpModeClass, name: string): (g: Grouping)
    ensures name == "" ==>
      var key := IntToString(nextAvailableIndex + 1);
      g.nextAvailableIndex == nextAvailableIndex + 1 &&
      g.opModes.Keys == opModes.Keys + {key} && g.opModes[key] == [currentClass] &&
      forall k :: k in opModes && k != key ==> g.opModes[k] == opModes[k]
    ensures name != "" ==>
      g.nextAvailableIndex == nextAvailableIndex &&
      g.opModes.Keys == opModes.Keys + {name} &&
      g.opModes[name] == (if name in opModes then opModes[name] else []) + [currentClass] &&
      forall k :: k in opModes && k != name ==> g.opModes[k] == opModes[k]
  {
    if name == "" then
      var i := nextAvailableIndex + 1;
      Grouping(i, opModes[IntToString(i) := [currentClass]])
    else if name in opModes then
      Grouping(nextAvailableIndex, opModes[name := opModes[name] + [currentClass]])
    else
      Grouping(nextAvailableIndex, opModes[name := [currentClass]])
  }

  /** One insertion findOpModes performs: a class and the pairing key it is filed under. */
  datatype Insertion = Insertion(opMode: OpModeClass, key: string)

  /** The insertions findOpModes performs for one class, in order: none for a Disabled class;
      otherwise one under `pairWithAuto` if TeleOp, then one under `pairWithTeleOp` if Autonomous. */
  function Insertions(c: OpModeClass): (ins: seq<Insertion>)
    ensures c.disabled || !c.IsOpMode() <==> ins == []
    ensures forall x :: x in ins ==> x.opMode == c
    ensures !c.disabled && c.teleOp.Some? && c.autonomous.None? ==>
      ins == [Insertion(c, c.teleOp.value.pairWithAuto)]
    ensures !c.disabled && c.teleOp.None? && c.autonomous.Some? ==>
      ins == [Insertion(c, c.autonomous.value.pairWithTeleOp)]
    ensures !c.disabled && c.teleOp.Some? && c.autonomous.Some? ==>
      ins == [Insertion(c, c.teleOp.value.pairWithAuto), Insertion(c, c.autonomous.value.pairWithTeleOp)]
  {
    if c.disabled then []
    else
      (if c.teleOp.Some? then [Insertion(c, c.teleOp.value.pairWithAuto)] else []) +
      (if c.autonomous.Some? then [Insertion(c, c.autonomous.value.pairWithTeleOp)] else [])
  }

  /** All insertions for a list of classes, in list order. */
  function InsertionsOf(klazzes: seq<OpModeClass>): seq<Insertion>
  {
    if klazzes == [] then []
    else InsertionsOf(klazzes[..|klazzes| - 1]) + Insertions(klazzes[|klazzes| - 1])
  }

  /** The grouping after performing `ins` in order from an empty table and a zero counter. */
  function InsertAll(ins: seq<Insertion>): Grouping
  {
    if ins == [] then Grouping(0, map[])
    else
      var g := InsertAll(ins[..|ins| - 1]);
      var last := ins[|ins| - 1];
      GetNextAvailableIndex(g.nextAvailableIndex, g.opModes, last.opMode, last.key)
  }

  /** findOpModes over a list of classes. */
  function FindOpModesSpec(klazzes: seq<OpModeClass>): Grouping
  {
    InsertAll(InsertionsOf(klazzes))
  }

  /** The classes inserted under `key`, in insertion order. */
  function KeyedWith(ins: seq<Insertion>, key: string): seq<OpModeClass>
  {
    if ins == [] then []
    else KeyedWith(ins[..|ins| - 1], key) + (if ins[|ins| - 1].key == key then [ins[|ins| - 1].opMode] else [])
  }

  lemma InsertAllSnoc(ins: seq<Insertion>, x: Insertion)
    ensures InsertAll(ins + [x]) ==
      GetNextAvailableIndex(InsertAll(ins).nextAvailableIndex, InsertAll(ins).opModes, x.opMode, x.key)
    ensures KeyedWith(ins + [x], "") == KeyedWith(ins, "") + (if x.key == "" then [x.opMode] else [])
  {
    assert (ins + [x])[..|ins|] == ins;
  }

  /** Filing one class as the body of findOpModes' loop does it, with its two `if`s: the grouping
      after the class, computed from the grouping before. `StepsFileClass` shows that this is the
      same as filing `Insertions(c)` one by one, which is how the loop invariant of `FindOpModes`
      is carried from one class to the next. */
  function FileClass(g: Grouping, c: OpModeClass): Grouping {
    if c.disabled then g
    else
      var g1 := if c.teleOp.Some? then GetNextAvailableIndex(g.nextAvailableIndex, g.opModes, c, c.teleOp.value.pairWithAuto) else g;
      if c.autonomous.Some? then GetNextAvailableIndex(g1.nextAvailableIndex, g1.opModes, c, c.autonomous.value.pairWithTeleOp) else g1
  }

  lemma FileClassStep(klazzes: seq<OpModeClass>, i: nat)
    requires i < |klazzes|
    ensures FindOpModesSpec(klazzes[..i + 1]) == FileClass(FindOpModesSpec(klazzes[..i]), klazzes[i])
  {
    var done := InsertionsOf(klazzes[..i]);
    var c := klazzes[i];
    InsertionsOfSnoc(klazzes, i);
    InsertAllSeq(done, Insertions(c));
    StepsFileClass(FindOpModesSpec(klazzes[..i]), c);
  }

  lemma StepsFileClass(g: Grouping, c: OpModeClass)
    ensures Steps(g, Insertions(c)) == FileClass(g, c)
  {
    if c.disabled || !c.IsOpMode() {
      assert Insertions(c) == [];
    } else {
      var ins := Insertions(c);
      if c.teleOp.Some? && c.autonomous.Some? {
        var a := Insertion(c, c.teleOp.value.pairWithAuto);
        var b := Insertion(c, c.autonomous.value.pairWithTeleOp);
        assert ins == [a, b];
        assert ins[..1] == [a] && [a][..0] == [];
        var h := Steps(g, [a]);
        assert [a][..|[a]| - 1] == [] && [a][|[a]| - 1] == a;
        assert Steps(g, []) == g;
        assert h == GetNextAvailableIndex(g.nextAvailableIndex, g.opModes, c, a.key);
        assert Steps(g, ins) == GetNextAvailableIndex(h.nextAvailableIndex, h.opModes, c, b.key);
      } else {
        assert |ins| == 1 && ins[..0] == [];
      }
    }
  }

  /** Performing `more` after `done` is filing its insertions one by one. */
  lemma {:induction false} InsertAllSeq(done: seq<Insertion>, more: seq<Insertion>)
    ensures InsertAll(done + more) == Steps(InsertAll(done), more)
    decreases |more|
  {
    if more != [] {
      var prev := more[..|more| - 1];
      var last := more[|more| - 1];
      assert done + more == (done + prev) + [last];
      InsertAllSnoc(done + prev, last);
      InsertAllSeq(done, prev);
    } else {
      assert done + more == done;
    }
  }

  /** Filing the insertions `more`, in order, into `g`: `InsertAll` continued from a grouping that
      is not the empty one. */
  function Steps(g: Grouping, more: seq<Insertion>): Grouping {
    if more == [] then g
    else
      var h := Steps(g, more[..|more| - 1]);
      var last := more[|more| - 1];
      GetNextAvailableIndex(h.nextAvailableIndex, h.opModes, last.opMode, last.key)
  }

  lemma InsertionsOfSnoc(klazzes: seq<OpModeClass>, i: nat)
    requires i < |klazzes|
    ensures InsertionsOf(klazzes[..i + 1]) == InsertionsOf(klazzes[..i]) + Insertions(klazzes[i])
  {
    assert klazzes[..i + 1][..i] == klazzes[..i];
  }

  /** Every bucket is non-empty and holds only inserted classes, and the counter equals the number
      of insertions with an empty key. */
  lemma {:induction false} InsertAllMembers(ins: seq<Insertion>)
    ensures InsertAll(ins).nextAvailableIndex == |KeyedWith(ins, "")|
    ensures forall k :: k in InsertAll(ins).opModes ==>
      (InsertAll(ins).opModes[k] != [] &&
       forall c :: c in InsertAll(ins).opModes[k] ==> exists x :: x in ins && x.opMode == c)
  {
    if ins != [] {
      var prev := ins[..|ins| - 1];
      var last := ins[|ins| - 1];
      InsertAllMembers(prev);
      assert ins == prev + [last];
      InsertAllSnoc(prev, last);
      forall x | x in prev ensures x in ins { }
    }
  }

  /** An explicit key that is not all digits (so no counter key can equal it) names exactly the
      bucket of the classes that declared it, in declaration order. */
  lemma {:induction false} DeclaredKeyBucket(ins: seq<Insertion>, key: string)
    requires !AllDigits(key)
    ensures key in InsertAll(ins).opModes <==> KeyedWith(ins, key) != []
    ensures key in InsertAll(ins).opModes ==> InsertAll(ins).opModes[key] == KeyedWith(ins, key)
  {
    if ins != [] {
      var prev := ins[..|ins| - 1];
      var last := ins[|ins| - 1];
      DeclaredKeyBucket(prev, key);
      var g := InsertAll(prev);
      if last.key == "" {
        assert IntToString(g.nextAvailableIndex + 1) != key;
      }
    }
  }

  /** When no declared key is all digits, the k-th class (counting from 1) inserted with an empty
      key sits alone in the bucket keyed by the decimal string of k: empty keys are never merged. */
  lemma {:induction false} SyntheticKeyBuckets(ins: seq<Insertion>)
    requires forall x :: x in ins && x.key != "" ==> !AllDigits(x.key)
    ensures InsertAll(ins).nextAvailableIndex == |KeyedWith(ins, "")|
    ensures forall k :: 1 <= k <= |KeyedWith(ins, "")| ==>
      IntToString(k) in InsertAll(ins).opModes && InsertAll(ins).opModes[IntToString(k)] == [KeyedWith(ins, "")[k - 1]]
  {
    InsertAllMembers(ins);
    if ins != [] {
      var prev := ins[..|ins| - 1];
      var last := ins[|ins| - 1];
      assert ins == prev + [last];
      forall x | x in prev ensures x in ins { }
      SyntheticKeyBuckets(prev);
      InsertAllMembers(prev);
      InsertAllSnoc(prev, last);
      var g := InsertAll(prev);
      var n := g.nextAvailableIndex;
      forall k | 1 <= k <= |KeyedWith(ins, "")|
        ensures IntToString(k) in InsertAll(ins).opModes && InsertAll(ins).opModes[IntToString(k)] == [KeyedWith(ins, "")[k - 1]]
      {
        var i := k - 1;
        var g' := InsertAll(ins);
        if i < n {
          assert KeyedWith(prev, "")[i] == KeyedWith(ins, "")[i];
          assert IntToString(k) in g.opModes && g.opModes[IntToString(k)] == [KeyedWith(prev, "")[k - 1]];
        }
        if last.key == "" {
          assert KeyedWith(ins, "") == KeyedWith(prev, "") + [last.opMode];
          if i < n {
            if IntToString(i + 1) == IntToString(n + 1) { IntToStringInjective(i + 1, n + 1); }
            assert g'.opModes[IntToString(i + 1)] == g.opModes[IntToString(i + 1)];
          } else {
            assert i == n;
          }
        } else {
          assert KeyedWith(ins, "") == KeyedWith(prev, "");
          assert IntToString(i + 1) != last.key;
          assert g'.opModes[IntToString(i + 1)] == g.opModes[IntToString(i + 1)];
        }
      }
    } else {
      assert KeyedWith(ins, "") == [];
    }
  }

  /** A class is among the classes inserted under its own key. */
  lemma {:induction false} KeyedWithHas(ins: seq<Insertion>, x: Insertion)
    requires x in ins
    ensures x.opMode in KeyedWith(ins, x.key)
  {
    var prev := ins[..|ins| - 1];
    if x != ins[|ins| - 1] {
      assert ins == prev + [ins[|ins| - 1]];
      KeyedWithHas(prev, x);
    }
  }

  /** When no declared key is all digits, nothing is lost: every inserted class is in some bucket. */
  lemma InsertedIsFiled(ins: seq<Insertion>)
    requires forall x :: x in ins && x.key != "" ==> !AllDigits(x.key)
    ensures forall x :: x in ins ==>
      exists k :: k in InsertAll(ins).opModes && x.opMode in InsertAll(ins).opModes[k]
  {
    var table := InsertAll(ins).opModes;
    SyntheticKeyBuckets(ins);
    forall x | x in ins ensures exists k :: k in table && x.opMode in table[k] {
      KeyedWithHas(ins, x);
      if x.key == "" {
        var keyed := KeyedWith(ins, "");
        var i :| 0 <= i < |keyed| && keyed[i] == x.opMode;
        assert IntToString(i + 1) in table && x.opMode in table[IntToString(i + 1)];
      } else {
        DeclaredKeyBucket(ins, x.key);
        assert x.key in table && x.opMode in table[x.key];
      }
    }
  }

  /** Every insertion of every listed class is among the insertions of the list. */
  lemma {:induction false} InsertionsOfHas(klazzes: seq<OpModeClass>, c: OpModeClass)
    requires c in klazzes
    ensures forall x :: x in Insertions(c) ==> x in InsertionsOf(klazzes)
  {
    var prev := klazzes[..|klazzes| - 1];
    if c != klazzes[|klazzes| - 1] {
      assert klazzes == prev + [klazzes[|klazzes| - 1]];
      InsertionsOfHas(prev, c);
    }
  }

  /** Disabled or untagged classes are never inserted; every inserted class came from the list. */
  lemma {:induction false} InsertionsOfMembers(klazzes: seq<OpModeClass>)
    ensures forall x :: x in InsertionsOf(klazzes) ==> x.opMode in klazzes && !x.opMode.disabled && x.opMode.IsOpMode()
  {
    if klazzes != [] {
      var prev := klazzes[..|klazzes| - 1];
      InsertionsOfMembers(prev);
      forall c | c in prev ensures c in klazzes { }
    }
  }

  /** findOpModes: buckets are non-empty and hold only enabled, tagged classes from the input. */
  lemma FindOpModesMembers(klazzes: seq<OpModeClass>)
    ensures var table := FindOpModesSpec(klazzes).opModes;
      forall k :: k in table ==>
        (table[k] != [] && forall c :: c in table[k] ==> c in klazzes && !c.disabled && c.IsOpMode())
  {
    InsertAllMembers(InsertionsOf(klazzes));
    InsertionsOfMembers(klazzes);
  }
}
