/** AnnotationFtcRegister: the discovery pass that turns a list of class identifiers into the
    ordered `register(name, class)` calls made to the OpModeManager. */
module AnnotationFtcRegister {
  import opened JavaLang
  import opened JavaStrings
  import opened OpModes
  import opened DenyList
  import opened Grouping
  import opened OpModeTreeMap
  import opened NameBudget

  /** One discovery pass; its only state is the no-check list. */
  class AnnotationFtcRegister {
    var noCheckList: seq<string>

    constructor ()
      ensures noCheckList == []
    {
      noCheckList := [];
    }

    /** buildNoCheckList: seeds the list with "com.google" and "io.netty". */
    method BuildNoCheckList()
      modifies this
      ensures noCheckList == old(noCheckList) + Seed
    {
      noCheckList := noCheckList + ["com.google"];
      noCheckList := noCheckList + ["io.netty"];
    }

    /** shouldAdd: true iff no entry of the list occurs anywhere inside `klazz`. */
    method ShouldAdd(klazz: string) returns (r: bool)
      ensures r <==> !Denied(noCheckList, klazz)
    {
      var i := 0;
      while i < |noCheckList|
        invariant 0 <= i <= |noCheckList|
        invariant forall j :: 0 <= j < i ==> !IsSubstring(noCheckList[j], klazz)
      {
        if Contains(klazz, noCheckList[i]) {
          return false;
        }
        i := i + 1;
      }
      return true;
    }

    /** buildClassList over the enumerated identifiers; `loadable` stands for the class loader. A
        failed load appends to the no-check list; a failing identifier that starts with '$' makes
        `substring(0, -1)` throw, which ends the pass. */
    method BuildClassList(klazzes: seq<string>, loadable: map<string, OpModeClass>)
      returns (classesToProcess: seq<OpModeClass>, thrown: bool)
      modifies this
      ensures var s := Scan(old(noCheckList), klazzes, loadable);
        noCheckList == s.noCheckList && thrown == s.failed && (!thrown ==> classesToProcess == s.classes)
    {
      classesToProcess := [];
      thrown := false;
      var i := 0;
      while i < |klazzes|
        invariant 0 <= i <= |klazzes|
        invariant Scan(old(noCheckList), klazzes[..i], loadable) == ClassScan(noCheckList, classesToProcess, false)
      {
        ScanUnfold(old(noCheckList), klazzes, loadable, i);
        var klazz := klazzes[i];
        var add := ShouldAdd(klazz);
        if add {
          if klazz in loadable {
            classesToProcess := classesToProcess + [loadable[klazz]];
          } else {
            if '$' in klazz {
              var cut := IndexOf(klazz, '$') - 1;
              if cut < 0 {
                thrown := true;
                ScanMonotone(old(noCheckList), klazzes, loadable, i + 1, |klazzes|);
                assert klazzes[..|klazzes|] == klazzes;
                return;
              }
              klazz := klazz[..cut];
            }
            noCheckList := noCheckList + [klazz];
          }
        }
        i := i + 1;
      }
      assert klazzes[..i] == klazzes;
    }

    /** findOpModes: files every enabled op mode into its bucket(s), in list order. */
    method FindOpModes(klazzes: seq<OpModeClass>) returns (opModes: OpModeTable)
      ensures opModes == FindOpModesSpec(klazzes).opModes
    {
      var nextAvailableIndex := 0;
      opModes := map[];
      var i := 0;
      while i < |klazzes|
        invariant 0 <= i <= |klazzes|
        invariant FindOpModesSpec(klazzes[..i]) == Grouping(nextAvailableIndex, opModes)
      {
        FileClassStep(klazzes, i);
        var currentClass := klazzes[i];
        if !currentClass.disabled {
          if currentClass.teleOp.Some? {
            var name := currentClass.teleOp.value.pairWithAuto;
            var g := GetNextAvailableIndex(nextAvailableIndex, opModes, currentClass, name);
            nextAvailableIndex, opModes := g.nextAvailableIndex, g.opModes;
          }
          if currentClass.autonomous.Some? {
            var name := currentClass.autonomous.value.pairWithTeleOp;
            var g := GetNextAvailableIndex(nextAvailableIndex, opModes, currentClass, name);
            nextAvailableIndex, opModes := g.nextAvailableIndex, g.opModes;
          }
        }
        i := i + 1;
      }
      assert klazzes[..i] == klazzes;
    }

    /** sortOpModeMap: sorts every bucket with the op-mode comparator; keys are unchanged. */
    method SortOpModeMap(opModes: OpModeTable) returns (sorted: OpModeTable)
      ensures sorted.Keys == opModes.Keys
      ensures forall k :: k in sorted ==> multiset(sorted[k]) == multiset(opModes[k])
      ensures forall k :: k in sorted && |opModes[k]| == 2 ==> sorted[k] == SortedPair(opModes[k])
    {
      sorted := opModes;
      var keys := opModes.Keys;
      while keys != {}
        invariant keys <= opModes.Keys
        invariant sorted.Keys == opModes.Keys
        invariant forall k :: k in sorted ==> BucketSortedOrPending(opModes[k], sorted[k], k in keys)
        decreases keys
      {
        var key :| key in keys;
        var bucket := SortBucket(sorted[key]);
        sorted := sorted[key := bucket];
        keys := keys - {key};
      }
    }

    /** treeMapify: re-keys every bucket by its first member's name into an ascending map. The
        HashMap's key order is unspecified, so the keys are taken in an arbitrary order; when two
        buckets' first members share a name, the later `put` wins. */
    method TreeMapify(opModes: OpModeTable) returns (sortedOpModes: seq<Entry>)
      requires forall k :: k in opModes ==> opModes[k] != []
      ensures Ascending(sortedOpModes)
      ensures Names(sortedOpModes) == FirstNames(opModes, opModes.Keys)
      ensures forall e :: e in sortedOpModes ==>
        e.opModes in opModes.Values && e.opModes != [] && OpModeName(e.opModes[0]) == e.name
      ensures DistinctFirstNames(opModes) ==>
        forall k :: k in opModes ==> Get(sortedOpModes, OpModeName(opModes[k][0])) == Some(opModes[k])
    {
      sortedOpModes := [];
      var keys := opModes.Keys;
      TreeMapifyStart(opModes);
      while keys != {}
        invariant keys <= opModes.Keys
        invariant TreeMapifyInv(opModes, opModes.Keys - keys, sortedOpModes)
        decreases keys
      {
        var key :| key in keys;
        var opMode := opModes[key][0];
        var name := OpModeName(opMode);
        TreeMapifyNext(opModes, keys, sortedOpModes, key);
        sortedOpModes := Put(sortedOpModes, name, opModes[key]);
        keys := keys - {key};
      }
      TreeMapifyDone(opModes, sortedOpModes);
    }
  }

  /** treeMapify's loop invariant once the buckets under `done` have been put. */
  ghost predicate TreeMapifyInv(opModes: OpModeTable, done: set<string>, sortedOpModes: seq<Entry>)
    requires forall k :: k in opModes ==> opModes[k] != []
  {
    Ascending(sortedOpModes) &&
    Names(sortedOpModes) == FirstNames(opModes, done) &&
    (forall e :: e in sortedOpModes ==>
      e.opModes in opModes.Values && e.opModes != [] && OpModeName(e.opModes[0]) == e.name) &&
    (DistinctFirstNames(opModes) ==>
      forall k :: k in opModes && k in done ==> Get(sortedOpModes, OpModeName(opModes[k][0])) == Some(opModes[k]))
  }

  lemma TreeMapifyStart(opModes: OpModeTable)
    requires forall k :: k in opModes ==> opModes[k] != []
    ensures TreeMapifyInv(opModes, opModes.Keys - opModes.Keys, [])
  {
    assert opModes.Keys - opModes.Keys == {};
  }

  lemma TreeMapifyNext(opModes: OpModeTable, keys: set<string>, sortedOpModes: seq<Entry>, key: string)
    requires forall k :: k in opModes ==> opModes[k] != []
    requires keys <= opModes.Keys && key in keys
    requires TreeMapifyInv(opModes, opModes.Keys - keys, sortedOpModes)
    ensures TreeMapifyInv(opModes, opModes.Keys - (keys - {key}),
                          Put(sortedOpModes, OpModeName(opModes[key][0]), opModes[key]))
  {
    var done := opModes.Keys - keys;
    var done' := opModes.Keys - (keys - {key});
    assert done + {key} == done';
    TreeMapifyStep(opModes, done, sortedOpModes, key);
  }

  /** With every key done, the invariant is treeMapify's postcondition. */
  lemma TreeMapifyDone(opModes: OpModeTable, sortedOpModes: seq<Entry>)
    requires forall k :: k in opModes ==> opModes[k] != []
    requires TreeMapifyInv(opModes, opModes.Keys - {}, sortedOpModes)
    ensures Ascending(sortedOpModes)
    ensures Names(sortedOpModes) == FirstNames(opModes, opModes.Keys)
    ensures forall e :: e in sortedOpModes ==>
      e.opModes in opModes.Values && e.opModes != [] && OpModeName(e.opModes[0]) == e.name
    ensures DistinctFirstNames(opModes) ==>
      forall k :: k in opModes ==> Get(sortedOpModes, OpModeName(opModes[k][0])) == Some(opModes[k])
  {
    assert opModes.Keys - {} == opModes.Keys;
  }

  lemma TreeMapifyStep(opModes: OpModeTable, done: set<string>, sortedOpModes: seq<Entry>, key: string)
    requires forall k :: k in opModes ==> opModes[k] != []
    requires key in opModes && TreeMapifyInv(opModes, done, sortedOpModes)
    ensures TreeMapifyInv(opModes, done + {key}, Put(sortedOpModes, OpModeName(opModes[key][0]), opModes[key]))
  {
    var name := OpModeName(opModes[key][0]);
    var r := Put(sortedOpModes, name, opModes[key]);
    FirstNamesAdd(opModes, done, key);
    forall e | e in r
      ensures e.opModes in opModes.Values && e.opModes != [] && OpModeName(e.opModes[0]) == e.name
    {
    }
    if DistinctFirstNames(opModes) {
      forall k | k in opModes && k in done + {key}
        ensures Get(r, OpModeName(opModes[k][0])) == Some(opModes[k])
      {
        if k != key {
          assert OpModeName(opModes[k][0]) != name;
        }
      }
    }
  }

  /** The resolved names of the first members of the buckets under `keys`. */
  ghost function FirstNames(opModes: OpModeTable, keys: set<string>): set<string>
    requires forall k :: k in opModes ==> opModes[k] != []
  {
    set k | k in keys && k in opModes :: OpModeName(opModes[k][0])
  }

  lemma FirstNamesAdd(opModes: OpModeTable, keys: set<string>, key: string)
    requires forall k :: k in opModes ==> opModes[k] != []
    requires key in opModes
    ensures FirstNames(opModes, keys + {key}) == FirstNames(opModes, keys) + {OpModeName(opModes[key][0])}
  {
  }

  /** No two buckets' first members share a resolved name. */
  ghost predicate DistinctFirstNames(opModes: OpModeTable) {
    forall k1, k2 ::
      (k1 in opModes && k2 in opModes && opModes[k1] != [] && opModes[k2] != [] &&
       OpModeName(opModes[k1][0]) == OpModeName(opModes[k2][0])) ==> k1 == k2
  }

  /** Every adjacent pair is already in comparator order. */
  ghost predicate InComparatorOrder(list: seq<OpModeClass>) {
    forall i :: 0 < i < |list| ==> Compare(list[i], list[i - 1]) >= 0
  }

  /** A bucket of sortOpModeMap's table: untouched while its key is pending, and afterwards what
      `SortBucket` promises. */
  ghost predicate BucketSortedOrPending(bucket: seq<OpModeClass>, now: seq<OpModeClass>, pending: bool) {
    if pending then now == bucket
    else multiset(now) == multiset(bucket) && (|bucket| == 2 ==> now == SortedPair(bucket))
  }

  /** What `Collections.sort` makes of a two-element list: the second goes first exactly when
      the comparator puts it strictly before the first. */
  function SortedPair(pair: seq<OpModeClass>): (r: seq<OpModeClass>)
    requires |pair| == 2
    ensures |r| == 2 && multiset(r) == multiset(pair)
    ensures Compare(pair[1], pair[0]) >= 0 ==> r == pair
  {
    if Compare(pair[1], pair[0]) < 0 then
      assert pair == [pair[0], pair[1]];
      [pair[1], pair[0]]
    else pair
  }

  /** A TeleOp op mode paired with an Autonomous-only one is sorted to the front of its bucket,
      whichever of the two was filed first. */
  lemma PairedTeleOpFirst(teleOp: OpModeClass, auto: OpModeClass)
    requires teleOp.teleOp.Some? && auto.IsAutonomousOnly()
    ensures SortedPair([teleOp, auto]) == [teleOp, auto]
    ensures SortedPair([auto, teleOp]) == [teleOp, auto]
  {
  }

  /** Collections.sort of one bucket with OpModeComparator, as a stable insertion sort. The result
      is a permutation; a bucket already in comparator order is left as it is; and a bucket of two
      is swapped exactly when `compare(second, first) < 0`. */
  method SortBucket(list: seq<OpModeClass>) returns (sorted: seq<OpModeClass>)
    ensures |sorted| == |list| && multiset(sorted) == multiset(list)
    ensures InComparatorOrder(list) ==> sorted == list
    ensures |list| == 2 ==> sorted == SortedPair(list)
  {
    sorted := list;
    var i := 0;
    while i < |sorted|
      invariant 0 <= i <= |sorted| == |list|
      invariant multiset(sorted) == multiset(list)
      invariant InComparatorOrder(list) ==> sorted == list
      invariant |list| == 2 && i <= 1 ==> sorted == list
      invariant |list| == 2 && i == 2 ==> sorted == SortedPair(list)
    {
      sorted := Sink(sorted, i);
      i := i + 1;
    }
  }

  /** One pass of the insertion sort: the element at `i` is swapped towards the front while it
      compares below its left neighbour. An element not below its neighbour stays put. */
  method Sink(s: seq<OpModeClass>, i: nat) returns (t: seq<OpModeClass>)
    requires i < |s|
    ensures |t| == |s| && multiset(t) == multiset(s)
    ensures i == 0 || Compare(s[i], s[i - 1]) >= 0 ==> t == s
    ensures |s| == 2 && i == 1 ==> t == (if Compare(s[1], s[0]) < 0 then [s[1], s[0]] else s)
  {
    t := s;
    var j := i;
    while j > 0 && Compare(t[j], t[j - 1]) < 0
      invariant 0 <= j <= i
      invariant |t| == |s| && multiset(t) == multiset(s)
      invariant j == i ==> t == s
      invariant j < i ==> Compare(s[i], s[i - 1]) < 0
      invariant |s| == 2 && i == 1 && j == 0 ==> t == [s[1], s[0]] && Compare(s[1], s[0]) < 0
    {
      SwapPermutes(t, j);
      var swapped := t[j := t[j - 1]][j - 1 := t[j]];
      if |s| == 2 && i == 1 {
        assert swapped == [s[1], s[0]];
      }
      t := swapped;
      j := j - 1;
    }
  }

  /** Swapping two neighbours permutes the sequence. */
  lemma SwapPermutes(t: seq<OpModeClass>, j: nat)
    requires 0 < j < |t|
    ensures multiset(t[j := t[j - 1]][j - 1 := t[j]]) == multiset(t)
  {
    var u := t[j := t[j - 1]][j - 1 := t[j]];
    assert t == t[..j - 1] + [t[j - 1], t[j]] + t[j + 1..];
    assert u == t[..j - 1] + [t[j], t[j - 1]] + t[j + 1..];
  }

  /** The length in bytes of the name table built with the StringBuilder in loadOpModes. */
  method NameTableLength(opModesToRegister: seq<OpModeClass>, encodedLen: string -> nat) returns (length: nat)
    ensures length == TableLength(NamesOf(opModesToRegister), encodedLen)
  {
    length := 0;
    var i := 0;
    while i < |opModesToRegister|
      invariant 0 <= i <= |opModesToRegister|
      invariant length == TableLength(NamesOf(opModesToRegister[..i]), encodedLen)
    {
      NamesOfSnoc(opModesToRegister, i);
      TableLengthSnoc(NamesOf(opModesToRegister[..i]), OpModeName(opModesToRegister[i]), encodedLen);
      length := length + encodedLen(OpModeName(opModesToRegister[i])) + 1;
      i := i + 1;
    }
    assert opModesToRegister[..i] == opModesToRegister;
  }

  /** What one pass leaves behind: the registrar received the budget-checked registrations of the
      flattened, name-ordered buckets, each of which is a permutation of a findOpModes bucket. */
  ghost predicate PassRegistered(
    calls0: seq<Registration>, calls1: seq<Registration>,
    klazzes: seq<string>, loadable: map<string, OpModeClass>, encodedLen: string -> nat,
    outcome: Outcome, sorted: OpModeTable, ordered: seq<Entry>, toRegister: seq<OpModeClass>)
  {
    var scan := Scan(Seed, klazzes, loadable);
    (scan.failed ==> outcome == Threw(StringIndexOutOfBoundsException) && calls1 == calls0) &&
    (!scan.failed ==>
      var grouped := FindOpModesSpec(scan.classes).opModes;
      outcome == Completed &&
      SortedFrom(grouped, sorted) && NonEmptyBuckets(sorted) && TreeMapOf(sorted, ordered) &&
      toRegister == Flatten(ordered) &&
      calls1 == calls0 + Registrations(toRegister, encodedLen) &&
      (forall c :: c in toRegister ==> c in scan.classes && !c.disabled && c.IsOpMode()))
  }

  /** What sortOpModeMap leaves: the same keys, each bucket a permutation of the one before, and a
      two-element bucket in the comparator's order. */
  ghost predicate SortedFrom(grouped: OpModeTable, sorted: OpModeTable) {
    sorted.Keys == grouped.Keys &&
    (forall k :: k in sorted ==> multiset(sorted[k]) == multiset(grouped[k])) &&
    (forall k :: k in sorted && |grouped[k]| == 2 ==> sorted[k] == SortedPair(grouped[k]))
  }

  ghost predicate NonEmptyBuckets(opModes: OpModeTable) {
    forall k :: k in opModes ==> opModes[k] != []
  }

  /** What treeMapify promises about the TreeMap it builds from `opModes`. */
  ghost predicate TreeMapOf(opModes: OpModeTable, entries: seq<Entry>)
    requires NonEmptyBuckets(opModes)
  {
    Ascending(entries) &&
    Names(entries) == FirstNames(opModes, opModes.Keys) &&
    (forall e :: e in entries ==>
      e.opModes in opModes.Values && e.opModes != [] && OpModeName(e.opModes[0]) == e.name) &&
    (DistinctFirstNames(opModes) ==>
      forall k :: k in opModes ==> Get(entries, OpModeName(opModes[k][0])) == Some(opModes[k]))
  }

  /** The nested loop of loadOpModes that collects the buckets' members in iteration order. */
  method FlattenTreeMap(treeMap: seq<Entry>) returns (opModesToRegister: seq<OpModeClass>)
    ensures opModesToRegister == Flatten(treeMap)
  {
    opModesToRegister := [];
    var i := 0;
    while i < |treeMap|
      invariant 0 <= i <= |treeMap|
      invariant opModesToRegister == Flatten(treeMap[..i])
    {
      FlattenSnoc(treeMap, i);
      var opModeList := treeMap[i].opModes;
      var j := 0;
      while j < |opModeList|
        invariant 0 <= j <= |opModeList|
        invariant opModesToRegister == Flatten(treeMap[..i]) + opModeList[..j]
      {
        assert opModeList[..j + 1] == opModeList[..j] + [opModeList[j]];
        opModesToRegister := opModesToRegister + [opModeList[j]];
        j := j + 1;
      }
      assert opModeList[..j] == opModeList;
      i := i + 1;
    }
    assert treeMap[..i] == treeMap;
  }

  /** The name-length check and the register calls that end loadOpModes. */
  method RegisterWithinBudget(register: OpModeManager, opModesToRegister: seq<OpModeClass>, encodedLen: string -> nat)
    modifies register
    ensures register.calls == old(register.calls) + Registrations(opModesToRegister, encodedLen)
  {
    var length := NameTableLength(opModesToRegister, encodedLen);
    if length > MaxNameTableBytes {
      register.Register(TooManyOpModeNames, TooManyOpModes);
    } else {
      var k := 0;
      while k < |opModesToRegister|
        invariant 0 <= k <= |opModesToRegister|
        invariant register.calls == old(register.calls) + RegisterAll(opModesToRegister[..k])
      {
        NamesOfSnoc(opModesToRegister, k);
        var opMode := opModesToRegister[k];
        register.Register(OpModeName(opMode), Registered(opMode));
        k := k + 1;
      }
      assert opModesToRegister[..k] == opModesToRegister;
    }
  }

  /** Where the flattened classes came from: each entry of the ordered map holds a permutation of a
      findOpModes bucket, so every class to register is an enabled op mode that was loaded. */
  lemma FlattenedProvenance(classes: seq<OpModeClass>, opModes: OpModeTable, sortedMap: OpModeTable, treeMap: seq<Entry>)
    requires opModes == FindOpModesSpec(classes).opModes
    requires sortedMap.Keys == opModes.Keys
    requires forall k :: k in sortedMap ==> multiset(sortedMap[k]) == multiset(opModes[k])
    requires forall e :: e in treeMap ==> e.opModes in sortedMap.Values
    ensures forall e :: e in treeMap ==> exists k :: k in opModes && multiset(e.opModes) == multiset(opModes[k])
    ensures forall c :: c in Flatten(treeMap) ==> c in classes && !c.disabled && c.IsOpMode()
  {
    FindOpModesMembers(classes);
    FlattenMembers(treeMap);
    forall e | e in treeMap
      ensures exists k :: k in opModes && multiset(e.opModes) == multiset(opModes[k])
    {
      var k :| k in sortedMap && sortedMap[k] == e.opModes;
    }
    forall c | c in Flatten(treeMap) ensures c in classes && !c.disabled && c.IsOpMode() {
      var e :| e in treeMap && c in e.opModes;
      var k :| k in sortedMap && sortedMap[k] == e.opModes;
      assert c in multiset(opModes[k]);
    }
  }

  /** No op mode is lost on the way to the registrar, as long as no two sorted buckets start with
      op modes of the same name (the TreeMap would keep only one of them) and no declared pairing
      key is all digits (a counter key could replace its bucket): every loaded, enabled, tagged
      class is among the op modes to register, and when the name table fits it is registered under
      its resolved name. */
  lemma PassRegistersEveryOpMode(
    calls0: seq<Registration>, calls1: seq<Registration>,
    klazzes: seq<string>, loadable: map<string, OpModeClass>, encodedLen: string -> nat,
    outcome: Outcome, sorted: OpModeTable, ordered: seq<Entry>, toRegister: seq<OpModeClass>)
    requires PassRegistered(calls0, calls1, klazzes, loadable, encodedLen, outcome, sorted, ordered, toRegister)
    requires !Scan(Seed, klazzes, loadable).failed
    requires DistinctFirstNames(sorted)
    requires forall x :: x in InsertionsOf(Scan(Seed, klazzes, loadable).classes) && x.key != "" ==> !AllDigits(x.key)
    ensures forall c :: c in Scan(Seed, klazzes, loadable).classes && !c.disabled && c.IsOpMode() ==> c in toRegister
    ensures TableLength(NamesOf(toRegister), encodedLen) <= MaxNameTableBytes ==>
      forall c :: c in Scan(Seed, klazzes, loadable).classes && !c.disabled && c.IsOpMode() ==>
        Registration(OpModeName(c), Registered(c)) in calls1
  {
    var scan := Scan(Seed, klazzes, loadable);
    var grouped := FindOpModesSpec(scan.classes).opModes;
    forall c | c in scan.classes && !c.disabled && c.IsOpMode() ensures c in toRegister {
      var k := FiledUnder(scan.classes, c);
      BucketReachesTreeMap(grouped, sorted, ordered, k, c);
    }
    if TableLength(NamesOf(toRegister), encodedLen) <= MaxNameTableBytes {
      RegisteredAll(calls0, calls1, toRegister);
    }
  }

  /** Every enabled, tagged class lands in some bucket of findOpModes' table. */
  lemma FiledUnder(classes: seq<OpModeClass>, c: OpModeClass) returns (k: string)
    requires c in classes && !c.disabled && c.IsOpMode()
    requires forall x :: x in InsertionsOf(classes) && x.key != "" ==> !AllDigits(x.key)
    ensures k in FindOpModesSpec(classes).opModes && c in FindOpModesSpec(classes).opModes[k]
  {
    var ins := InsertionsOf(classes);
    InsertedIsFiled(ins);
    InsertionsOfHas(classes, c);
    var x := Insertions(c)[0];
    assert x in ins && x.opMode == c;
    k :| k in FindOpModesSpec(classes).opModes && c in FindOpModesSpec(classes).opModes[k];
  }

  /** With distinct first names, a member of a bucket is in the flattened TreeMap. */
  lemma BucketReachesTreeMap(grouped: OpModeTable, sorted: OpModeTable, ordered: seq<Entry>, k: string, c: OpModeClass)
    requires SortedFrom(grouped, sorted) && NonEmptyBuckets(sorted) && TreeMapOf(sorted, ordered)
    requires DistinctFirstNames(sorted)
    requires k in grouped && c in grouped[k]
    ensures c in Flatten(ordered)
  {
    assert c in multiset(sorted[k]);
    var name := OpModeName(sorted[k][0]);
    assert Get(ordered, name) == Some(sorted[k]);
    GetFound(ordered, name);
    var e :| e in ordered && e.name == name && e.opModes == sorted[k];
    FlattenMembers(ordered);
  }

  /** When the name table fits, every op mode handed over shows up among the calls. */
  lemma RegisteredAll(calls0: seq<Registration>, calls1: seq<Registration>, toRegister: seq<OpModeClass>)
    requires calls1 == calls0 + RegisterAll(toRegister)
    ensures forall c :: c in toRegister ==> Registration(OpModeName(c), Registered(c)) in calls1
  {
    RegisterAllInOrder(toRegister);
    forall c | c in toRegister ensures Registration(OpModeName(c), Registered(c)) in calls1 {
      var i :| 0 <= i < |toRegister| && toRegister[i] == c;
      assert calls1[|calls0| + i] == RegisterAll(toRegister)[i];
    }
  }

  /** loadOpModes: the whole pass, ending in the calls made to `register`. */
  method LoadOpModes(register: OpModeManager, klazzes: seq<string>, loadable: map<string, OpModeClass>, encodedLen: string -> nat)
    returns (outcome: Outcome, ghost sorted: OpModeTable, ghost ordered: seq<Entry>, ghost toRegister: seq<OpModeClass>)
    modifies register
    ensures PassRegistered(old(register.calls), register.calls, klazzes, loadable, encodedLen, outcome, sorted, ordered, toRegister)
  {
    var me := new AnnotationFtcRegister();
    me.BuildNoCheckList();
    assert me.noCheckList == Seed;
    var classes, thrown := me.BuildClassList(klazzes, loadable);
    if thrown {
      return Threw(StringIndexOutOfBoundsException), map[], [], [];
    }
    var opModes := me.FindOpModes(classes);
    FindOpModesMembers(classes);
    var sortedMap := me.SortOpModeMap(opModes);
    forall k | k in sortedMap ensures sortedMap[k] != [] {
      assert |multiset(sortedMap[k])| == |multiset(opModes[k])|;
    }
    var treeMap := me.TreeMapify(sortedMap);
    var opModesToRegister := FlattenTreeMap(treeMap);
    RegisterWithinBudget(register, opModesToRegister, encodedLen);
    outcome, sorted, ordered, toRegister := Completed, sortedMap, treeMap, opModesToRegister;
    FlattenedProvenance(classes, opModes, sortedMap, treeMap);
  }
}
