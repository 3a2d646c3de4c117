/** FtcSimpleBootstrap.configure: store the layout id and the OpModeManager, pair up the
    variadic key/value arguments into Bindings, then run one discovery pass. */
module FtcSimpleBootstrap {
  import opened JavaLang
  import opened OpModes
  import opened Bindings
  import opened OpModeTreeMap
  import opened Grouping
  import opened AnnotationFtcRegister

  /** The state of the pairing loop after a prefix of the arguments: the two loop variables, the
      (key, value) pairs handed to Bindings.register so far, and whether an
      IllegalArgumentException has ended the loop. */
  datatype Pairing = Pairing(lastWasString: bool, lastString: string, registered: seq<(string, JObject)>, thrown: bool)

  const Start := Pairing(false, "", [], false)

  /** One iteration of the loop over `objects`. In key position (the previous element was not a
      String) a String becomes the pending key and anything else is a mismatch, fatal only when
      `debug` is set; in value position the element is registered under the pending key, which
      Bindings.register refuses when it is empty. */
  function PairStep(p: Pairing, o: JObject, debug: bool): (q: Pairing)
    ensures p.thrown ==> q == p
    ensures !p.thrown && !p.lastWasString && !o.JString? ==>
              q == (if debug then p.(thrown := true) else p)
    ensures !p.thrown && !p.lastWasString && o.JString? ==>
              q == p.(lastWasString := true, lastString := o.s)
    ensures !p.thrown && p.lastWasString && p.lastString == "" ==> q == p.(thrown := true)
    ensures !p.thrown && p.lastWasString && p.lastString != "" ==>
              q == Pairing(o.JString?, p.lastString, p.registered + [(p.lastString, o)], false)
  {
    if p.thrown then p
    else if !p.lastWasString && !o.JString? && debug then p.(thrown := true)
    else
      var key := if !p.lastWasString && o.JString? then o.s else p.lastString;
      if p.lastWasString && key == "" then p.(thrown := true)
      else Pairing(o.JString?, key, if p.lastWasString then p.registered + [(key, o)] else p.registered, false)
  }

  /** The loop run over `objs` from its initial state. */
  function Pairs(objs: seq<JObject>, debug: bool): Pairing
  {
    if objs == [] then Start
    else PairStep(Pairs(objs[..|objs| - 1], debug), objs[|objs| - 1], debug)
  }

  /** The map after putting each registered pair, in order, into `m`. */
  function Bind(m: map<string, JObject>, regs: seq<(string, JObject)>): map<string, JObject>
  {
    if regs == [] then m
    else Bind(m, regs[..|regs| - 1])[regs[|regs| - 1].0 := regs[|regs| - 1].1]
  }

  /** The value of the last pair registered under `k`, if any. */
  function LastValue(regs: seq<(string, JObject)>, k: string): (v: Option<JObject>)
    ensures v.Some? <==> exists i :: 0 <= i < |regs| && regs[i].0 == k
  {
    if regs == [] then None
    else if regs[|regs| - 1].0 == k then Some(regs[|regs| - 1].1)
    else
      var v := LastValue(regs[..|regs| - 1], k);
      assert forall i :: 0 <= i < |regs| - 1 ==> regs[..|regs| - 1][i] == regs[i];
      v
  }

  /** Later registrations overwrite earlier ones: a key maps to the last value registered under it,
      and a key never registered keeps what it had. */
  lemma {:induction false} BindLookup(m: map<string, JObject>, regs: seq<(string, JObject)>, k: string)
    ensures LastValue(regs, k).Some? ==> k in Bind(m, regs) && Bind(m, regs)[k] == LastValue(regs, k).value
    ensures LastValue(regs, k).None? ==> (k in Bind(m, regs) <==> k in m) && (k in m ==> Bind(m, regs)[k] == m[k])
  {
    if regs != [] {
      BindLookup(m, regs[..|regs| - 1], k);
    }
  }

  /** The arguments the bootstrap expects: non-empty String keys, each followed by a non-String value. */
  ghost predicate WellPaired(objs: seq<JObject>)
  {
    |objs| % 2 == 0 &&
    (forall i :: 0 <= i < |objs| && i % 2 == 0 ==> objs[i].JString? && objs[i].s != "") &&
    (forall i :: 0 <= i < |objs| && i % 2 == 1 ==> !objs[i].JString?)
  }

  /** The (key, value) pairs of a well-paired argument list, in order. */
  ghost function KeyValues(objs: seq<JObject>): seq<(string, JObject)>
    requires WellPaired(objs)
  {
    if objs == [] then []
    else
      var init := objs[..|objs| - 2];
      assert WellPaired(init) by {
        assert forall i :: 0 <= i < |init| ==> init[i] == objs[i];
      }
      KeyValues(init) + [(objs[|objs| - 2].s, objs[|objs| - 1])]
  }

  /** A well-paired list registers exactly its pairs, in order, in either mode, without throwing. */
  lemma {:induction false} WellPairedRegistersPairs(objs: seq<JObject>, debug: bool)
    requires WellPaired(objs)
    ensures Pairs(objs, debug).registered == KeyValues(objs)
    ensures !Pairs(objs, debug).thrown && !Pairs(objs, debug).lastWasString
  {
    if objs != [] {
      var init := objs[..|objs| - 2];
      assert forall i :: 0 <= i < |init| ==> init[i] == objs[i];
      assert WellPaired(init);
      WellPairedRegistersPairs(init, debug);
      assert objs[..|objs| - 1][..|objs| - 2] == init;
    }
  }

  /** A key left without a value at the end registers nothing. */
  lemma TrailingKeyRegistersNothing(objs: seq<JObject>, key: string, debug: bool)
    requires WellPaired(objs)
    ensures Pairs(objs + [JString(key)], debug).registered == KeyValues(objs)
    ensures !Pairs(objs + [JString(key)], debug).thrown
  {
    WellPairedRegistersPairs(objs, debug);
    assert (objs + [JString(key)])[..|objs|] == objs;
  }

  /** Once the loop has thrown, the remaining arguments change nothing. */
  lemma {:induction false} ThrownIsFinal(objs: seq<JObject>, i: nat, debug: bool)
    requires i <= |objs| && Pairs(objs[..i], debug).thrown
    ensures Pairs(objs, debug) == Pairs(objs[..i], debug)
  {
    if i < |objs| {
      assert objs[..|objs| - 1][..i] == objs[..i];
      ThrownIsFinal(objs[..|objs| - 1], i, debug);
    } else {
      assert objs[..i] == objs;
    }
  }

  /** Lenient mode throws only on an empty key: without an empty String argument it never does. */
  lemma {:induction false} LenientThrowsOnlyOnEmptyKey(objs: seq<JObject>)
    requires forall i :: 0 <= i < |objs| ==> objs[i] != JString("")
    ensures !Pairs(objs, false).thrown
    ensures Pairs(objs, false).lastWasString ==> Pairs(objs, false).lastString != ""
  {
    if objs != [] {
      var init := objs[..|objs| - 1];
      assert forall i :: 0 <= i < |init| ==> init[i] == objs[i];
      LenientThrowsOnlyOnEmptyKey(init);
    }
  }

  /** An empty String in key position, followed by any value, throws in either mode. */
  lemma EmptyKeyThrows(objs: seq<JObject>, value: JObject, debug: bool)
    requires !Pairs(objs, debug).thrown && !Pairs(objs, debug).lastWasString
    ensures Pairs(objs + [JString(""), value], debug).thrown
  {
    var objs' := objs + [JString(""), value];
    assert objs'[..|objs'| - 1][..|objs|] == objs;
  }

  /** Strict mode rejects a list that starts with a non-String. */
  lemma StrictRejectsLeadingValue(objs: seq<JObject>)
    requires objs != [] && !objs[0].JString?
    ensures Pairs(objs, true).thrown
  {
    assert objs[..1][..0] == [];
    ThrownIsFinal(objs, 1, true);
  }

  /** Lenient mode skips a non-String in key position: the state is as if it were absent. */
  lemma LenientSkipsStray(objs: seq<JObject>, stray: JObject)
    requires !stray.JString? && !Pairs(objs, false).lastWasString
    ensures Pairs(objs + [stray], false) == Pairs(objs, false)
  {
    assert (objs + [stray])[..|objs|] == objs;
  }

  /** A String in value position is registered under the pending key, and the key stays pending:
      the element after it is registered under the same key. */
  lemma StringValueKeepsKey(objs: seq<JObject>, v: string, next: JObject, debug: bool)
    requires !Pairs(objs, debug).thrown && Pairs(objs, debug).lastWasString
    requires Pairs(objs, debug).lastString != ""
    ensures var key := Pairs(objs, debug).lastString;
            Pairs(objs + [JString(v), next], debug).registered ==
              Pairs(objs, debug).registered + [(key, JString(v)), (key, next)]
  {
    var objs' := objs + [JString(v), next];
    assert objs'[..|objs'| - 1][..|objs|] == objs;
  }

  /** Whenever strict mode gets through a list, lenient mode does exactly the same. */
  lemma {:induction false} StrictAgreesWithLenient(objs: seq<JObject>)
    requires !Pairs(objs, true).thrown
    ensures Pairs(objs, true) == Pairs(objs, false)
  {
    if objs != [] {
      StrictAgreesWithLenient(objs[..|objs| - 1]);
    }
  }

  lemma PairsUnfold(objs: seq<JObject>, i: nat, debug: bool)
    requires i < |objs|
    ensures Pairs(objs[..i + 1], debug) == PairStep(Pairs(objs[..i], debug), objs[i], debug)
  {
    assert objs[..i + 1][..i] == objs[..i];
  }

  /** The loop of configure over the arguments: each element in value position is registered in
      `bindings` under the pending key, until the arguments run out or an exception ends the loop. */
  method PairArguments(debug: bool, objs: seq<JObject>, bindings: Bindings) returns (thrown: bool)
    modifies bindings
    ensures thrown == Pairs(objs, debug).thrown
    ensures bindings.entries == Bind(old(bindings.entries), Pairs(objs, debug).registered)
    ensures bindings.relativeLayout == old(bindings.relativeLayout)
    ensures bindings.opModeManager == old(bindings.opModeManager)
  {
    var lastWasString := false;
    var lastString := "";
    ghost var registered: seq<(string, JObject)> := [];
    var i := 0;
    while i < |objs|
      invariant 0 <= i <= |objs|
      invariant Pairs(objs[..i], debug) == Pairing(lastWasString, lastString, registered, false)
      invariant bindings.entries == Bind(old(bindings.entries), registered)
      invariant bindings.relativeLayout == old(bindings.relativeLayout)
      invariant bindings.opModeManager == old(bindings.opModeManager)
    {
      var o := objs[i];
      PairsUnfold(objs, i, debug);
      if !lastWasString {
        if o.JString? {
          lastString := o.s;
        } else if debug {
          ThrownIsFinal(objs, i + 1, debug);
          return true;
        }
      }
      if lastWasString {
        var r := bindings.Register(lastString, o);
        if r.Threw? {
          ThrownIsFinal(objs, i + 1, debug);
          return true;
        }
        registered := registered + [(lastString, o)];
      }
      lastWasString := o.JString?;
      i := i + 1;
    }
    assert objs[..i] == objs;
    return false;
  }

  /** configure(debug, mgr, RelativeLayout, objects...). A null `objects` array is None. The pass
      of loadOpModes takes its inputs (`klazzes`, `loadable`, `encodedLen`) as parameters. */
  method Configure(debug: bool, mgr: OpModeManager, relativeLayout: int, objects: Option<seq<JObject>>,
                   bindings: Bindings, klazzes: seq<string>, loadable: map<string, OpModeClass>,
                   encodedLen: string -> nat)
    returns (outcome: Outcome, ghost sorted: OpModeTable, ghost ordered: seq<Entry>, ghost toRegister: seq<OpModeClass>)
    modifies bindings, mgr
    ensures bindings.relativeLayout == relativeLayout && bindings.opModeManager == mgr
    ensures var p := Pairs(if objects.Some? then objects.value else [], debug);
            bindings.entries == Bind(old(bindings.entries), p.registered) &&
            (p.thrown ==> outcome == Threw(IllegalArgumentException) && mgr.calls == old(mgr.calls)) &&
            (!p.thrown ==> PassRegistered(old(mgr.calls), mgr.calls, klazzes, loadable, encodedLen,
                                          outcome, sorted, ordered, toRegister))
  {
    bindings.SetRelativeLayout(relativeLayout);
    bindings.SetOpModeManager(mgr);
    var objs := if objects.Some? then objects.value else [];
    var thrown := PairArguments(debug, objs, bindings);
    if thrown {
      return Threw(IllegalArgumentException), map[], [], [];
    }
    outcome, sorted, ordered, toRegister := LoadOpModes(mgr, klazzes, loadable, encodedLen);
  }

  /** configure(mgr, RelativeLayout, objects...): the same with debug off. */
  method ConfigureLenient(mgr: OpModeManager, relativeLayout: int, objects: Option<seq<JObject>>,
                          bindings: Bindings, klazzes: seq<string>, loadable: map<string, OpModeClass>,
                          encodedLen: string -> nat)
    returns (outcome: Outcome, ghost sorted: OpModeTable, ghost ordered: seq<Entry>, ghost toRegister: seq<OpModeClass>)
    modifies bindings, mgr
    ensures bindings.relativeLayout == relativeLayout && bindings.opModeManager == mgr
    ensures var p := Pairs(if objects.Some? then objects.value else [], false);
            bindings.entries == Bind(old(bindings.entries), p.registered) &&
            (p.thrown ==> outcome == Threw(IllegalArgumentException) && mgr.calls == old(mgr.calls)) &&
            (!p.thrown ==> PassRegistered(old(mgr.calls), mgr.calls, klazzes, loadable, encodedLen,
                                          outcome, sorted, ordered, toRegister))
  {
    outcome, sorted, ordered, toRegister := Configure(false, mgr, relativeLayout, objects, bindings, klazzes, loadable, encodedLen);
  }
}
