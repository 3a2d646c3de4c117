/** The no-check list (a denylist of identifier fragments) and the class-list scan of
    buildClassList that consults and grows it. */
module DenyList {
  import opened JavaLang
  import opened JavaStrings
  import opened OpModes

  /** The entries buildNoCheckList adds. */
  const Seed: seq<string> := ["com.google", "io.netty"]

  /** Some entry of the no-check list occurs inside `klazz`; shouldAdd returns the negation. */
  ghost predicate Denied(noCheckList: seq<string>, klazz: string) {
    exists i :: 0 <= i < |noCheckList| && IsSubstring(noCheckList[i], klazz)
  }

  /** What a failed load of `klazz` appends to the no-check list: the identifier itself, or, when
      it contains '$', its first `indexOf('$') - 1` characters, which also drops the character just
      before the '$'. None when '$' is the first character: `substring(0, -1)` throws. */
  function DenyEntry(klazz: string): (entry: Option<string>)
    ensures '$' !in klazz ==> entry == Some(klazz)
    ensures entry.None? <==> klazz != [] && klazz[0] == '$'
    ensures entry.Some? && '$' in klazz ==>
      var n := |entry.value|;
      n + 1 < |klazz| && entry.value == klazz[..n] && klazz[n + 1] == '$' && '$' !in klazz[..n + 1]
  {
    if '$' in klazz then
      var cut := IndexOf(klazz, '$') - 1;
      if cut < 0 then None else Some(klazz[..cut])
    else Some(klazz)
  }

  /** The state of buildClassList after some prefix of the identifiers: the no-check list, the
      classes loaded so far, and whether an exception has escaped. */
  datatype ClassScan = ClassScan(noCheckList: seq<string>, classes: seq<OpModeClass>, failed: bool)

  /** One iteration: skip a denied identifier; load it if the class loader knows it (`loadable`
      stands for Class.forName); otherwise append its deny entry. */
  ghost function ScanStep(s: ClassScan, klazz: string, loadable: map<string, OpModeClass>): ClassScan {
    if s.failed || Denied(s.noCheckList, klazz) then s
    else if klazz in loadable then s.(classes := s.classes + [loadable[klazz]])
    else match DenyEntry(klazz)
      case Some(entry) => s.(noCheckList := s.noCheckList + [entry])
      case None => s.(failed := true)
  }

  /** buildClassList over `klazzes`, starting from `noCheckList`. */
  ghost function Scan(noCheckList: seq<string>, klazzes: seq<string>, loadable: map<string, OpModeClass>): ClassScan
  {
    if klazzes == [] then ClassScan(noCheckList, [], false)
    else ScanStep(Scan(noCheckList, klazzes[..|klazzes| - 1], loadable), klazzes[|klazzes| - 1], loadable)
  }

  lemma ScanUnfold(noCheckList: seq<string>, klazzes: seq<string>, loadable: map<string, OpModeClass>, j: nat)
    requires j < |klazzes|
    ensures Scan(noCheckList, klazzes[..j + 1], loadable) ==
            ScanStep(Scan(noCheckList, klazzes[..j], loadable), klazzes[j], loadable)
  {
    assert klazzes[..j + 1][..j] == klazzes[..j];
  }

  /** The denylist only grows, and the loaded classes only grow, from one prefix to a longer one. */
  lemma {:induction false} ScanMonotone(noCheckList: seq<string>, klazzes: seq<string>, loadable: map<string, OpModeClass>, i: nat, j: nat)
    requires i <= j <= |klazzes|
    ensures Scan(noCheckList, klazzes[..i], loadable).noCheckList <= Scan(noCheckList, klazzes[..j], loadable).noCheckList
    ensures Scan(noCheckList, klazzes[..i], loadable).classes <= Scan(noCheckList, klazzes[..j], loadable).classes
    ensures Scan(noCheckList, klazzes[..i], loadable).failed ==> Scan(noCheckList, klazzes[..j], loadable) == Scan(noCheckList, klazzes[..i], loadable)
    decreases j
  {
    if i < j {
      ScanMonotone(noCheckList, klazzes, loadable, i, j - 1);
      ScanUnfold(noCheckList, klazzes, loadable, j - 1);
      ScanStepGrows(Scan(noCheckList, klazzes[..j - 1], loadable), klazzes[j - 1], loadable);
    }
  }

  /** One step only appends to the list and to the loaded classes, and does nothing once failed. */
  lemma ScanStepGrows(s: ClassScan, klazz: string, loadable: map<string, OpModeClass>)
    ensures s.noCheckList <= ScanStep(s, klazz, loadable).noCheckList
    ensures s.classes <= ScanStep(s, klazz, loadable).classes
    ensures s.failed ==> ScanStep(s, klazz, loadable) == s
  {
  }

  /** A pass never shrinks the list it starts from. */
  lemma ScanGrowsDenyList(noCheckList: seq<string>, klazzes: seq<string>, loadable: map<string, OpModeClass>)
    ensures noCheckList <= Scan(noCheckList, klazzes, loadable).noCheckList
  {
    ScanMonotone(noCheckList, klazzes, loadable, 0, |klazzes|);
    assert klazzes[..0] == [] && klazzes[..|klazzes|] == klazzes;
  }

  lemma DeniedByPrefix(a: seq<string>, b: seq<string>, klazz: string)
    requires a <= b && Denied(a, klazz)
    ensures Denied(b, klazz)
  {
    var i :| 0 <= i < |a| && IsSubstring(a[i], klazz);
    assert b[i] == a[i];
  }

  /** After identifier `i` fails to load and appends its entry, no later identifier `j` that
      contains that entry is loaded, and the pass state does not change at `j`. */
  lemma FailureBlocksLater(noCheckList: seq<string>, klazzes: seq<string>, loadable: map<string, OpModeClass>, i: nat, j: nat)
    requires i < j < |klazzes|
    requires var s := Scan(noCheckList, klazzes[..i], loadable);
      !s.failed && !Denied(s.noCheckList, klazzes[i]) && klazzes[i] !in loadable
    requires DenyEntry(klazzes[i]).Some? && IsSubstring(DenyEntry(klazzes[i]).value, klazzes[j])
    ensures Scan(noCheckList, klazzes[..j + 1], loadable) == Scan(noCheckList, klazzes[..j], loadable)
  {
    var entry := DenyEntry(klazzes[i]).value;
    ScanUnfold(noCheckList, klazzes, loadable, i);
    var after := Scan(noCheckList, klazzes[..i + 1], loadable).noCheckList;
    assert after[|after| - 1] == entry;
    assert Denied(after, klazzes[j]);
    ScanMonotone(noCheckList, klazzes, loadable, i + 1, j);
    DeniedByPrefix(after, Scan(noCheckList, klazzes[..j], loadable).noCheckList, klazzes[j]);
    ScanUnfold(noCheckList, klazzes, loadable, j);
  }

  /** A failed identifier whose '$' is its second character appends the empty string, which every
      identifier contains: nothing after it in the pass is loaded. */
  lemma DollarAtOneBlocksRest(noCheckList: seq<string>, klazzes: seq<string>, loadable: map<string, OpModeClass>, i: nat, j: nat)
    requires i < j < |klazzes|
    requires var s := Scan(noCheckList, klazzes[..i], loadable);
      !s.failed && !Denied(s.noCheckList, klazzes[i]) && klazzes[i] !in loadable
    requires |klazzes[i]| >= 2 && klazzes[i][0] != '$' && klazzes[i][1] == '$'
    ensures DenyEntry(klazzes[i]) == Some("")
    ensures Scan(noCheckList, klazzes[..j + 1], loadable) == Scan(noCheckList, klazzes[..j], loadable)
  {
    assert IndexOf(klazzes[i], '$') == 1 by { assert klazzes[i][..1] == [klazzes[i][0]]; }
    assert OccursAt("", klazzes[j], 0);
    FailureBlocksLater(noCheckList, klazzes, loadable, i, j);
  }

  /** An identifier denied by the starting list is never loaded, wherever it stands. */
  lemma InitiallyDeniedNeverLoaded(noCheckList: seq<string>, klazzes: seq<string>, loadable: map<string, OpModeClass>, j: nat)
    requires j < |klazzes| && Denied(noCheckList, klazzes[j])
    ensures Scan(noCheckList, klazzes[..j + 1], loadable) == Scan(noCheckList, klazzes[..j], loadable)
  {
    ScanMonotone(noCheckList, klazzes, loadable, 0, j);
    assert klazzes[..0] == [];
    DeniedByPrefix(noCheckList, Scan(noCheckList, klazzes[..j], loadable).noCheckList, klazzes[j]);
    ScanUnfold(noCheckList, klazzes, loadable, j);
  }

  /** Every loaded class was loaded from a listed identifier that the starting list does not deny. */
  lemma {:induction false} ScanLoadsOnlyListed(noCheckList: seq<string>, klazzes: seq<string>, loadable: map<string, OpModeClass>)
    ensures forall c :: c in Scan(noCheckList, klazzes, loadable).classes ==>
      exists j :: 0 <= j < |klazzes| && klazzes[j] in loadable && loadable[klazzes[j]] == c && !Denied(noCheckList, klazzes[j])
    decreases |klazzes|
  {
    if klazzes != [] {
      var n := |klazzes| - 1;
      var prev := klazzes[..n];
      ScanLoadsOnlyListed(noCheckList, prev, loadable);
      var s := Scan(noCheckList, prev, loadable);
      ScanGrowsDenyList(noCheckList, prev, loadable);
      forall c | c in Scan(noCheckList, klazzes, loadable).classes
        ensures exists j :: 0 <= j < |klazzes| && klazzes[j] in loadable && loadable[klazzes[j]] == c && !Denied(noCheckList, klazzes[j])
      {
        if c in s.classes {
          var j :| 0 <= j < |prev| && prev[j] in loadable && loadable[prev[j]] == c && !Denied(noCheckList, prev[j]);
          assert klazzes[j] == prev[j];
        } else {
          assert c == loadable[klazzes[n]];
          if Denied(noCheckList, klazzes[n]) {
            DeniedByPrefix(noCheckList, s.noCheckList, klazzes[n]);
          }
        }
      }
    }
  }

  /** The check is substring containment, not a prefix test: a class outside the com.google
      package whose name merely contains "com.google" is skipped too. */
  lemma SeedDeniesContainedName()
    ensures Denied(Seed, "org.team.com.google.Helper")
  {
    var klazz := "org.team.com.google.Helper";
    assert klazz[9..19] == "com.google";
    assert OccursAt(Seed[0], klazz, 9);
  }
}
