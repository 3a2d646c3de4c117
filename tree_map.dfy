/** treeMapify's TreeMap<String, LinkedList>: entries kept in ascending String.compareTo order of
    their names, as TreeMap keeps its keys. */
module OpModeTreeMap {
  import opened JavaLang
  import opened JavaStrings
  import opened OpModes

  datatype Entry = Entry(name: string, opModes: seq<OpModeClass>)

  /** Each name is below the next one, so iteration order is ascending. */
  predicate Ascending(entries: seq<Entry>) {
    forall i :: 0 <= i < |entries| - 1 ==> CompareTo(entries[i].name, entries[i + 1].name) < 0
  }

  /** The key set of the map. */
  function Names(entries: seq<Entry>): set<string> {
    if entries == [] then {} else {entries[0].name} + Names(entries[1..])
  }

  /** TreeMap.get. */
  function Get(entries: seq<Entry>, name: string): Option<seq<OpModeClass>> {
    if entries == [] then None
    else if entries[0].name == name then Some(entries[0].opModes)
    else Get(entries[1..], name)
  }

  /** TreeMap.put: replaces the value of an existing key, or inserts the key at its place in the
      order. */
  function Put(entries: seq<Entry>, name: string, opModes: seq<OpModeClass>): (r: seq<Entry>)
    requires Ascending(entries)
    ensures Ascending(r)
    ensures Names(r) == Names(entries) + {name}
    ensures Get(r, name) == Some(opModes)
    ensures forall n :: n != name ==> Get(r, n) == Get(entries, n)
    ensures forall e :: e in r ==> e == Entry(name, opModes) || e in entries
    ensures r[0].name == name || (entries != [] && r[0].name == entries[0].name)
  {
    if entries == [] then [Entry(name, opModes)]
    else
      var e0 := entries[0];
      assert entries == [e0] + entries[1..];
      ConsFacts(e0, entries[1..]);
      AscendingCons(e0, entries[1..]);
      if e0.name == name then
        ConsFacts(Entry(name, opModes), entries[1..]);
        AscendingCons(Entry(name, opModes), entries[1..]);
        [Entry(name, opModes)] + entries[1..]
      else if CompareTo(name, e0.name) < 0 then
        ConsFacts(Entry(name, opModes), entries);
        AscendingCons(Entry(name, opModes), entries);
        [Entry(name, opModes)] + entries
      else
        CompareToAntisymmetric(name, e0.name);
        var rest := Put(entries[1..], name, opModes);
        ConsFacts(e0, rest);
        AscendingCons(e0, rest);
        [e0] + rest
  }

  /** How the key set and the lookups of a map unfold at its first entry. */
  lemma ConsFacts(e0: Entry, rest: seq<Entry>)
    ensures Names([e0] + rest) == {e0.name} + Names(rest)
    ensures forall n :: Get([e0] + rest, n) == if e0.name == n then Some(e0.opModes) else Get(rest, n)
    ensures forall e :: e in [e0] + rest <==> e == e0 || e in rest
  {
    assert ([e0] + rest)[1..] == rest;
  }

  /** An entry below the first one can be put in front; dropping the first entry keeps the order. */
  lemma AscendingCons(e0: Entry, rest: seq<Entry>)
    ensures Ascending([e0] + rest) <==>
      Ascending(rest) && (rest != [] ==> CompareTo(e0.name, rest[0].name) < 0)
  {
    var r := [e0] + rest;
    if Ascending(r) {
      forall i | 0 <= i < |rest| - 1 ensures CompareTo(rest[i].name, rest[i + 1].name) < 0 {
        assert r[i + 1] == rest[i] && r[i + 2] == rest[i + 1];
        assert 0 <= i + 1 < |r| - 1;
      }
      if rest != [] { assert r[0] == e0 && r[1] == rest[0] && 0 < |r| - 1; }
    }
    if Ascending(rest) && (rest != [] ==> CompareTo(e0.name, rest[0].name) < 0) {
      forall i | 0 <= i < |r| - 1 ensures CompareTo(r[i].name, r[i + 1].name) < 0 {
        if i == 0 {
          assert r[0] == e0 && r[1] == rest[0];
        } else {
          assert r[i] == rest[i - 1] && r[i + 1] == rest[i];
        }
      }
    }
  }

  /** Ascending in the adjacent sense is ascending between any two positions. */
  lemma {:induction false} AscendingStrict(entries: seq<Entry>, i: nat, j: nat)
    requires Ascending(entries) && i < j < |entries|
    ensures CompareTo(entries[i].name, entries[j].name) < 0
    decreases j - i
  {
    if i + 1 < j {
      AscendingStrict(entries, i + 1, j);
      CompareToTransitive(entries[i].name, entries[i + 1].name, entries[j].name);
    }
  }

  /** The values in iteration order, concatenated. */
  function Flatten(entries: seq<Entry>): seq<OpModeClass> {
    if entries == [] then []
    else Flatten(entries[..|entries| - 1]) + entries[|entries| - 1].opModes
  }

  /** The flattened sequence holds exactly the members of the entries. */
  lemma {:induction false} FlattenMembers(entries: seq<Entry>)
    ensures forall c :: c in Flatten(entries) <==> exists e :: e in entries && c in e.opModes
  {
    if entries != [] {
      var prev := entries[..|entries| - 1];
      var last := entries[|entries| - 1];
      FlattenMembers(prev);
      assert entries == prev + [last];
      forall e | e in prev ensures e in entries { }
      forall c, e | e in entries && c in e.opModes ensures c in Flatten(entries) {
        if e != last {
          assert e in prev;
        }
      }
    }
  }

  /** A key that is found was put with an entry that holds the value found. */
  lemma {:induction false} GetFound(entries: seq<Entry>, name: string)
    requires Get(entries, name).Some?
    ensures exists e :: e in entries && e.name == name && e.opModes == Get(entries, name).value
  {
    if entries[0].name != name {
      GetFound(entries[1..], name);
      var e :| e in entries[1..] && e.name == name && e.opModes == Get(entries, name).value;
      assert e in entries;
    }
  }

  lemma FlattenSnoc(entries: seq<Entry>, i: nat)
    requires i < |entries|
    ensures Flatten(entries[..i + 1]) == Flatten(entries[..i]) + entries[i].opModes
  {
    assert entries[..i + 1][..i] == entries[..i];
  }
}
