/** The name-length check at the end of loadOpModes: the names of all op modes, each followed by
    the one-byte ASCII record separator, must fit in 255 encoded bytes, or else a single
    placeholder is registered instead of all of them. */
module NameBudget {
  import opened OpModes

  /** The most bytes the joined name table may take. */
  const MaxNameTableBytes: nat := 255

  /** The name the placeholder is registered under. */
  const TooManyOpModeNames: string := "Too Many OpMode Names"

  /** Bytes of the joined table: each name's encoded length plus one separator byte.
      `encodedLen` stands for the platform's default charset. */
  function TableLength(names: seq<string>, encodedLen: string -> nat): nat {
    if names == [] then 0
    else TableLength(names[..|names| - 1], encodedLen) + encodedLen(names[|names| - 1]) + 1
  }

  /** The resolved names of a list of op modes, in order. */
  function NamesOf(opModes: seq<OpModeClass>): seq<string> {
    if opModes == [] then []
    else NamesOf(opModes[..|opModes| - 1]) + [OpModeName(opModes[|opModes| - 1])]
  }

  /** One `register(getOpModeName(c), c)` call per op mode, in order. */
  function RegisterAll(opModes: seq<OpModeClass>): seq<Registration> {
    if opModes == [] then []
    else
      var c := opModes[|opModes| - 1];
      RegisterAll(opModes[..|opModes| - 1]) + [Registration(OpModeName(c), Registered(c))]
  }

  /** The calls loadOpModes makes: all of them when the table fits, else only the placeholder. */
  function Registrations(opModes: seq<OpModeClass>, encodedLen: string -> nat): seq<Registration> {
    if TableLength(NamesOf(opModes), encodedLen) > MaxNameTableBytes then
      [Registration(TooManyOpModeNames, TooManyOpModes)]
    else RegisterAll(opModes)
  }

  /** The names as the registrar receives them. */
  function RegisteredNames(calls: seq<Registration>): seq<string> {
    if calls == [] then []
    else RegisteredNames(calls[..|calls| - 1]) + [calls[|calls| - 1].name]
  }

  lemma NamesOfSnoc(opModes: seq<OpModeClass>, i: nat)
    requires i < |opModes|
    ensures NamesOf(opModes[..i + 1]) == NamesOf(opModes[..i]) + [OpModeName(opModes[i])]
    ensures RegisterAll(opModes[..i + 1]) == RegisterAll(opModes[..i]) + [Registration(OpModeName(opModes[i]), Registered(opModes[i]))]
  {
    assert opModes[..i + 1][..i] == opModes[..i];
  }

  lemma TableLengthSnoc(names: seq<string>, name: string, encodedLen: string -> nat)
    ensures TableLength(names + [name], encodedLen) == TableLength(names, encodedLen) + encodedLen(name) + 1
  {
    assert (names + [name])[..|names|] == names;
  }

  /** RegisterAll makes exactly one call per op mode, in the given order. */
  lemma {:induction false} RegisterAllInOrder(opModes: seq<OpModeClass>)
    ensures |RegisterAll(opModes)| == |opModes|
    ensures forall i :: 0 <= i < |opModes| ==>
      RegisterAll(opModes)[i] == Registration(OpModeName(opModes[i]), Registered(opModes[i]))
  {
    if opModes != [] {
      RegisterAllInOrder(opModes[..|opModes| - 1]);
    }
  }

  lemma {:induction false} RegisteredNamesOfRegisterAll(opModes: seq<OpModeClass>)
    ensures RegisteredNames(RegisterAll(opModes)) == NamesOf(opModes)
  {
    if opModes != [] {
      var prev := opModes[..|opModes| - 1];
      RegisteredNamesOfRegisterAll(prev);
      var calls := RegisterAll(opModes);
      assert calls[..|calls| - 1] == RegisterAll(prev);
    }
  }

  /** Whatever reaches the registrar is either the placeholder alone or a name table that fits in
      255 bytes; a table of exactly 255 bytes is accepted. */
  lemma RegisteredTableFits(opModes: seq<OpModeClass>, encodedLen: string -> nat)
    ensures var calls := Registrations(opModes, encodedLen);
      calls == [Registration(TooManyOpModeNames, TooManyOpModes)] ||
      (calls == RegisterAll(opModes) && TableLength(RegisteredNames(calls), encodedLen) <= MaxNameTableBytes)
    ensures TableLength(NamesOf(opModes), encodedLen) == MaxNameTableBytes ==>
      Registrations(opModes, encodedLen) == RegisterAll(opModes)
  {
    RegisteredNamesOfRegisterAll(opModes);
  }

  /** Names that all encode to `width` bytes take `width + 1` bytes each. */
  lemma {:induction false} UniformTableLength(names: seq<string>, encodedLen: string -> nat, width: nat)
    requires forall i :: 0 <= i < |names| ==> encodedLen(names[i]) == width
    ensures TableLength(names, encodedLen) == |names| * (width + 1)
  {
    if names != [] {
      UniformTableLength(names[..|names| - 1], encodedLen, width);
    }
  }

  lemma {:induction false} NamesOfInOrder(opModes: seq<OpModeClass>)
    ensures |NamesOf(opModes)| == |opModes|
    ensures forall i :: 0 <= i < |opModes| ==> NamesOf(opModes)[i] == OpModeName(opModes[i])
  {
    if opModes != [] {
      NamesOfInOrder(opModes[..|opModes| - 1]);
    }
  }

  /** Sixty op modes with five-byte names need 60 * 6 = 360 bytes, so only the placeholder is
      registered. */
  lemma SixtyFiveByteNames(opModes: seq<OpModeClass>, encodedLen: string -> nat)
    requires |opModes| == 60
    requires forall c :: c in opModes ==> encodedLen(OpModeName(c)) == 5
    ensures Registrations(opModes, encodedLen) == [Registration(TooManyOpModeNames, TooManyOpModes)]
  {
    NamesOfInOrder(opModes);
    UniformTableLength(NamesOf(opModes), encodedLen, 5);
  }
}
