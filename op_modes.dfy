/** What discovery sees of a loaded class, how it names an op mode, how it orders op modes inside
    a pairing bucket, and the registrar it hands the result to. */
module OpModes {
  import opened JavaLang
  import opened JavaStrings

  /** `@TeleOpMode(name, pairWithAuto)`. */
  datatype TeleOpMode = TeleOpMode(name: string, pairWithAuto: string)

  /** `@AutonomousMode(name, pairWithTeleOp)`. */
  datatype AutonomousMode = AutonomousMode(name: string, pairWithTeleOp: string)

  /** A loaded class, reduced to its names and the annotations discovery inspects. */
  datatype OpModeClass = OpModeClass(
    qualifiedName: string,
    simpleName: string,
    teleOp: Option<TeleOpMode>,
    autonomous: Option<AutonomousMode>,
    disabled: bool)
  {
    /** Carries at least one of the two op-mode annotations. */
    predicate IsOpMode() { teleOp.Some? || autonomous.Some? }

    /** Carries `@AutonomousMode` but not `@TeleOpMode`. */
    predicate IsAutonomousOnly() { teleOp.None? && autonomous.Some? }
  }

  /** getOpModeName: the TeleOp annotation's name, else the Autonomous annotation's name, falling
      back to the simple class name when the chosen name is empty or the class is untagged. */
  function OpModeName(opMode: OpModeClass): (name: string)
    ensures opMode.teleOp.Some? ==>
      name == (if opMode.teleOp.value.name != "" then opMode.teleOp.value.name else opMode.simpleName)
    ensures opMode.IsAutonomousOnly() ==>
      name == (if opMode.autonomous.value.name != "" then opMode.autonomous.value.name else opMode.simpleName)
    ensures !opMode.IsOpMode() ==> name == opMode.simpleName
    ensures name == "" ==> opMode.simpleName == ""
  {
    var name :=
      if opMode.teleOp.Some? then opMode.teleOp.value.name
      else if opMode.autonomous.Some? then opMode.autonomous.value.name
      else opMode.simpleName;
    if name == "" then opMode.simpleName else name
  }

  /** OpModeComparator.compare, as written. In the TeleOp/TeleOp branch the right-hand name is read
      from the LEFT operand's annotation, so the right operand's declared name never matters. */
  function Compare(lhs: OpModeClass, rhs: OpModeClass): (r: int)
    // two TeleOp operands: 0 whenever lhs declares a name ...
    ensures lhs.teleOp.Some? && rhs.teleOp.Some? && lhs.teleOp.value.name != "" ==> r == 0
    // ... and otherwise the lexicographic order of the two simple names
    ensures lhs.teleOp.Some? && rhs.teleOp.Some? && lhs.teleOp.value.name == "" ==>
      (r < 0 <==> LexLess(lhs.simpleName, rhs.simpleName)) && (r == 0 <==> lhs.simpleName == rhs.simpleName)
    // fixed category precedence: TeleOp before Autonomous-only
    ensures lhs.IsAutonomousOnly() && rhs.teleOp.Some? ==> r == 1
    ensures lhs.teleOp.Some? && rhs.IsAutonomousOnly() ==> r == -1
    // two Autonomous-only operands: lexicographic order of their resolved names
    ensures lhs.IsAutonomousOnly() && rhs.IsAutonomousOnly() ==>
      (r < 0 <==> LexLess(OpModeName(lhs), OpModeName(rhs))) && (r == 0 <==> OpModeName(lhs) == OpModeName(rhs))
    // the fallback: an untagged operand on either side
    ensures !lhs.IsOpMode() || !rhs.IsOpMode() ==> r == -1
  {
    if lhs.teleOp.Some? && rhs.teleOp.Some? then
      var lName := if lhs.teleOp.value.name == "" then lhs.simpleName else lhs.teleOp.value.name;
      var rName0 := lhs.teleOp.value.name;
      var rName := if rName0 == "" then rhs.simpleName else rName0;
      CompareToSign(lName, rName);
      CompareTo(lName, rName)
    else if lhs.autonomous.Some? && rhs.teleOp.Some? then 1
    else if rhs.autonomous.Some? && lhs.teleOp.Some? then -1
    else if lhs.autonomous.Some? && rhs.autonomous.Some? then
      var lName := if lhs.autonomous.value.name == "" then lhs.simpleName else lhs.autonomous.value.name;
      var rName := if rhs.autonomous.value.name == "" then rhs.simpleName else rhs.autonomous.value.name;
      CompareToSign(lName, rName);
      CompareTo(lName, rName)
    else -1
  }

  /** What is handed to the registrar: a discovered class, or the built-in placeholder. */
  datatype OpModeRef = Registered(opMode: OpModeClass) | TooManyOpModes

  /** One `register(name, class)` call. */
  datatype Registration = Registration(name: string, opMode: OpModeRef)

  /** The external OpModeManager, reduced to the trace of `register` calls it receives. */
  class OpModeManager {
    var calls: seq<Registration>

    constructor ()
      ensures calls == []
    {
      calls := [];
    }

    method Register(name: string, opMode: OpModeRef)
      modifies this
      ensures calls == old(calls) + [Registration(name, opMode)]
    {
      calls := calls + [Registration(name, opMode)];
    }
  }
}
