/** Bindings: the process-wide side table of named objects, plus the layout-id and OpModeManager
    slots. The Java class keeps these in static fields; here they are the fields of one object. */
module Bindings {
  import opened JavaLang
  import opened OpModes

  /** A Java object as the bootstrap sees it: a String, null, or any other object (by identity). */
  datatype JObject = JString(s: string) | JNull | JOther(id: nat)

  class Bindings {
    var relativeLayout: int
    var opModeManager: OpModeManager?
    var entries: map<string, JObject>

    /** The static fields' initial values: 0, null and an empty HashMap. */
    constructor ()
      ensures relativeLayout == 0 && opModeManager == null && entries == map[]
    {
      relativeLayout := 0;
      opModeManager := null;
      entries := map[];
    }

    /** setRelativeLayout: RelativeLayout() returns `id` from now on. */
    method SetRelativeLayout(id: int)
      modifies this
      ensures relativeLayout == id
      ensures opModeManager == old(opModeManager) && entries == old(entries)
    {
      relativeLayout := id;
    }

    /** RelativeLayout(): the layout id last stored by `SetRelativeLayout`, 0 before that. */
    function RelativeLayout(): (id: int)
      reads this
      ensures id == relativeLayout
    {
      relativeLayout
    }

    /** register: an empty key throws IllegalArgumentException and changes nothing; any other key
        is mapped to `value`, replacing an earlier value, and no other key changes. */
    method Register(key: string, value: JObject) returns (outcome: Outcome)
      modifies this
      ensures key == "" ==> outcome == Threw(IllegalArgumentException) && entries == old(entries)
      ensures key != "" ==> outcome == Completed && entries == old(entries)[key := value]
      ensures relativeLayout == old(relativeLayout) && opModeManager == old(opModeManager)
    {
      if key == "" {
        return Threw(IllegalArgumentException);
      }
      entries := entries[key := value];
      return Completed;
    }

    /** get: the stored value of a present key; IllegalArgumentException for an absent one. */
    method Get(key: string) returns (value: Option<JObject>, outcome: Outcome)
      ensures key in entries ==> outcome == Completed && value == Some(entries[key])
      ensures key !in entries ==> outcome == Threw(IllegalArgumentException) && value == None
    {
      var present := IsPresent(key);
      if present {
        return Some(entries[key]), Completed;
      } else {
        return None, Threw(IllegalArgumentException);
      }
    }

    /** isPresent: whether `key` has been registered. */
    method IsPresent(key: string) returns (present: bool)
      ensures present <==> key in entries
    {
      present := key in entries;
    }

    /** setOpModeManager: OpModeManager() returns `mgr` from now on. */
    method SetOpModeManager(mgr: OpModeManager)
      modifies this
      ensures opModeManager == mgr
      ensures relativeLayout == old(relativeLayout) && entries == old(entries)
    {
      opModeManager := mgr;
    }

    /** OpModeManager(): the manager last stored by `SetOpModeManager`, null before that. */
    function OpModeManager(): (mgr: OpModeManager?)
      reads this
      ensures mgr == opModeManager
    {
      opModeManager
    }
  }

  /** A caller's view: a value registered under a non-empty key is what `get` returns, `isPresent`
      holds for it, and the two slots read back what was stored. */
  method RegisterThenGet(b: Bindings, key: string, value: JObject, id: int, mgr: OpModeManager)
    returns (got: Option<JObject>)
    requires key != ""
    modifies b
    ensures got == Some(value)
    ensures b.RelativeLayout() == id && b.OpModeManager() == mgr
  {
    var _ := b.Register(key, value);
    b.SetRelativeLayout(id);
    b.SetOpModeManager(mgr);
    var present := b.IsPresent(key);
    assert present;
    var outcome;
    got, outcome := b.Get(key);
  }
}
