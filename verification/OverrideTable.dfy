/** The override table of src/override_dispatch.cpp and the redirects Xenia keeps for it. */
module OverrideTable {
  import opened Bytes
  import opened ModuleContract
  import opened RuntimeFailures

  /** A title's handler and the context it is called with. */
  datatype Override = Override(handler: nat, context: nat)

  class OverrideDispatch {
    var bound: bool
    var entries: map<u32, Override>
    // Guest addresses whose calls Xenia sends to DispatchGuest, with what they reach.
    var redirects: map<u32, Override>

    constructor ()
      ensures InStep() && !bound && entries == map[]
    {
      bound, entries, redirects := false, map[], map[];
    }

    /** Exactly the installed overrides are redirected, each to its own entry. */
    predicate InStep()
      reads this
    {
      entries == redirects
    }

    method Bind()
      modifies this`bound
      ensures bound
    {
      bound := true;
    }

    /** `accepted` is whether Xenia installs the redirect. */
    method Install(address: u32, handler: Option<Override>, code: CodeRange, accepted: bool) returns (failure: RuntimeFailure)
      requires InStep()
      modifies this`entries, this`redirects
      ensures InStep()
      ensures failure ==
              if !bound then Fail(LoadStateInvalid)
              else if handler.None? then Fail(OverrideInvalid)
              else if !(code.base <= address && address as int < code.base as int + code.size) then Fail(EntryOutsideCode)
              else if address in old(entries) then Fail(OverrideAlreadyInstalled)
              else if !accepted then Fail(OverrideDispatchFailed)
              else NO_FAILURE
      ensures entries == if failure.Failed() then old(entries) else old(entries)[address := handler.value]
    {
      if !bound {
        return Fail(LoadStateInvalid);
      }
      if handler.None? {
        return Fail(OverrideInvalid);
      }
      if !code.Holds(address) {
        return Fail(EntryOutsideCode);
      }
      var inserted := address !in entries;
      if inserted {
        entries := entries[address := handler.value];
      }
      if !inserted {
        return Fail(OverrideAlreadyInstalled);
      }
      if accepted {
        redirects := redirects[address := entries[address]];
      } else {
        entries := entries - {address};
        return Fail(OverrideDispatchFailed);
      }
      failure := NO_FAILURE;
    }

    /** `accepted` is whether Xenia removes the redirect. */
    method Remove(address: u32, accepted: bool) returns (failure: RuntimeFailure)
      requires InStep()
      modifies this`entries, this`redirects
      ensures InStep()
      ensures failure ==
              if address !in old(entries) then Fail(OverrideNotInstalled)
              else if !accepted then Fail(OverrideDispatchFailed)
              else NO_FAILURE
      ensures entries == if failure.Failed() then old(entries) else old(entries) - {address}
    {
      if address !in entries {
        return Fail(OverrideNotInstalled);
      }
      if !accepted {
        return Fail(OverrideDispatchFailed);
      }
      redirects := redirects - {address};
      entries := entries - {address};
      failure := NO_FAILURE;
    }

    function Find(address: u32): Option<Override>
      reads this
    {
      if address in entries then Some(entries[address]) else None
    }
  }
}
