/** Bounded guest calls as the source runs them: one set of shared pointers, saved
    and restored by nested scopes (src/guest_execution_budget.hpp, guest_call_frame.hpp,
    guest_execution.cpp, override_dispatch.cpp, runtime.cpp). */
module GuestCalls {
  import opened Bytes
  import opened RuntimeFailures
  import opened CallSemantics

  class Budget {
    var exitReason: ExitReason
    var fault: Fault

    constructor ()
      ensures exitReason == NoExit && fault == Fault(0, false)
    {
      exitReason, fault := NoExit, Fault(0, false);
    }
  }

  class RefusalCell {
    var refusal: Refusal

    constructor ()
      ensures refusal == OPEN_LATCH.refusal
    {
      refusal := OPEN_LATCH.refusal;
    }
  }

  class FailureCell {
    var failure: RuntimeFailure

    constructor ()
      ensures failure == NO_FAILURE
    {
      failure := NO_FAILURE;
    }
  }

  /** One guest thread: its registers, the context's budget pointer and the three
      thread-local pointers. */
  class GuestThread {
    var r: Registers
    var lr: u64
    var contextBudget: Budget?
    var activeBudget: Budget?
    var activeRefusal: RefusalCell?
    var activeFailure: FailureCell?
    // std::terminate was called.
    var terminated: bool
    var statistics: Statistics

    function Now(): Context
      reads this
    {
      Context(r, lr)
    }

    method SetContext(c: Context)
      modifies this`r, this`lr
      ensures Now() == c
    {
      r, lr := c.r, c.lr;
    }

    /** A bounded call is active. */
    predicate Active()
      reads this
    {
      activeBudget != null && activeRefusal != null && activeFailure != null
    }

    /** The cells of the innermost active call. */
    function Cells(): set<object>
      reads this
    {
      (if activeBudget == null then {} else {activeBudget as object})
      + (if activeRefusal == null then {} else {activeRefusal as object})
      + (if activeFailure == null then {} else {activeFailure as object})
    }

    function LatchNow(): Latch
      requires Active()
      reads this, activeBudget, activeRefusal, activeFailure
    {
      Latch(activeBudget.exitReason, activeRefusal.refusal, activeFailure.failure, activeBudget.fault)
    }

    /** The pointers are set and cleared together. */
    predicate Scoped()
      reads this
    {
      (activeBudget == null <==> activeRefusal == null) && (activeBudget == null <==> activeFailure == null)
    }

    /** The call that marks reach now. */
    function EnclosingNow(): Enclosing
      requires Scoped()
      reads this, activeBudget, activeRefusal, activeFailure
    {
      if Active() then InCall(LatchNow()) else NoCall(terminated)
    }

    function WorldNow(): World
      requires Scoped()
      reads this, activeBudget, activeRefusal, activeFailure
    {
      World(Now(), EnclosingNow(), statistics)
    }

    twostate predicate PointersKept()
      reads this
    {
      && contextBudget == old(contextBudget) && activeBudget == old(activeBudget)
      && activeRefusal == old(activeRefusal) && activeFailure == old(activeFailure)
    }

    method MarkOverrideFailed(failure: RuntimeFailure)
      modifies this`terminated, Cells()
      ensures terminated == (old(terminated) || activeBudget == null || activeFailure == null)
      ensures Scoped() ==> EnclosingNow() == Marked(old(EnclosingNow()), OverrideMark(failure))
    {
      if activeBudget == null || activeFailure == null {
        terminated := true;
        return;
      }
      if activeBudget.exitReason == NoExit {
        activeFailure.failure := failure;
        activeBudget.exitReason := NativeOverrideFailed;
      }
    }

    method MarkImportRefused(refusal: Refusal)
      modifies this`terminated, Cells()
      ensures terminated == (old(terminated) || activeBudget == null || activeRefusal == null)
      ensures Scoped() ==> EnclosingNow() == Marked(old(EnclosingNow()), RefusalMark(refusal))
    {
      if activeBudget == null || activeRefusal == null {
        terminated := true;
        return;
      }
      if activeBudget.exitReason == NoExit {
        activeRefusal.refusal := refusal;
        activeBudget.exitReason := HostServiceRefused;
      }
    }

    /** A mark that needs a budget alone; without one it is dropped. */
    method MarkBudget(reason: ExitReason, fault: Fault)
      modifies activeBudget
      ensures activeBudget != null ==>
                activeBudget.exitReason == (if old(activeBudget.exitReason) == NoExit then reason else old(activeBudget.exitReason))
                && activeBudget.fault == (if old(activeBudget.exitReason) == NoExit then fault else old(activeBudget.fault))
    {
      if activeBudget != null && activeBudget.exitReason == NoExit {
        activeBudget.fault := fault;
        activeBudget.exitReason := reason;
      }
    }

    /** MarkGuestExecutableWriteObserved. */
    method MarkExecutableWriteObserved()
      modifies activeBudget
      ensures activeBudget != null ==>
                activeBudget.exitReason ==
                  (if old(activeBudget.exitReason) == NoExit then ExecutableWriteObserved else old(activeBudget.exitReason))
                && activeBudget.fault == old(activeBudget.fault)
      ensures Scoped() ==> EnclosingNow() == Marked(old(EnclosingNow()), StoreMark)
    {
      MarkBudget(ExecutableWriteObserved, if activeBudget == null then Fault(0, false) else activeBudget.fault);
    }

    /** The fault guard's claim on the active call. */
    method MarkFault(fault: Fault)
      modifies activeBudget
      ensures Scoped() ==> EnclosingNow() == Marked(old(EnclosingNow()), FaultMark(fault))
    {
      MarkBudget(AccessViolation, fault);
    }

    /** The block counter of translated code. */
    method MarkBlocks()
      modifies activeBudget
      ensures Scoped() ==> EnclosingNow() == Marked(old(EnclosingNow()), BlocksMark)
    {
      MarkBudget(BlockBudgetExceeded, if activeBudget == null then Fault(0, false) else activeBudget.fault);
    }
  }

  /** GuestExecutionBudgetScope. */
  class BudgetScope {
    const thread: GuestThread
    const previous: Budget?
    const previousActive: Budget?
    const previousRefusal: RefusalCell?
    const previousFailure: FailureCell?

    constructor (thread: GuestThread, budget: Budget, refusal: RefusalCell, failure: FailureCell)
      modifies thread`contextBudget, thread`activeBudget, thread`activeRefusal, thread`activeFailure
      ensures this.thread == thread
      ensures previous == old(thread.contextBudget) && previousActive == old(thread.activeBudget)
      ensures previousRefusal == old(thread.activeRefusal) && previousFailure == old(thread.activeFailure)
      ensures thread.contextBudget == budget && thread.activeBudget == budget
      ensures thread.activeRefusal == refusal && thread.activeFailure == failure
    {
      this.thread := thread;
      previous := thread.contextBudget;
      previousRefusal := thread.activeRefusal;
      previousFailure := thread.activeFailure;
      previousActive := thread.activeBudget;
      new;
      thread.contextBudget := budget;
      thread.activeBudget := budget;
      thread.activeRefusal := refusal;
      thread.activeFailure := failure;
    }

    /** The destructor. */
    method Close()
      modifies thread`contextBudget, thread`activeBudget, thread`activeRefusal, thread`activeFailure
      ensures thread.contextBudget == previous && thread.activeBudget == previousActive
      ensures thread.activeRefusal == previousRefusal && thread.activeFailure == previousFailure
    {
      thread.activeRefusal := previousRefusal;
      thread.activeFailure := previousFailure;
      thread.activeBudget := previousActive;
      thread.contextBudget := previous;
    }
  }

  /** GuestCallFrame. */
  class CallFrame {
    const thread: GuestThread
    const previousStackPointer: u64
    const previousLinkRegister: u64

    constructor (thread: GuestThread, returnAddress: u64)
      modifies thread`r, thread`lr
      ensures this.thread == thread
      ensures previousStackPointer == old(thread.r)[1] && previousLinkRegister == old(thread.lr)
      ensures thread.r == old(thread.r)[1 := (old(thread.r)[1] - FRAME_BYTES) % 0x1_0000_0000_0000_0000]
      ensures thread.lr == returnAddress
    {
      this.thread := thread;
      previousStackPointer, previousLinkRegister := thread.r[1], thread.lr;
      new;
      thread.r := thread.r[1 := (thread.r[1] - FRAME_BYTES) % 0x1_0000_0000_0000_0000];
      thread.lr := returnAddress;
    }

    /** The destructor. */
    method Close()
      modifies thread`r, thread`lr
      ensures thread.r == old(thread.r)[1 := previousStackPointer] && thread.lr == previousLinkRegister
    {
      thread.lr := previousLinkRegister;
      thread.r := thread.r[1 := previousStackPointer];
    }
  }

  method PrepareGuestArguments(thread: GuestThread, arguments: seq<u64>) returns (failure: RuntimeFailure)
    modifies thread`r
    ensures failure.Failed() <==> |arguments| > REGISTER_ARGUMENT_COUNT
    ensures failure.Failed() ==> failure == Fail(ExecutionFailed) && thread.Now() == old(thread.Now())
    ensures !failure.Failed() ==> thread.Now() == WithArguments(old(thread.Now()), arguments)
  {
    if |arguments| > REGISTER_ARGUMENT_COUNT {
      return Fail(ExecutionFailed);
    }
    for index := 0 to |arguments|
      invariant thread.r == old(thread.r)[..3] + arguments[..index] + old(thread.r)[3 + index..]
    {
      thread.r := thread.r[3 + index := arguments[index]];
    }
    failure := NO_FAILURE;
  }

  /** The call gives back every pointer it found and does not touch the call around it; its
      registers, counters and result are those of a call with a latch of its own. */
  method ExecuteGuestFunction(thread: GuestThread, call: OriginalCall) returns (result: ExecutionResult)
    requires call.entry.Translated? && thread.Scoped()
    modifies thread
    ensures thread.PointersKept() && thread.terminated == old(thread.terminated)
    ensures (thread.WorldNow(), result) == RunFunction(call, old(thread.WorldNow()))
    decreases call, 1
  {
    var failure := PrepareGuestArguments(thread, call.arguments);
    if failure.Failed() {
      return ExecutionResult(failure, 0);
    }
    if call.maxGuestBlocks == 0 {
      return ExecutionResult(Fail(ExecutionBudgetInvalid), 0);
    }
    result := EnterGuestFunction(thread, call);
  }

  /** The scopes of ExecuteGuestFunction around the translated code. */
  method EnterGuestFunction(thread: GuestThread, call: OriginalCall) returns (result: ExecutionResult)
    requires thread.Scoped()
    modifies thread
    ensures thread.PointersKept() && thread.terminated == old(thread.terminated)
    ensures (thread.WorldNow(), result) == RunEntered(call, old(thread.WorldNow()))
    decreases call, 0
  {
    hide Framed, Unframed, ResultOf, RunEvents;
    var budget := new Budget();
    var refusal := new RefusalCell();
    var failed := new FailureCell();
    var scope := new BudgetScope(thread, budget, refusal, failed);
    result := RunFramed(thread, call);
    scope.Close();
  }

  /** The frame around the translated code, and the result its latch gives. */
  method RunFramed(thread: GuestThread, call: OriginalCall) returns (result: ExecutionResult)
    requires thread.Active()
    modifies thread, thread.Cells()
    ensures thread.PointersKept() && thread.terminated == old(thread.terminated)
    ensures var ran := RunEvents(call.events, World(Framed(old(thread.Now())), InCall(old(thread.LatchNow())), old(thread.statistics)));
            && thread.WorldNow() == World(Unframed(ran.context, old(thread.Now())), ran.enclosing, ran.statistics)
            && result == ResultOf(ran.enclosing.Latched(), call.executed, ran.context.r[3])
    decreases call.events, 1
  {
    hide Framed, Unframed, ResultOf, RunEvents;
    var frame := OpenFrame(thread);
    RunGuest(thread, call.events);
    result := ReadResult(thread, call.executed);
    CloseFrame(frame, old(thread.Now()));
  }

  /** What the call returns, from its exit reason. */
  method ReadResult(thread: GuestThread, executed: bool) returns (result: ExecutionResult)
    requires thread.Active()
    ensures result == ResultOf(thread.LatchNow(), executed, thread.r[3])
  {
    if thread.activeBudget.exitReason != NoExit {
      if thread.activeBudget.exitReason == ExecutableWriteObserved {
        return ExecutionResult(Fail(ExecutionInvalidated), 0);
      }
      if thread.activeBudget.exitReason == HostServiceRefused {
        return ExecutionResult(RuntimeFailure(ImportServiceRefused, RefusalDetail(thread.activeRefusal.refusal)), 0);
      }
      if thread.activeBudget.exitReason == NativeOverrideFailed {
        return ExecutionResult(thread.activeFailure.failure, 0);
      }
      if thread.activeBudget.exitReason == AccessViolation {
        return ExecutionResult(RuntimeFailure(GuestAccessViolation, FaultDetail(thread.activeBudget.fault)), 0);
      }
      return ExecutionResult(Fail(ExecutionBudgetExceeded), 0);
    }
    if !executed {
      return ExecutionResult(Fail(ExecutionFailed), 0);
    }
    result := ExecutionResult(NO_FAILURE, thread.r[3]);
  }

  method OpenFrame(thread: GuestThread) returns (frame: CallFrame)
    modifies thread`r, thread`lr
    ensures fresh(frame) && frame.thread == thread && thread.Now() == Framed(old(thread.Now()))
    ensures frame.previousStackPointer == old(thread.r)[1] && frame.previousLinkRegister == old(thread.lr)
  {
    frame := new CallFrame(thread, RETURN_ADDRESS);
  }

  method CloseFrame(frame: CallFrame, ghost before: Context)
    requires frame.previousStackPointer == before.r[1] && frame.previousLinkRegister == before.lr
    modifies frame.thread`r, frame.thread`lr
    ensures frame.thread.Now() == Unframed(old(frame.thread.Now()), before)
  {
    frame.Close();
  }

  /** ExecuteInterpreterFallback: it opens no scope, so what the interpreted code does marks the
      call around it. */
  method ExecuteInterpreterFallback(thread: GuestThread, call: OriginalCall) returns (result: ExecutionResult)
    requires call.entry.Interpreted? && thread.Scoped()
    modifies thread, thread.Cells()
    ensures thread.PointersKept() && (thread.Active() ==> thread.terminated == old(thread.terminated))
    ensures (thread.WorldNow(), result) == RunFallback(call, old(thread.WorldNow()))
    decreases call, 0
  {
    var failure := PrepareGuestArguments(thread, call.arguments);
    if failure.Failed() {
      return ExecutionResult(failure, 0);
    }
    if call.entry.exit.Unresolved? {
      return ExecutionResult(Fail(TranslationFailed), 0);
    }
    thread.statistics := thread.statistics.(fallbackEntries := thread.statistics.fallbackEntries + 1);
    RunGuest(thread, call.entry.steps);
    thread.statistics := FallbackCounted(thread.statistics, call.entry.exit, call.entry.instructions);
    result := FallbackResult(call.entry.exit, thread.r[3]);
  }

  /** Guest code, translated or interpreted: every event marks the call that is active. */
  method RunGuest(thread: GuestThread, events: seq<GuestEvent>)
    requires thread.Scoped()
    modifies thread, thread.Cells()
    ensures thread.PointersKept() && (thread.Active() ==> thread.terminated == old(thread.terminated))
    ensures thread.WorldNow() == RunEvents(events, old(thread.WorldNow()))
    decreases events, 0
  {
    if |events| != 0 {
      RunGuestEvent(thread, events[0]);
      RunGuest(thread, events[1..]);
    }
  }

  method RunGuestEvent(thread: GuestThread, event: GuestEvent)
    requires thread.Scoped()
    modifies thread, thread.Cells()
    ensures thread.PointersKept() && (thread.Active() ==> thread.terminated == old(thread.terminated))
    ensures thread.WorldNow() == RunEvent(event, old(thread.WorldNow()))
    decreases event, 0
  {
    match event
    case Compute(context) => thread.SetContext(context);
    case CodeStore => thread.MarkExecutableWriteObserved();
    case ImportReturns(value) => thread.r := thread.r[3 := value];
    case ImportRefuses(refusal) => thread.MarkImportRefused(refusal);
    case Faults(fault) => thread.MarkFault(fault);
    case BudgetRunsOut => thread.MarkBlocks();
    case OverrideCall(script) => DispatchGuest(thread, script, false);
  }

  /** A redirected guest call. What its handler does, and then its failure, marks the call that
      was active when it was entered; without one a failure ends the process, through the sink
      if there is one. */
  method DispatchGuest(thread: GuestThread, script: Script, sink: bool)
    requires thread.Scoped()
    modifies thread, thread.Cells()
    ensures thread.PointersKept() && (thread.Active() ==> thread.terminated == old(thread.terminated))
    ensures thread.WorldNow() == RunEvent(OverrideCall(script), old(thread.WorldNow()))
    decreases script, 0
  {
    thread.statistics := thread.statistics.(nativeOverrideCalls := thread.statistics.nativeOverrideCalls + 1);
    RunNativeHandler(thread, script.actions);
    if script.result.Succeeded() {
      thread.r := thread.r[3 := script.result.value];
    } else if thread.activeBudget == null && sink {
      thread.terminated := true;
    } else {
      thread.MarkOverrideFailed(script.result.failure);
    }
  }

  /** A handler's guest-memory writes and original calls. */
  method RunNativeHandler(thread: GuestThread, actions: seq<HandlerAction>)
    requires thread.Scoped()
    modifies thread, thread.Cells()
    ensures thread.PointersKept() && (thread.Active() ==> thread.terminated == old(thread.terminated))
    ensures thread.WorldNow() == RunHandler(actions, old(thread.WorldNow()))
    decreases actions, 0
  {
    if |actions| != 0 {
      PerformAction(thread, actions[0]);
      RunNativeHandler(thread, actions[1..]);
    }
  }

  method PerformAction(thread: GuestThread, action: HandlerAction)
    requires thread.Scoped()
    modifies thread, thread.Cells()
    ensures thread.PointersKept() && (thread.Active() ==> thread.terminated == old(thread.terminated))
    ensures thread.WorldNow() == RunAction(action, old(thread.WorldNow()))
    decreases action, 0
  {
    match action
    case StoresCode => thread.MarkExecutableWriteObserved();
    case CallsOriginal(call) => var result := CallOriginal(thread, call);
  }

  method CallOriginal(thread: GuestThread, call: OriginalCall) returns (result: ExecutionResult)
    requires thread.Scoped()
    modifies thread, thread.Cells()
    ensures thread.PointersKept() && (thread.Active() ==> thread.terminated == old(thread.terminated))
    ensures (thread.WorldNow(), result) == RunOriginal(call, Counted(old(thread.WorldNow()), false))
    decreases call, 3
  {
    thread.statistics := thread.statistics.(originalCalls := thread.statistics.originalCalls + 1);
    result := ExecuteOriginal(thread, call);
  }

  method ExecuteOriginal(thread: GuestThread, call: OriginalCall) returns (result: ExecutionResult)
    requires thread.Scoped()
    modifies thread, thread.Cells()
    ensures thread.PointersKept() && (thread.Active() ==> thread.terminated == old(thread.terminated))
    ensures (thread.WorldNow(), result) == RunOriginal(call, old(thread.WorldNow()))
    decreases call, 2
  {
    match call.entry
    case DrainFails(failure) => result := ExecutionResult(failure, 0);
    case OutsideCode => result := ExecutionResult(Fail(EntryOutsideCode), 0);
    case Interpreted(_, _, _) =>
      thread.statistics := thread.statistics.(translationFailures := thread.statistics.translationFailures + 1);
      result := ExecuteInterpreterFallback(thread, call);
    case Translated(emitted) =>
      thread.statistics := TranslationCounted(thread.statistics, emitted);
      result := ExecuteGuestFunction(thread, call);
      thread.statistics := ResultCounted(thread.statistics, result);
  }

  /** Execute: an installed override stands in for the function and is called directly, with no
      bounded call around it; its failure is returned, and marks nothing. */
  method Execute(thread: GuestThread, override: Option<Script>, call: OriginalCall) returns (result: ExecutionResult)
    requires thread.Scoped()
    modifies thread, thread.Cells()
    ensures thread.PointersKept() && (thread.Active() ==> thread.terminated == old(thread.terminated))
    ensures (thread.WorldNow(), result) ==
            match override
            case Some(script) => (RunHandler(script.actions, Counted(old(thread.WorldNow()), true)), script.result)
            case None => RunOriginal(call, old(thread.WorldNow()))
  {
    match override
    case Some(script) =>
      thread.statistics := thread.statistics.(nativeOverrideCalls := thread.statistics.nativeOverrideCalls + 1);
      RunNativeHandler(thread, script.actions);
      result := script.result;
    case None => result := ExecuteOriginal(thread, call);
  }
}
