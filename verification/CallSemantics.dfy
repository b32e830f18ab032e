/** What a bounded guest call means, without the shared pointers that implement it.

    Translated code is unseen, so a call is whatever happens during it: a list of
    events, among them calls to native overrides that re-enter original guest code.
    Here each call has a latch of its own; GuestCalls shows that the source's
    thread-local pointers give every event the latch of its innermost call. */
module CallSemantics {
  import opened Bytes
  import opened RuntimeFailures

  const RETURN_ADDRESS: u64 := 0xBCBC_BCBC
  const REGISTER_ARGUMENT_COUNT: nat := 8
  const FRAME_BYTES: nat := 64 + 112

  type Registers = r: seq<u64> | |r| == 32 witness seq(32, _ => 0)

  datatype Context = Context(r: Registers, lr: u64)

  datatype RefusalReason = UnsupportedService | InvalidGuestMemory | InvalidArguments | HostUnavailable

  datatype Refusal = Refusal(library: text, ordinal: u32, reason: RefusalReason)

  datatype Fault = Fault(address: u32, write: bool)

  datatype ExitReason =
    | NoExit
    | ExecutableWriteObserved
    | HostServiceRefused
    | NativeOverrideFailed
    | AccessViolation
    | BlockBudgetExceeded

  datatype GuestEvent =
    | Compute(context: Context)
    | CodeStore
    | ImportReturns(value: u64)
    | ImportRefuses(refusal: Refusal)
    | Faults(fault: Fault)
    | BudgetRunsOut
    | OverrideCall(script: Script)

  /** A native override: what it does, in order, and what it returns. */
  datatype Script = Script(actions: seq<HandlerAction>, result: ExecutionResult)

  /** A handler writes mapped guest memory, which may be watched code, or calls original code. */
  datatype HandlerAction = StoresCode | CallsOriginal(call: OriginalCall)

  /** How the interpreter fallback ends. */
  datatype FallbackExit =
    | Unresolved
    | Completed
    | UnsupportedInstruction
    | MemoryFault
    | InstructionBudgetExceeded
    | InvalidEntry

  /** How far a call gets. A translation may be new, with so many host bytes. */
  datatype Entry =
    | DrainFails(failure: RuntimeFailure)
    | OutsideCode
    | Interpreted(steps: seq<GuestEvent>, exit: FallbackExit, instructions: nat)
    | Translated(emitted: Option<nat>)

  /** A call of ExecuteOriginal: how far it gets, and what happens once it enters. */
  datatype OriginalCall = OriginalCall(
    entry: Entry, arguments: seq<u64>, maxGuestBlocks: u64, events: seq<GuestEvent>, executed: bool)

  /** A call's budget, refusal and override-failure cells. */
  datatype Latch = Latch(reason: ExitReason, refusal: Refusal, failure: RuntimeFailure, fault: Fault)

  const OPEN_LATCH := Latch(NoExit, Refusal([], 0, UnsupportedService), NO_FAILURE, Fault(0, false))

  /** Registers 3 to 10 take the arguments. */
  function WithArguments(c: Context, arguments: seq<u64>): Context
    requires |arguments| <= REGISTER_ARGUMENT_COUNT
  {
    c.(r := c.r[..3] + arguments + c.r[3 + |arguments|..])
  }

  function Framed(c: Context): Context {
    Context(c.r[1 := (c.r[1] - FRAME_BYTES) % 0x1_0000_0000_0000_0000], RETURN_ADDRESS)
  }

  function Unframed(c: Context, before: Context): Context {
    Context(c.r[1 := before.r[1]], before.lr)
  }

  /** What the message names, without its wording. */
  function RefusalDetail(refusal: Refusal): text {
    var code := match refusal.reason
      case UnsupportedService => 0
      case InvalidGuestMemory => 1
      case InvalidArguments => 2
      case HostUnavailable => 3;
    refusal.library + Be32(refusal.ordinal) + [code]
  }

  function FaultDetail(fault: Fault): text {
    Be32(fault.address) + [if fault.write then 1 else 0]
  }

  /** The exit reason decides the failure, in the source's order. */
  function ResultOf(latch: Latch, executed: bool, value: u64): ExecutionResult {
    match latch.reason
    case ExecutableWriteObserved => ExecutionResult(Fail(ExecutionInvalidated), 0)
    case HostServiceRefused => ExecutionResult(RuntimeFailure(ImportServiceRefused, RefusalDetail(latch.refusal)), 0)
    case NativeOverrideFailed => ExecutionResult(latch.failure, 0)
    case AccessViolation => ExecutionResult(RuntimeFailure(GuestAccessViolation, FaultDetail(latch.fault)), 0)
    case BlockBudgetExceeded => ExecutionResult(Fail(ExecutionBudgetExceeded), 0)
    case NoExit => if executed then ExecutionResult(NO_FAILURE, value) else ExecutionResult(Fail(ExecutionFailed), 0)
  }

  // ---- Marks ----

  /** What a refused import, a failed override, a watched store, a fault or an exhausted
      budget asks of the call that is active. */
  datatype Mark =
    | StoreMark
    | RefusalMark(refusal: Refusal)
    | OverrideMark(failure: RuntimeFailure)
    | FaultMark(fault: Fault)
    | BlocksMark
  {
    /** Without an active call these end the process; the others are dropped. */
    predicate Terminates() {
      RefusalMark? || OverrideMark?
    }
  }

  /** The latch once a mark is taken. */
  function Put(latch: Latch, mark: Mark): Latch {
    match mark
    case StoreMark => latch.(reason := ExecutableWriteObserved)
    case RefusalMark(refusal) => latch.(reason := HostServiceRefused, refusal := refusal)
    case OverrideMark(failure) => latch.(reason := NativeOverrideFailed, failure := failure)
    case FaultMark(fault) => latch.(reason := AccessViolation, fault := fault)
    case BlocksMark => latch.(reason := BlockBudgetExceeded)
  }

  /** The call that marks reach: the innermost bounded call, if there is one. */
  datatype Enclosing = NoCall(terminated: bool) | InCall(latch: Latch) {
    function Latched(): Latch {
      if InCall? then latch else OPEN_LATCH
    }
  }

  /** The first mark wins. */
  function Marked(enclosing: Enclosing, mark: Mark): Enclosing {
    match enclosing
    case NoCall(terminated) => NoCall(terminated || mark.Terminates())
    case InCall(latch) => if latch.reason.NoExit? then InCall(Put(latch, mark)) else enclosing
  }

  /** The counters of JitStatistics that calls move. */
  datatype Statistics = Statistics(
    nativeOverrideCalls: nat, originalCalls: nat, translationFailures: nat, translatedFunctions: nat, emittedHostBytes: nat,
    executionCalls: nat, budgetExhaustions: nat, invalidations: nat, serviceRefusals: nat, accessViolations: nat,
    fallbackEntries: nat, fallbackInstructions: nat, fallbackUnsupported: nat, fallbackMemoryFailures: nat,
    fallbackBudgetExhaustions: nat)

  /** A thread: its registers, the call its marks reach, and the counters. */
  datatype World = World(context: Context, enclosing: Enclosing, statistics: Statistics)

  // ---- What calls mean ----

  function RunEvent(event: GuestEvent, w: World): World
    decreases event, 0
  {
    match event
    case Compute(context) => w.(context := context)
    case CodeStore => w.(enclosing := Marked(w.enclosing, StoreMark))
    case ImportReturns(value) => w.(context := w.context.(r := w.context.r[3 := value]))
    case ImportRefuses(refusal) => w.(enclosing := Marked(w.enclosing, RefusalMark(refusal)))
    case Faults(fault) => w.(enclosing := Marked(w.enclosing, FaultMark(fault)))
    case BudgetRunsOut => w.(enclosing := Marked(w.enclosing, BlocksMark))
    case OverrideCall(script) =>
      var after := RunHandler(script.actions, Counted(w, true));
      if script.result.Succeeded() then after.(context := after.context.(r := after.context.r[3 := script.result.value]))
      else after.(enclosing := Marked(after.enclosing, OverrideMark(script.result.failure)))
  }

  function RunEvents(events: seq<GuestEvent>, w: World): World
    decreases events, 0
  {
    if |events| == 0 then w else RunEvents(events[1..], RunEvent(events[0], w))
  }

  /** What a handler does reaches the call that was active when it was entered. */
  function RunHandler(actions: seq<HandlerAction>, w: World): World
    decreases actions, 0
  {
    if |actions| == 0 then w else RunHandler(actions[1..], RunAction(actions[0], w))
  }

  function RunAction(action: HandlerAction, w: World): World
    decreases action, 0
  {
    match action
    case StoresCode => w.(enclosing := Marked(w.enclosing, StoreMark))
    case CallsOriginal(call) => RunOriginal(call, Counted(w, false)).0
  }

  /** One more override entered, or one more original call made. */
  function Counted(w: World, override: bool): World {
    var t := w.statistics;
    w.(statistics := if override then t.(nativeOverrideCalls := t.nativeOverrideCalls + 1)
                     else t.(originalCalls := t.originalCalls + 1))
  }

  /** ExecuteGuestFunction, once the arguments are in place: a new latch, a frame, the events, and
      the frame undone. The call around it is out of reach meanwhile. */
  function RunEntered(call: OriginalCall, w: World): (World, ExecutionResult)
    decreases call, 0
  {
    var ran := RunEvents(call.events, World(Framed(w.context), InCall(OPEN_LATCH), w.statistics));
    (World(Unframed(ran.context, w.context), w.enclosing, ran.statistics),
     ResultOf(ran.enclosing.Latched(), call.executed, ran.context.r[3]))
  }

  function RunFunction(call: OriginalCall, w: World): (World, ExecutionResult)
    decreases call, 1
  {
    if |call.arguments| > REGISTER_ARGUMENT_COUNT then (w, ExecutionResult(Fail(ExecutionFailed), 0))
    else
      var prepared := w.(context := WithArguments(w.context, call.arguments));
      if call.maxGuestBlocks == 0 then (prepared, ExecutionResult(Fail(ExecutionBudgetInvalid), 0))
      else RunEntered(call, prepared)
  }

  function FallbackResult(exit: FallbackExit, value: u64): ExecutionResult {
    match exit
    case Completed => ExecutionResult(NO_FAILURE, value)
    case UnsupportedInstruction => ExecutionResult(Fail(InterpreterFallbackUnsupported), 0)
    case MemoryFault => ExecutionResult(Fail(InterpreterFallbackMemoryInvalid), 0)
    case InstructionBudgetExceeded => ExecutionResult(Fail(InterpreterFallbackBudgetExceeded), 0)
    case _ => ExecutionResult(Fail(TranslationFailed), 0)
  }

  function FallbackCounted(statistics: Statistics, exit: FallbackExit, instructions: nat): Statistics {
    var t := statistics.(fallbackInstructions := statistics.fallbackInstructions + instructions);
    match exit
    case Completed => t.(executionCalls := t.executionCalls + 1)
    case UnsupportedInstruction => t.(fallbackUnsupported := t.fallbackUnsupported + 1)
    case MemoryFault => t.(fallbackMemoryFailures := t.fallbackMemoryFailures + 1)
    case InstructionBudgetExceeded => t.(fallbackBudgetExhaustions := t.fallbackBudgetExhaustions + 1)
    case _ => t
  }

  /** ExecuteInterpreterFallback: no latch of its own, so what it does marks the call around it. */
  function RunFallback(call: OriginalCall, w: World): (World, ExecutionResult)
    requires call.entry.Interpreted?
    decreases call, 0
  {
    if |call.arguments| > REGISTER_ARGUMENT_COUNT then (w, ExecutionResult(Fail(ExecutionFailed), 0))
    else
      var prepared := w.(context := WithArguments(w.context, call.arguments));
      if call.entry.exit.Unresolved? then (prepared, FallbackResult(call.entry.exit, 0))
      else
        var t := prepared.statistics;
        var ran := RunEvents(call.entry.steps, prepared.(statistics := t.(fallbackEntries := t.fallbackEntries + 1)));
        (ran.(statistics := FallbackCounted(ran.statistics, call.entry.exit, call.entry.instructions)),
         FallbackResult(call.entry.exit, ran.context.r[3]))
  }

  function TranslationCounted(statistics: Statistics, emitted: Option<nat>): Statistics {
    match emitted
    case None => statistics
    case Some(bytes) =>
      statistics.(translatedFunctions := statistics.translatedFunctions + 1,
                  emittedHostBytes := statistics.emittedHostBytes + bytes)
  }

  /** Each way a bounded call can end has its own counter. */
  function ResultCounted(statistics: Statistics, result: ExecutionResult): Statistics {
    match result.failure.error
    case NoError => statistics.(executionCalls := statistics.executionCalls + 1)
    case ExecutionBudgetExceeded => statistics.(budgetExhaustions := statistics.budgetExhaustions + 1)
    case ExecutionInvalidated => statistics.(invalidations := statistics.invalidations + 1)
    case ImportServiceRefused => statistics.(serviceRefusals := statistics.serviceRefusals + 1)
    case GuestAccessViolation => statistics.(accessViolations := statistics.accessViolations + 1)
    case _ => statistics
  }

  function RunOriginal(call: OriginalCall, w: World): (World, ExecutionResult)
    decreases call, 2
  {
    match call.entry
    case DrainFails(failure) => (w, ExecutionResult(failure, 0))
    case OutsideCode => (w, ExecutionResult(Fail(EntryOutsideCode), 0))
    case Interpreted(_, _, _) =>
      var t := w.statistics;
      RunFallback(call, w.(statistics := t.(translationFailures := t.translationFailures + 1)))
    case Translated(emitted) =>
      var (after, result) := RunFunction(call, w.(statistics := TranslationCounted(w.statistics, emitted)));
      (after.(statistics := ResultCounted(after.statistics, result)), result)
  }

  // ---- Which mark decides a call ----

  /** The marks an event makes on the call around it, in order: its own, or those of the handler
      it enters and then that handler's failure. A nested bounded call keeps its marks to itself. */
  function EventMarks(event: GuestEvent): seq<Mark>
    decreases event, 0
  {
    match event
    case CodeStore => [StoreMark]
    case ImportRefuses(refusal) => [RefusalMark(refusal)]
    case Faults(fault) => [FaultMark(fault)]
    case BudgetRunsOut => [BlocksMark]
    case OverrideCall(script) =>
      HandlerMarks(script.actions) + (if script.result.Succeeded() then [] else [OverrideMark(script.result.failure)])
    case _ => []
  }

  function EventsMarks(events: seq<GuestEvent>): seq<Mark>
    decreases events, 0
  {
    if |events| == 0 then [] else EventMarks(events[0]) + EventsMarks(events[1..])
  }

  function HandlerMarks(actions: seq<HandlerAction>): seq<Mark>
    decreases actions, 0
  {
    if |actions| == 0 then [] else ActionMarks(actions[0]) + HandlerMarks(actions[1..])
  }

  function ActionMarks(action: HandlerAction): seq<Mark>
    decreases action, 0
  {
    match action
    case StoresCode => [StoreMark]
    case CallsOriginal(call) => OriginalMarks(call)
  }

  function OriginalMarks(call: OriginalCall): seq<Mark>
    decreases call, 1
  {
    if call.entry.Interpreted? && |call.arguments| <= REGISTER_ARGUMENT_COUNT && !call.entry.exit.Unresolved?
    then EventsMarks(call.entry.steps) else []
  }

  function AllMarked(enclosing: Enclosing, marks: seq<Mark>): Enclosing
    decreases |marks|
  {
    if |marks| == 0 then enclosing else AllMarked(Marked(enclosing, marks[0]), marks[1..])
  }

  lemma {:induction false} AllMarkedInTwo(enclosing: Enclosing, left: seq<Mark>, right: seq<Mark>)
    ensures AllMarked(enclosing, left + right) == AllMarked(AllMarked(enclosing, left), right)
    decreases |left|
  {
    if |left| == 0 {
      assert left + right == right;
    } else {
      assert (left + right)[1..] == left[1..] + right;
      AllMarkedInTwo(Marked(enclosing, left[0]), left[1..], right);
    }
  }

  lemma OneMark(enclosing: Enclosing, mark: Mark)
    ensures AllMarked(enclosing, [mark]) == Marked(enclosing, mark)
  {
    assert [mark][1..] == [];
  }

  /** Once set, a call's exit reason and its details never change. */
  lemma {:induction false} LatchIsSetOnce(latch: Latch, marks: seq<Mark>)
    requires latch.reason != NoExit
    ensures AllMarked(InCall(latch), marks) == InCall(latch)
    decreases |marks|
  {
    if |marks| > 0 {
      LatchIsSetOnce(latch, marks[1..]);
    }
  }

  /** An open call is latched by the first mark alone. */
  lemma FirstMarkLatches(latch: Latch, marks: seq<Mark>)
    requires latch.reason == NoExit
    ensures AllMarked(InCall(latch), marks) == InCall(if |marks| == 0 then latch else Put(latch, marks[0]))
  {
    if |marks| > 0 {
      LatchIsSetOnce(Put(latch, marks[0]), marks[1..]);
    }
  }

  /** Without a bounded call the process ends exactly when a refusal or a failed override is marked. */
  lemma {:induction false} MarksWithoutACall(terminated: bool, marks: seq<Mark>)
    ensures AllMarked(NoCall(terminated), marks) ==
            NoCall(terminated || exists k :: 0 <= k < |marks| && (marks[k].RefusalMark? || marks[k].OverrideMark?))
    decreases |marks|
  {
    if |marks| > 0 {
      MarksWithoutACall(terminated || marks[0].Terminates(), marks[1..]);
      if exists k :: 0 <= k < |marks[1..]| && marks[1..][k].Terminates() {
        var k :| 0 <= k < |marks[1..]| && marks[1..][k].Terminates();
        assert marks[k + 1].Terminates();
      }
      if exists k :: 1 <= k < |marks| && marks[k].Terminates() {
        var k :| 1 <= k < |marks| && marks[k].Terminates();
        assert marks[1..][k - 1].Terminates();
      }
    }
  }

  /** The marks of an event's own tree, and no others, reach the call around it, in order,
      whatever the registers and counters are. */
  lemma {:induction false} EventMarksReach(event: GuestEvent, w: World)
    ensures RunEvent(event, w).enclosing == AllMarked(w.enclosing, EventMarks(event))
    decreases event, 0
  {
    match event
    case CodeStore => OneMark(w.enclosing, StoreMark);
    case ImportRefuses(refusal) => OneMark(w.enclosing, RefusalMark(refusal));
    case Faults(fault) => OneMark(w.enclosing, FaultMark(fault));
    case BudgetRunsOut => OneMark(w.enclosing, BlocksMark);
    case OverrideCall(script) =>
      var marks := HandlerMarks(script.actions);
      HandlerMarksReach(script.actions, Counted(w, true));
      if script.result.Succeeded() {
        assert marks + [] == marks;
      } else {
        AllMarkedInTwo(w.enclosing, marks, [OverrideMark(script.result.failure)]);
        OneMark(AllMarked(w.enclosing, marks), OverrideMark(script.result.failure));
      }
    case _ =>
  }

  lemma {:induction false} EventsMarksReach(events: seq<GuestEvent>, w: World)
    ensures RunEvents(events, w).enclosing == AllMarked(w.enclosing, EventsMarks(events))
    decreases events, 0
  {
    if |events| > 0 {
      EventMarksReach(events[0], w);
      EventsMarksReach(events[1..], RunEvent(events[0], w));
      AllMarkedInTwo(w.enclosing, EventMarks(events[0]), EventsMarks(events[1..]));
    }
  }

  lemma {:induction false} HandlerMarksReach(actions: seq<HandlerAction>, w: World)
    ensures RunHandler(actions, w).enclosing == AllMarked(w.enclosing, HandlerMarks(actions))
    decreases actions, 0
  {
    if |actions| > 0 {
      ActionMarksReach(actions[0], w);
      HandlerMarksReach(actions[1..], RunAction(actions[0], w));
      AllMarkedInTwo(w.enclosing, ActionMarks(actions[0]), HandlerMarks(actions[1..]));
    }
  }

  lemma {:induction false} ActionMarksReach(action: HandlerAction, w: World)
    ensures RunAction(action, w).enclosing == AllMarked(w.enclosing, ActionMarks(action))
    decreases action, 0
  {
    match action
    case StoresCode => OneMark(w.enclosing, StoreMark);
    case CallsOriginal(call) => OriginalMarksReach(call, Counted(w, false));
  }

  lemma FunctionKeepsTheEnclosingCall(call: OriginalCall, w: World)
    ensures RunFunction(call, w).0.enclosing == w.enclosing
  {
    hide RunEvents;
  }

  /** A call that enters leaves the call around it as it was; the interpreter fallback does not. */
  lemma {:induction false} OriginalMarksReach(call: OriginalCall, w: World)
    ensures RunOriginal(call, w).0.enclosing == AllMarked(w.enclosing, OriginalMarks(call))
    decreases call, 1
  {
    if call.entry.Interpreted? && |call.arguments| <= REGISTER_ARGUMENT_COUNT && !call.entry.exit.Unresolved? {
      var t := w.statistics;
      var entered := t.(translationFailures := t.translationFailures + 1, fallbackEntries := t.fallbackEntries + 1);
      EventsMarksReach(call.entry.steps, World(WithArguments(w.context, call.arguments), w.enclosing, entered));
    } else if call.entry.Translated? {
      FunctionKeepsTheEnclosingCall(call, w.(statistics := TranslationCounted(w.statistics, call.entry.emitted)));
    }
  }

  /** An open call survives a call made inside it exactly when that call is not interpreted, or
      its interpreted code makes no mark. */
  lemma OpenCallIsKeptIffUnmarked(call: OriginalCall, w: World)
    requires w.enclosing.InCall? && w.enclosing.latch.reason == NoExit
    ensures RunOriginal(call, w).0.enclosing == w.enclosing <==> |OriginalMarks(call)| == 0
  {
    hide RunOriginal, OriginalMarks;
    OriginalMarksReach(call, w);
    FirstMarkLatches(w.enclosing.latch, OriginalMarks(call));
  }

  predicate Enters(call: OriginalCall) {
    call.entry.Translated? && |call.arguments| <= REGISTER_ARGUMENT_COUNT && call.maxGuestBlocks != 0
  }

  /** The world an entered call's events start in. */
  function EntryWorld(call: OriginalCall, w: World): World
    requires Enters(call)
  {
    World(Framed(WithArguments(w.context, call.arguments)), InCall(OPEN_LATCH),
          TranslationCounted(w.statistics, call.entry.emitted))
  }

  lemma EnteredCall(call: OriginalCall, w: World)
    requires Enters(call)
    ensures var ran := RunEvents(call.events, EntryWorld(call, w)); var prepared := WithArguments(w.context, call.arguments);
            && RunOriginal(call, w).0.context == Unframed(ran.context, prepared)
            && RunOriginal(call, w).1 == ResultOf(ran.enclosing.Latched(), call.executed, ran.context.r[3])
  {
    hide RunEvents;
    var entered := w.(statistics := TranslationCounted(w.statistics, call.entry.emitted));
    assert RunFunction(call, entered) == RunEntered(call, entered.(context := WithArguments(w.context, call.arguments)));
  }

  function LatchOf(marks: seq<Mark>): Latch {
    if |marks| == 0 then OPEN_LATCH else Put(OPEN_LATCH, marks[0])
  }

  /** An entered call's failure is its first mark's, wherever in its tree that was made. */
  lemma FirstMarkDecides(call: OriginalCall, w: World)
    requires Enters(call)
    ensures RunOriginal(call, w).1 ==
            ResultOf(LatchOf(EventsMarks(call.events)), call.executed, RunEvents(call.events, EntryWorld(call, w)).context.r[3])
  {
    hide RunEvents, EventsMarks, RunOriginal;
    EnteredCall(call, w);
    EventsMarksReach(call.events, EntryWorld(call, w));
    FirstMarkLatches(OPEN_LATCH, EventsMarks(call.events));
  }

  /** A call that enters fails exactly when something in its own tree marks it or the
      translated function refuses to run. */
  lemma CallFailsIffMarked(call: OriginalCall, w: World)
    requires Enters(call)
    ensures RunOriginal(call, w).1.Succeeded() <==> call.executed && |EventsMarks(call.events)| == 0
  {
    hide RunOriginal;
    FirstMarkDecides(call, w);
    FailuresAreMarked(call.events);
  }

  /** An override's mark always carries a failure. */
  predicate CarryFailures(marks: seq<Mark>) {
    forall k :: 0 <= k < |marks| && marks[k].OverrideMark? ==> marks[k].failure.Failed()
  }

  lemma {:induction false} EventFailuresAreMarked(event: GuestEvent)
    ensures CarryFailures(EventMarks(event))
    decreases event, 0
  {
    if event.OverrideCall? {
      HandlerFailuresAreMarked(event.script.actions);
    }
  }

  lemma {:induction false} FailuresAreMarked(events: seq<GuestEvent>)
    ensures CarryFailures(EventsMarks(events))
    decreases events, 0
  {
    if |events| > 0 {
      EventFailuresAreMarked(events[0]);
      FailuresAreMarked(events[1..]);
    }
  }

  lemma {:induction false} HandlerFailuresAreMarked(actions: seq<HandlerAction>)
    ensures CarryFailures(HandlerMarks(actions))
    decreases actions, 0
  {
    if |actions| > 0 {
      ActionFailuresAreMarked(actions[0]);
      HandlerFailuresAreMarked(actions[1..]);
    }
  }

  lemma {:induction false} ActionFailuresAreMarked(action: HandlerAction)
    ensures CarryFailures(ActionMarks(action))
    decreases action, 0
  {
    if action.CallsOriginal? && action.call.entry.Interpreted? {
      FailuresAreMarked(action.call.entry.steps);
    }
  }

  /** A failing override's failure is the result of the call it was entered from, exactly when
      nothing marked that call before it, nor while the handler itself was working: a watched
      store, or a fallback it called. Otherwise the first of those marks is the result. */
  lemma OverrideFailureReachesItsCall(call: OriginalCall, w: World, index: nat)
    requires Enters(call) && index < |call.events|
    requires call.events[index].OverrideCall? && !call.events[index].script.result.Succeeded()
    ensures var before := EventsMarks(call.events[..index]) + HandlerMarks(call.events[index].script.actions);
            RunOriginal(call, w).1 ==
            if |before| == 0 then ExecutionResult(call.events[index].script.result.failure, 0)
            else ResultOf(Put(OPEN_LATCH, before[0]), call.executed, 0)
  {
    hide RunOriginal, HandlerMarks;
    var script := call.events[index].script;
    FirstMarkDecides(call, w);
    EventsMarksAt(call.events, index);
    var before := EventsMarks(call.events[..index]) + HandlerMarks(script.actions);
    assert EventMarks(call.events[index]) == HandlerMarks(script.actions) + [OverrideMark(script.result.failure)];
    if |before| == 0 {
      assert EventsMarks(call.events)[0] == OverrideMark(script.result.failure);
    } else {
      assert EventsMarks(call.events)[0] == before[0];
    }
  }

  lemma {:induction false} EventsMarksAt(events: seq<GuestEvent>, index: nat)
    requires index < |events|
    ensures EventsMarks(events) == EventsMarks(events[..index]) + EventMarks(events[index]) + EventsMarks(events[index + 1..])
    decreases index
  {
    if index > 0 {
      EventsMarksAt(events[1..], index - 1);
      assert events[..index][0] == events[0] && events[..index][1..] == events[1..][..index - 1];
      assert events[1..][index..] == events[index + 1..];
    }
  }

  /** A call gives back the stack pointer and link register it started with, unless it is interpreted. */
  lemma CallRestoresFrame(call: OriginalCall, w: World)
    requires !call.entry.Interpreted?
    ensures RunOriginal(call, w).0.context.r[1] == w.context.r[1] && RunOriginal(call, w).0.context.lr == w.context.lr
  {
    hide RunEvents;
    if Enters(call) {
      EnteredCall(call, w);
    } else if call.entry.Translated? {
      var entered := w.(statistics := TranslationCounted(w.statistics, call.entry.emitted));
      assert RunOriginal(call, w).0.context == RunFunction(call, entered).0.context;
    }
  }
}
