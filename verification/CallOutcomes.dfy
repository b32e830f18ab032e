/** What a call's result and counters are, case by case, from what happened in it. */
module CallOutcomes {
  import opened Bytes
  import opened RuntimeFailures
  import opened CallSemantics

  // ---- Registers ----

  /** Argument i goes to register 3 + i; nothing else moves. */
  lemma ArgumentsStartAtRegister3(c: Context, arguments: seq<u64>)
    requires |arguments| <= 8
    ensures var placed := WithArguments(c, arguments);
            && (forall i :: 0 <= i < 32 ==> placed.r[i] == if 3 <= i < 3 + |arguments| then arguments[i - 3] else c.r[i])
            && placed.lr == c.lr
  {
  }

  /** The callee's frame is 176 bytes, modulo 2^64, and it returns to 0xBCBCBCBC. */
  lemma FrameIs176Bytes(c: Context)
    ensures var framed := Framed(c);
            && (framed.r[1] as int + 176) % 0x1_0000_0000_0000_0000 == c.r[1]
            && (forall i :: 0 <= i < 32 && i != 1 ==> framed.r[i] == c.r[i])
            && framed.lr == 0xBCBC_BCBC
  {
  }

  /** Once its handler has run, a succeeding override changes register 3 and nothing else. */
  lemma OverrideReturnsInRegister3(script: Script, w: World)
    requires script.result.Succeeded()
    ensures var handled := RunHandler(script.actions, Counted(w, true));
            var after := RunEvent(OverrideCall(script), w);
            && after.context.r[3] == script.result.value
            && (forall i :: 0 <= i < 32 && i != 3 ==> after.context.r[i] == handled.context.r[i])
            && after.context.lr == handled.context.lr
            && after.enclosing == handled.enclosing && after.statistics == handled.statistics
  {
    hide RunHandler, Counted;
  }

  /** Entering an override counts an override call, and calling original code an original call,
      each once, before anything else happens. */
  lemma CallsAreCounted(script: Script, call: OriginalCall, w: World)
    ensures var t := w.statistics;
            && RunEvent(OverrideCall(script), w).statistics ==
               RunHandler(script.actions, w.(statistics := t.(nativeOverrideCalls := t.nativeOverrideCalls + 1))).statistics
            && RunAction(CallsOriginal(call), w) ==
               RunOriginal(call, w.(statistics := t.(originalCalls := t.originalCalls + 1))).0
  {
    hide RunHandler, RunOriginal;
  }

  /** A host import's value goes to register 3, and nothing else changes. */
  lemma ImportReturnsInRegister3(value: u64, w: World)
    ensures var after := RunEvent(ImportReturns(value), w);
            && after.context.r[3] == value
            && (forall i :: 0 <= i < 32 && i != 3 ==> after.context.r[i] == w.context.r[i])
            && after.context.lr == w.context.lr
            && after.enclosing == w.enclosing && after.statistics == w.statistics
  {
  }

  /** When the frame is left only the stack pointer and the link register are put back. */
  lemma LeavingTheFrameKeepsTheRest(c: Context, before: Context)
    ensures var left := Unframed(c, before);
            && left.r[1] == before.r[1] && left.lr == before.lr
            && forall i :: 0 <= i < 32 && i != 1 ==> left.r[i] == c.r[i]
  {
  }

  // ---- Failure details ----

  /** A refusal's message tells which library, ordinal and reason were refused. */
  lemma RefusalDetailIsInjective(left: Refusal, right: Refusal)
    requires RefusalDetail(left) == RefusalDetail(right)
    ensures left == right
  {
    hide Be32;
    var l, r := RefusalDetail(left), RefusalDetail(right);
    assert l[|left.library|..|left.library| + 4] == Be32(left.ordinal);
    assert r[|right.library|..|right.library| + 4] == Be32(right.ordinal);
    assert l[..|left.library|] == left.library && r[..|right.library|] == right.library;
    assert l[|l| - 1] == r[|r| - 1];
    WordRoundTrip(left.ordinal);
    WordRoundTrip(right.ordinal);
  }

  /** A fault's message tells its address and whether it wrote. */
  lemma FaultDetailIsInjective(left: Fault, right: Fault)
    requires FaultDetail(left) == FaultDetail(right)
    ensures left == right
  {
    hide Be32;
    var l, r := FaultDetail(left), FaultDetail(right);
    assert l[..4] == Be32(left.address) && r[..4] == Be32(right.address);
    assert l[4] == r[4];
    WordRoundTrip(left.address);
    WordRoundTrip(right.address);
  }

  // ---- Bounded calls ----

  function One(counts: bool): nat {
    if counts then 1 else 0
  }

  /** Of the counters, exactly the one for the result's error moves, by one. */
  ghost predicate CountedOnce(before: Statistics, after: Statistics, error: RuntimeError) {
    && after.executionCalls == before.executionCalls + One(error == NoError)
    && after.budgetExhaustions == before.budgetExhaustions + One(error == ExecutionBudgetExceeded)
    && after.invalidations == before.invalidations + One(error == ExecutionInvalidated)
    && after.serviceRefusals == before.serviceRefusals + One(error == ImportServiceRefused)
    && after.accessViolations == before.accessViolations + One(error == GuestAccessViolation)
    && after == before.(executionCalls := after.executionCalls, budgetExhaustions := after.budgetExhaustions,
                        invalidations := after.invalidations, serviceRefusals := after.serviceRefusals,
                        accessViolations := after.accessViolations)
  }

  /** What an entered call returns, from the first mark its own tree makes, if there is one. */
  ghost predicate OutcomeIs(marks: seq<Mark>, executed: bool, value: u64, result: ExecutionResult) {
    if |marks| == 0 then
      if executed then result.Succeeded() && result.value == value
      else result.failure.error == ExecutionFailed && result.value == 0
    else
      && result.value == 0
      && (marks[0].StoreMark? ==> result.failure.error == ExecutionInvalidated)
      && (marks[0].RefusalMark? ==>
            result.failure.error == ImportServiceRefused && result.failure.detail == RefusalDetail(marks[0].refusal))
      && (marks[0].OverrideMark? ==> result.failure == marks[0].failure)
      && (marks[0].FaultMark? ==>
            result.failure.error == GuestAccessViolation && result.failure.detail == FaultDetail(marks[0].fault))
      && (marks[0].BlocksMark? ==> result.failure.error == ExecutionBudgetExceeded)
  }

  /** Each way a bounded call can end has its own failure and its own counter. */
  lemma BoundedCallOutcome(call: OriginalCall, w: World)
    requires call.entry.Translated? && |call.arguments| <= 8 && call.maxGuestBlocks != 0
    ensures var ran := RunEvents(call.events, EntryWorld(call, w));
            && OutcomeIs(EventsMarks(call.events), call.executed, ran.context.r[3], RunOriginal(call, w).1)
            && CountedOnce(ran.statistics, RunOriginal(call, w).0.statistics, RunOriginal(call, w).1.failure.error)
  {
    hide RunEvents, RunOriginal, EventsMarks, CountedOnce, RefusalDetail, FaultDetail;
    FirstMarkDecides(call, w);
    FailuresAreMarked(call.events);
    EnteredCallIsCountedOnce(call, w);
  }

  /** A call whose first event stops it fails as that event says, whatever would have followed. */
  lemma FirstEventDecides(call: OriginalCall, w: World)
    requires call.entry.Translated? && |call.arguments| <= 8 && call.maxGuestBlocks != 0 && |call.events| > 0
    ensures var failure := RunOriginal(call, w).1.failure; var event := call.events[0];
            && (event.CodeStore? ==> failure.error == ExecutionInvalidated)
            && (event.BudgetRunsOut? ==> failure.error == ExecutionBudgetExceeded)
            && (event.ImportRefuses? ==>
                  failure.error == ImportServiceRefused && failure.detail == RefusalDetail(event.refusal))
            && (event.Faults? ==>
                  failure.error == GuestAccessViolation && failure.detail == FaultDetail(event.fault))
            && (event.OverrideCall? && event.script.actions == [] && event.script.result.failure.Failed() ==>
                  failure == event.script.result.failure)
  {
    hide RunEvents, RunOriginal, CountedOnce, RefusalDetail, FaultDetail;
    BoundedCallOutcome(call, w);
    var event := call.events[0];
    assert EventsMarks(call.events) == EventMarks(event) + EventsMarks(call.events[1..]);
    assert event.OverrideCall? && event.script.actions == [] ==> HandlerMarks(event.script.actions) == [];
  }

  lemma EnteredCallIsCountedOnce(call: OriginalCall, w: World)
    requires Enters(call)
    ensures CountedOnce(RunEvents(call.events, EntryWorld(call, w)).statistics,
                        RunOriginal(call, w).0.statistics, RunOriginal(call, w).1.failure.error)
  {
    hide RunEvents, ResultOf, RefusalDetail, FaultDetail;
    var entered := w.(statistics := TranslationCounted(w.statistics, call.entry.emitted));
    assert RunFunction(call, entered) == RunEntered(call, entered.(context := WithArguments(w.context, call.arguments)));
  }

  /** An entered call's code starts in its arguments and frame, with its own latch open; a new
      translation has been counted, with its bytes. */
  lemma CallsStartOpen(call: OriginalCall, w: World)
    requires call.entry.Translated? && |call.arguments| <= 8 && call.maxGuestBlocks != 0
    ensures var entry := EntryWorld(call, w); var t := w.statistics;
            && entry.context == Framed(WithArguments(w.context, call.arguments))
            && entry.enclosing.InCall? && entry.enclosing.latch.reason == NoExit
            && entry.statistics ==
               if call.entry.emitted.None? then t
               else t.(translatedFunctions := t.translatedFunctions + 1,
                       emittedHostBytes := t.emittedHostBytes + call.entry.emitted.value)
  {
  }

  /** A failed drain is the call's failure, and an entry outside the code has its own; neither touches anything. */
  lemma UnenteredCallOutcome(call: OriginalCall, w: World)
    requires call.entry.DrainFails? || call.entry.OutsideCode?
    ensures RunOriginal(call, w).0 == w && RunOriginal(call, w).1.value == 0
    ensures call.entry.DrainFails? ==> RunOriginal(call, w).1.failure == call.entry.failure
    ensures call.entry.OutsideCode? ==> RunOriginal(call, w).1.failure.error == EntryOutsideCode
  {
  }

  /** A call that is refused before it enters runs none of its events. */
  lemma RefusedCallOutcome(call: OriginalCall, w: World)
    requires call.entry.Translated? && (|call.arguments| > 8 || call.maxGuestBlocks == 0)
    ensures RunOriginal(call, w).1.value == 0 && RunOriginal(call, w).0.enclosing == w.enclosing
    ensures |call.arguments| > 8 ==>
              RunOriginal(call, w).1.failure.error == ExecutionFailed && RunOriginal(call, w).0.context == w.context
    ensures |call.arguments| <= 8 ==>
              RunOriginal(call, w).1.failure.error == ExecutionBudgetInvalid
              && RunOriginal(call, w).0.context == WithArguments(w.context, call.arguments)
  {
    hide RunEvents;
  }

  // ---- The interpreter fallback ----

  /** Of the fallback's counters, exactly the one for its exit moves, by one, and the instructions by how many ran. */
  ghost predicate FallbackCountedOnce(before: Statistics, after: Statistics, exit: FallbackExit, instructions: nat) {
    && after.fallbackInstructions == before.fallbackInstructions + instructions
    && after.executionCalls == before.executionCalls + One(exit == Completed)
    && after.fallbackUnsupported == before.fallbackUnsupported + One(exit == UnsupportedInstruction)
    && after.fallbackMemoryFailures == before.fallbackMemoryFailures + One(exit == MemoryFault)
    && after.fallbackBudgetExhaustions == before.fallbackBudgetExhaustions + One(exit == InstructionBudgetExceeded)
    && after == before.(fallbackInstructions := after.fallbackInstructions, executionCalls := after.executionCalls,
                        fallbackUnsupported := after.fallbackUnsupported,
                        fallbackMemoryFailures := after.fallbackMemoryFailures,
                        fallbackBudgetExhaustions := after.fallbackBudgetExhaustions)
  }

  ghost predicate FallbackOutcomeIs(exit: FallbackExit, value: u64, result: ExecutionResult) {
    && (exit == Completed ==> result.Succeeded() && result.value == value)
    && (exit != Completed ==> result.value == 0)
    && (exit == UnsupportedInstruction ==> result.failure.error == InterpreterFallbackUnsupported)
    && (exit == MemoryFault ==> result.failure.error == InterpreterFallbackMemoryInvalid)
    && (exit == InstructionBudgetExceeded ==> result.failure.error == InterpreterFallbackBudgetExceeded)
    && (exit == Unresolved || exit == InvalidEntry ==> result.failure.error == TranslationFailed)
  }

  /** Each exit of the fallback has its own failure and counter, whatever the interpreted code
      marked; it starts from the caller's frame, with one more failed translation and one more entry counted. */
  lemma FallbackOutcome(call: OriginalCall, w: World)
    requires call.entry.Interpreted? && |call.arguments| <= 8 && !call.entry.exit.Unresolved?
    ensures var t := w.statistics;
            var ran := RunEvents(call.entry.steps, World(WithArguments(w.context, call.arguments), w.enclosing,
                                 t.(translationFailures := t.translationFailures + 1, fallbackEntries := t.fallbackEntries + 1)));
            && RunOriginal(call, w).0.context == ran.context && RunOriginal(call, w).0.enclosing == ran.enclosing
            && FallbackOutcomeIs(call.entry.exit, ran.context.r[3], RunOriginal(call, w).1)
            && FallbackCountedOnce(ran.statistics, RunOriginal(call, w).0.statistics, call.entry.exit, call.entry.instructions)
  {
    hide RunEvents;
  }

  lemma UnresolvedFallbackOutcome(call: OriginalCall, w: World)
    requires call.entry.Interpreted? && (|call.arguments| > 8 || call.entry.exit.Unresolved?)
    ensures RunOriginal(call, w).1.value == 0 && RunOriginal(call, w).0.enclosing == w.enclosing
    ensures RunOriginal(call, w).1.failure.error == if |call.arguments| > 8 then ExecutionFailed else TranslationFailed
    ensures RunOriginal(call, w).0.statistics == w.statistics.(translationFailures := w.statistics.translationFailures + 1)
  {
    hide RunEvents;
  }
}
