/** The invalidation object of src/executable_invalidation.cpp. */
module ExecutableInvalidation {
  import opened Bytes
  import opened ModuleContract
  import opened PendingWrites
  import opened RuntimeFailures
  import opened WriteCoherence
  import CallSemantics
  import GuestCalls

  ghost function Holding(functions: map<u32, Translation>, instruction: int): set<u32> {
    set entry | entry in functions && HoldsInstruction(entry, functions[entry], instruction)
  }

  ghost function Elements(list: seq<u32>): set<u32> {
    set entry | entry in list
  }

  /** Xenia's processor, as far as invalidation uses it. */
  class Processor {
    var functions: map<u32, Translation>

    /** A function may be listed more than once. */
    method FindFunctionsWithAddress(instruction: int) returns (found: seq<u32>)
      ensures Elements(found) == Holding(functions, instruction)
    {
      found := [];
      var left := functions.Keys;
      while left != {}
        invariant left <= functions.Keys
        invariant forall entry :: entry in found <==>
                    entry in functions.Keys - left && HoldsInstruction(entry, functions[entry], instruction)
        decreases left
      {
        var entry :| entry in left;
        left := left - {entry};
        if HoldsInstruction(entry, functions[entry], instruction) {
          found := found + [entry];
        }
      }
    }

    method RemoveFunctionByAddress(entry: u32)
      modifies this
      ensures functions == old(functions) - {entry}
    {
      functions := functions - {entry};
    }
  }

  class JitStatistics {
    var translationInvalidations: nat
    var observedExecutableWrites: nat

    constructor ()
      ensures translationInvalidations == 0 && observedExecutableWrites == 0
    {
      translationInvalidations, observedExecutableWrites := 0, 0;
    }
  }

  /** What happens to a compare-exchange before it can succeed: it fails for no
      reason, or another thread has just put `word` in its place. */
  datatype Attempt = Spurious | Interfered(word: u64)

  /** The word after other threads' stores among `attempts`. */
  function WordAfter(word: u64, attempts: seq<Attempt>): u64 {
    if |attempts| == 0 then word
    else match attempts[|attempts| - 1]
         case Interfered(other) => other
         case Spurious => WordAfter(word, attempts[..|attempts| - 1])
  }

  class ExecutableInvalidation {
    const processor: Processor
    const statistics: JitStatistics
    // Both of memory_ and callback_handle_ are set.
    var armed: bool
    var codeRange: CodeRange
    var pendingWrite: u64

    constructor (processor: Processor, statistics: JitStatistics)
      ensures this.processor == processor && this.statistics == statistics
      ensures !armed && codeRange == CodeRange(0, 0) && pendingWrite == NO_PENDING_WRITE
    {
      this.processor, this.statistics := processor, statistics;
      armed, codeRange, pendingWrite := false, CodeRange(0, 0), NO_PENDING_WRITE;
    }

    /** `registered` and `rearmed` are Xenia's answers. */
    method Arm(range: CodeRange, registered: bool, rearmed: bool) returns (failure: RuntimeFailure)
      modifies this
      ensures failure.Failed() <==> range.base == 0 || range.size == 0 || !registered || !rearmed
      ensures !failure.Failed() ==> armed && codeRange == range && pendingWrite == NO_PENDING_WRITE
      ensures range.base == 0 || range.size == 0 ==>
                armed == old(armed) && codeRange == old(codeRange) && pendingWrite == old(pendingWrite)
      ensures failure.Failed() && range.base != 0 && range.size != 0 ==>
                !armed && codeRange == CodeRange(0, 0) && pendingWrite == NO_PENDING_WRITE
    {
      if range.base == 0 || range.size == 0 {
        return Fail(ExecutableWatchRegistrationFailed);
      }
      Disarm();
      armed := registered;
      codeRange := range;
      if !registered {
        armed, codeRange := false, CodeRange(0, 0);
        return Fail(ExecutableWatchRegistrationFailed);
      }
      if !Rearm(rearmed) {
        Disarm();
        return Fail(ExecutableWatchRegistrationFailed);
      }
      failure := NO_FAILURE;
    }

    method Disarm()
      modifies this
      ensures !armed && codeRange == CodeRange(0, 0) && pendingWrite == NO_PENDING_WRITE
    {
      armed, codeRange, pendingWrite := false, CodeRange(0, 0), NO_PENDING_WRITE;
    }

    predicate Rearm(rearmed: bool)
      reads this
    {
      armed && codeRange.size != 0 && rearmed
    }

    /** A report of a guest store. `attempts` is what its compare-exchanges meet; the
        one after `used` of them succeeds, on the word it then finds. */
    method RecordVirtualWrite(thread: GuestCalls.GuestThread, address: u32, length: u32, attempts: seq<Attempt>)
        returns (used: nat)
      modifies this`pendingWrite, statistics, thread.activeBudget
      ensures used <= |attempts|
      ensures thread.activeBudget != null ==>
                var budget := thread.activeBudget;
                && budget.fault == old(budget.fault)
                && budget.exitReason ==
                   if armed && Clip(codeRange, address, length).Some? && old(budget.exitReason) == CallSemantics.NoExit
                   then CallSemantics.ExecutableWriteObserved else old(budget.exitReason)
      ensures statistics.translationInvalidations == old(statistics.translationInvalidations)
      ensures match Clip(codeRange, address, length)
              case Some(write) =>
                if armed then
                  && pendingWrite == Merge(WordAfter(old(pendingWrite), attempts[..used]), write)
                  && statistics.observedExecutableWrites == old(statistics.observedExecutableWrites) + 1
                else pendingWrite == old(pendingWrite)
                     && statistics.observedExecutableWrites == old(statistics.observedExecutableWrites)
              case None =>
                pendingWrite == old(pendingWrite)
                && statistics.observedExecutableWrites == old(statistics.observedExecutableWrites)
    {
      hide Merge;
      used := 0;
      if length == 0 || !armed {
        return;
      }
      var writeEnd := address as int + length;
      var start := Max(address, codeRange.base);
      var end := Min(writeEnd, codeRange.End());
      if start >= end {
        return;
      }
      var write := Interval(start, (end - 1) % 0x1_0000_0000);
      assert Clip(codeRange, address, length) == Some(write);
      var current := pendingWrite;
      while used < |attempts|
        invariant used <= |attempts|
        invariant current == pendingWrite == WordAfter(old(pendingWrite), attempts[..used])
        invariant thread.activeBudget != null ==> unchanged(thread.activeBudget)
        invariant statistics.translationInvalidations == old(statistics.translationInvalidations)
        invariant statistics.observedExecutableWrites == old(statistics.observedExecutableWrites)
      {
        assert attempts[..used + 1][..used] == attempts[..used];
        var attempt := attempts[used];
        used := used + 1;
        if attempt.Interfered? {
          pendingWrite := attempt.word;
          if pendingWrite == current {
            break;
          }
        }
        current := pendingWrite;
      }
      pendingWrite := Merge(current, write);
      thread.MarkExecutableWriteObserved();
      statistics.observedExecutableWrites := statistics.observedExecutableWrites + 1;
    }

    method DrainObservedWrites(rearmed: bool) returns (failure: RuntimeFailure)
      requires WellFormed(codeRange, pendingWrite) && codeRange.End() <= 0x1_0000_0000
      modifies this`pendingWrite, processor, statistics
      ensures pendingWrite == NO_PENDING_WRITE
      ensures failure ==
              if armed && codeRange.size != 0 && rearmed then NO_FAILURE else Fail(ExecutableWatchRearmFailed)
      ensures match DrainRange(codeRange, old(pendingWrite))
              case Some((start, length)) =>
                var evicted := Evicted(old(processor.functions), start, length);
                && processor.functions == old(processor.functions) - evicted
                && statistics.translationInvalidations == old(statistics.translationInvalidations) + |evicted|
              case None =>
                && processor.functions == old(processor.functions)
                && statistics.translationInvalidations == old(statistics.translationInvalidations)
    {
      hide Evicted, NotifyAccepts;
      var packed := pendingWrite;
      pendingWrite := NO_PENDING_WRITE;
      DrainRangeIsCovered(codeRange, packed);
      var virtualStart, virtualLast := First(packed), Last(packed);
      if virtualStart != NO_ADDRESS && virtualStart <= virtualLast {
        var start := Max(virtualStart, codeRange.base);
        var end := Min(virtualLast as int + 1, codeRange.End());
        if start < end {
          var length := (end - start) % 0x1_0000_0000;
          assert DrainRange(codeRange, packed) == Some((start, length));
          failure := Notify(codeRange, start, length);
          if failure.Failed() {
            return;
          }
        }
      }
      failure := if Rearm(rearmed) then NO_FAILURE else Fail(ExecutableWatchRearmFailed);
    }

    /** Refuses a range that is empty or leaves the code range; otherwise removes
        exactly the functions holding a touched instruction, counting each once. */
    method Notify(range: CodeRange, address: u32, size: u32) returns (failure: RuntimeFailure)
      modifies processor, statistics
      ensures failure ==
              if size != 0 && range.base <= address && address as int + size <= range.base as int + range.size
              then NO_FAILURE else Fail(ExecutableRangeInvalid)
      ensures statistics.observedExecutableWrites == old(statistics.observedExecutableWrites)
      ensures if failure.Failed() then
                && processor.functions == old(processor.functions)
                && statistics.translationInvalidations == old(statistics.translationInvalidations)
              else
                var evicted := Evicted(old(processor.functions), address, size);
                && processor.functions == old(processor.functions) - evicted
                && statistics.translationInvalidations == old(statistics.translationInvalidations) + |evicted|
    {
      var writeEnd := address as int + size;
      if size == 0 || address < range.base || writeEnd > range.End() {
        return Fail(ExecutableRangeInvalid);
      }
      ghost var functions := processor.functions;
      assert EvictedBelow(functions, address, address / 4 * 4) == {};
      hide EvictedBelow, Evicted, Holding, Elements;
      var invalidated: set<u32> := {};
      var instruction := address / 4 * 4;
      while instruction < writeEnd
        invariant instruction % 4 == 0 && address / 4 * 4 <= instruction < writeEnd + 4
        invariant invalidated == EvictedBelow(functions, address, instruction)
        invariant processor.functions == functions - invalidated
        invariant statistics.translationInvalidations == old(statistics.translationInvalidations) + |invalidated|
        invariant statistics.observedExecutableWrites == old(statistics.observedExecutableWrites)
      {
        var found := processor.FindFunctionsWithAddress(instruction);
        EvictedStep(functions, address, instruction);
        invalidated := Invalidate(found, invalidated);
        instruction := instruction + 4;
      }
      EvictedAll(functions, address, size, instruction);
      failure := NO_FAILURE;
    }

    /** Removes and counts each listed function that was not removed before. */
    method Invalidate(found: seq<u32>, before: set<u32>) returns (invalidated: set<u32>)
      modifies processor, statistics
      ensures invalidated == before + Elements(found)
      ensures processor.functions == old(processor.functions) - (invalidated - before)
      ensures statistics.translationInvalidations == old(statistics.translationInvalidations) + |invalidated| - |before|
      ensures statistics.observedExecutableWrites == old(statistics.observedExecutableWrites)
    {
      invalidated := before;
      for index := 0 to |found|
        invariant invalidated == before + Elements(found[..index])
        invariant processor.functions == old(processor.functions) - (invalidated - before)
        invariant statistics.translationInvalidations == old(statistics.translationInvalidations) + |invalidated| - |before|
        invariant statistics.observedExecutableWrites == old(statistics.observedExecutableWrites)
      {
        assert found[..index + 1] == found[..index] + [found[index]];
        if found[index] !in invalidated {
          invalidated := invalidated + {found[index]};
          processor.RemoveFunctionByAddress(found[index]);
          statistics.translationInvalidations := statistics.translationInvalidations + 1;
        }
      }
      assert found[..|found|] == found;
    }
  }

  /** The functions holding an instruction of the range below `end`. */
  ghost function EvictedBelow(functions: map<u32, Translation>, address: u32, end: int): set<u32> {
    set entry | entry in functions && exists instruction: int ::
      instruction % 4 == 0 && address / 4 * 4 <= instruction < end && HoldsInstruction(entry, functions[entry], instruction)
  }

  lemma EvictedStep(functions: map<u32, Translation>, address: u32, instruction: int)
    requires instruction % 4 == 0 && address / 4 * 4 <= instruction
    ensures var evicted := EvictedBelow(functions, address, instruction);
            EvictedBelow(functions, address, instruction + 4) == evicted + Holding(functions - evicted, instruction)
    ensures EvictedBelow(functions, address, instruction) <= functions.Keys
  {
  }

  lemma EvictedAll(functions: map<u32, Translation>, address: u32, size: u32, end: int)
    requires end % 4 == 0 && address as int + size <= end < address as int + size + 4
    ensures EvictedBelow(functions, address, end) == Evicted(functions, address, size)
  {
    hide HoldsInstruction, IsTouched;
    forall entry | entry in functions
      ensures entry in EvictedBelow(functions, address, end) <==> entry in Evicted(functions, address, size)
    {
      if entry in EvictedBelow(functions, address, end) {
        var i: int :| i % 4 == 0 && address / 4 * 4 <= i < end && HoldsInstruction(entry, functions[entry], i);
        BelowIsTouched(i, address, size, end);
      }
      if Touched(entry, functions[entry], address, size) {
        var i: int :| IsTouched(i, address, size) && HoldsInstruction(entry, functions[entry], i);
        TouchedIsBelow(i, address, size, end);
      }
    }
  }

  lemma BelowIsTouched(instruction: int, address: u32, size: u32, end: int)
    requires end % 4 == 0 && end < address as int + size + 4
    requires instruction % 4 == 0 && address / 4 * 4 <= instruction < end
    ensures IsTouched(instruction, address, size)
  {
  }

  lemma TouchedIsBelow(instruction: int, address: u32, size: u32, end: int)
    requires address as int + size <= end && IsTouched(instruction, address, size)
    ensures instruction % 4 == 0 && address / 4 * 4 <= instruction < end
  {
  }
}
