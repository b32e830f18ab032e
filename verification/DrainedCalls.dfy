/** A drain among any number of writers and other drains: what it has delivered by the time its
    call starts, and where cached translations may still be stale. */
module DrainedCalls {
  import opened Bytes
  import opened ModuleContract
  import opened PendingWrites
  import opened WriteCoherence

  /** The word exchanged out by `thread` before state `from` covers the address, and has not been
      notified by state `k`. */
  ghost predicate StillDraining(states: seq<State>, steps: seq<Step>, from: nat, k: nat, thread: Thread, address: int)
    requires |states| == |steps| + 1 && from <= k <= |steps|
  {
    && thread in states[from].drains && Covers(states[from].drains[thread], address)
    && forall m :: from <= m < k ==> steps[m] != Notify(thread)
  }

  /** The hull of some completed reports: the word they leave when nothing else is pending. */
  function MergedAll(recorded: seq<Recorded>): u64 {
    if |recorded| == 0 then NO_PENDING_WRITE
    else Merge(MergedAll(recorded[..|recorded| - 1]), recorded[|recorded| - 1].write)
  }

  /** The reports completed after the first `count`. */
  function After(s: State, count: nat): (later: seq<Recorded>)
    ensures count == |s.recorded| ==> later == []
  {
    if count <= |s.recorded| then s.recorded[count..] else []
  }

  lemma MergedAllNext(recorded: seq<Recorded>, last: Recorded)
    ensures MergedAll(recorded + [last]) == Merge(MergedAll(recorded), last.write)
  {
    assert (recorded + [last])[..|recorded|] == recorded;
  }

  /** Its ends are the lowest and the highest byte of those reports. */
  lemma {:induction false} MergedAllIsHull(recorded: seq<Recorded>)
    requires |recorded| > 0
    ensures var hull := MergedAll(recorded);
            && (exists k :: 0 <= k < |recorded| && First(hull) == recorded[k].write.first)
            && (exists k :: 0 <= k < |recorded| && Last(hull) == recorded[k].write.last)
            && forall k :: 0 <= k < |recorded| ==> First(hull) <= recorded[k].write.first && recorded[k].write.last <= Last(hull)
    decreases |recorded|
  {
    hide Pack, First, Last;
    var front, last := recorded[..|recorded| - 1], recorded[|recorded| - 1];
    MergeEnds(MergedAll(front), last.write);
    assert recorded[|recorded| - 1] == last;
    if |front| == 0 {
      assert MergedAll(front) == NO_PENDING_WRITE;
    } else {
      MergedAllIsHull(front);
      assert forall k :: 0 <= k < |front| ==> recorded[k] == front[k];
    }
  }

  lemma MergeEnds(word: u64, write: Interval)
    ensures First(Merge(word, write)) == Min(First(word), write.first)
    ensures Last(Merge(word, write)) == Max(Last(word), write.last)
    ensures First(NO_PENDING_WRITE) == NO_ADDRESS && Last(NO_PENDING_WRITE) == 0
  {
    PackRoundTrip(Min(First(word), write.first), Max(Last(word), write.last));
  }

  /** A merge into a smaller word covers no more than the same merge into a larger one. */
  lemma MergeIsMonotone(code: CodeRange, small: u64, large: u64, write: Interval)
    requires WellFormed(code, small) && WellFormed(code, large) && code.End() <= NO_ADDRESS
    requires code.base <= write.first <= write.last < code.End()
    requires forall a: int :: Covers(small, a) ==> Covers(large, a)
    ensures forall a: int :: Covers(Merge(small, write), a) ==> Covers(Merge(large, write), a)
  {
    MergeIsHull(code, small, write);
    MergeIsHull(code, large, write);
    if small != NO_PENDING_WRITE {
      assert Covers(small, First(small)) && Covers(small, Last(small));
      assert Covers(large, First(small)) && Covers(large, Last(small));
    }
    MergeKeepsBoth(code, large, write);
  }

  /** What a word holds was reported after the first `count` reports, or was exchanged out before `from`. */
  ghost predicate ReportedSince(states: seq<State>, steps: seq<Step>, from: nat, k: nat, count: nat)
    requires |states| == |steps| + 1 && from <= k <= |steps|
  {
    var s := states[k];
    var hull := MergedAll(After(s, count));
    && count <= |s.recorded| && WellFormed(s.code, hull)
    && (forall a: int :: Covers(s.pending, a) ==> Covers(hull, a))
    && (forall thread, a: int {:trigger Covers(s.drains[thread], a)} ::
          thread in s.drains && Covers(s.drains[thread], a) ==>
            Covers(hull, a) || StillDraining(states, steps, from, k, thread, a))
  }

  lemma WordsAreReportedSince(states: seq<State>, steps: seq<Step>, from: nat, k: nat)
    requires Run(states, steps) && from <= k <= |steps| && states[from].pending == NO_PENDING_WRITE
    ensures ReportedSince(states, steps, from, k, |states[from].recorded|)
  {
    RunLength(states, steps);
    NothingReportedYet(states, steps, from);
    hide *;
    for m := from to k
      invariant ReportedSince(states, steps, from, m, |states[from].recorded|)
    {
      StepKeepsReportedSince(states, steps, from, m, |states[from].recorded|);
    }
  }

  lemma RunLength(states: seq<State>, steps: seq<Step>)
    requires Run(states, steps)
    ensures |states| == |steps| + 1
  {
  }

  lemma RunStep(states: seq<State>, steps: seq<Step>, k: nat)
    requires Run(states, steps) && k < |steps|
    ensures |states| == |steps| + 1 && Inv(states[k]) && |states[k].memory| == states[k].code.size && Enabled(states[k], steps[k])
    ensures states[k + 1] == Next(states[k], steps[k])
  {
    RunKeepsInv(states, steps, k);
  }

  lemma NothingReportedYet(states: seq<State>, steps: seq<Step>, from: nat)
    requires Run(states, steps) && from <= |steps| && states[from].pending == NO_PENDING_WRITE
    ensures ReportedSince(states, steps, from, from, |states[from].recorded|)
  {
    RunLength(states, steps);
    hide Run, Inv;
    assert After(states[from], |states[from].recorded|) == [];
  }

  lemma StepKeepsReportedSince(states: seq<State>, steps: seq<Step>, from: nat, k: nat, count: nat)
    requires Run(states, steps) && from <= k < |steps|
    requires ReportedSince(states, steps, from, k, count)
    ensures ReportedSince(states, steps, from, k + 1, count)
  {
    RunStep(states, steps, k);
    hide Run, Inv, After, MergedAll;
    var s, t := states[k], states[k + 1];
    HullGrows(s, steps[k], count);
    forall thread, a: int | thread in t.drains && Covers(t.drains[thread], a)
      ensures Covers(MergedAll(After(t, count)), a) || StillDraining(states, steps, from, k + 1, thread, a)
    {
      if steps[k] != Exchange(thread) {
        assert thread in s.drains && s.drains[thread] == t.drains[thread];
        if StillDraining(states, steps, from, k, thread, a) {
          assert steps[k] != Notify(thread);
        }
      }
    }
  }

  /** One step's hull covers at least what it did, and at least what is then pending. */
  lemma HullGrows(s: State, step: Step, count: nat)
    requires Inv(s) && Enabled(s, step) && count <= |s.recorded|
    requires WellFormed(s.code, MergedAll(After(s, count)))
    requires forall a: int :: Covers(s.pending, a) ==> Covers(MergedAll(After(s, count)), a)
    ensures var t := Next(s, step); var hull := MergedAll(After(t, count));
            && count <= |t.recorded| && t.code == s.code && WellFormed(t.code, hull)
            && (forall a: int :: Covers(MergedAll(After(s, count)), a) ==> Covers(hull, a))
            && (forall a: int :: Covers(t.pending, a) ==> Covers(hull, a))
  {
    hide MergedAll, Coherent, NothingLost, CacheFormed, NothingRefused, WellFormed, Evicted;
    var t := Next(s, step);
    if step.CompareExchange? && |t.recorded| > |s.recorded| {
      var write := s.reports[step.thread].write;
      var recorded := Recorded(write, |s.notified|);
      assert After(t, count) == After(s, count) + [recorded];
      MergedAllNext(After(s, count), recorded);
      MergeIsMonotone(s.code, s.pending, MergedAll(After(s, count)), write);
      MergeKeepsBoth(s.code, MergedAll(After(s, count)), write);
    } else {
      assert t.recorded == s.recorded;
      NothingIsCovered();
    }
  }

  lemma NothingIsCovered()
    ensures forall a: int :: !Covers(NO_PENDING_WRITE, a)
  {
  }

  lemma StillDrainingIsHeld(states: seq<State>, steps: seq<Step>, from: nat, k: nat, thread: Thread, address: int)
    requires Run(states, steps) && from <= k <= |steps| && StillDraining(states, steps, from, k, thread, address)
    ensures thread in states[k].drains && states[k].drains[thread] == states[from].drains[thread]
  {
    RunLength(states, steps);
    DrainingSteps(states, steps, from, k, thread, address);
    hide *;
    for m := from to k
      invariant thread in states[m].drains && states[m].drains[thread] == states[from].drains[thread]
    {
      RunStep(states, steps, m);
      OtherStepsKeepTheDrain(states[m], steps[m], thread);
    }
  }

  lemma DrainingSteps(states: seq<State>, steps: seq<Step>, from: nat, k: nat, thread: Thread, address: int)
    requires |states| == |steps| + 1 && from <= k <= |steps| && StillDraining(states, steps, from, k, thread, address)
    ensures thread in states[from].drains && forall m :: from <= m < k ==> steps[m] != Notify(thread)
  {
    hide Covers;
  }

  lemma OtherStepsKeepTheDrain(s: State, step: Step, thread: Thread)
    requires |s.memory| == s.code.size && Enabled(s, step) && thread in s.drains && step != Notify(thread)
    ensures thread in Next(s, step).drains && Next(s, step).drains[thread] == s.drains[thread]
  {
    hide Merge, DrainRange, Evicted;
  }

  ghost predicate Grown(s: State, t: State) {
    s.recorded <= t.recorded && s.notified <= t.notified && s.code == t.code
  }

  lemma GrownIsTransitive(s: State, t: State, u: State)
    requires Grown(s, t) && Grown(t, u)
    ensures Grown(s, u)
  {
  }

  lemma GrownIsReflexive(s: State)
    ensures Grown(s, s)
  {
  }

  lemma StepLogs(s: State, step: Step)
    requires Inv(s) && Enabled(s, step)
    ensures Grown(s, Next(s, step))
  {
    hide Coherent, NothingLost, NothingRefused, WordsFormed, CacheFormed, Merge, DrainRange, Evicted;
  }

  /** Recorded and notified only ever grow. */
  lemma LogsGrow(states: seq<State>, steps: seq<Step>, from: nat, k: nat)
    requires Run(states, steps) && from <= k <= |steps|
    ensures Grown(states[from], states[k])
  {
    RunLength(states, steps);
    hide *;
    GrownIsReflexive(states[from]);
    for m := from to k
      invariant Grown(states[from], states[m])
    {
      RunStep(states, steps, m);
      StepLogs(states[m], steps[m]);
      GrownIsTransitive(states[from], states[m], states[m + 1]);
    }
  }

  /** A byte was notified since, or some drain exchanged out before `from` still holds it. */
  ghost predicate Delivered(states: seq<State>, steps: seq<Step>, from: nat, k: nat, after: nat, address: int)
    requires |states| == |steps| + 1 && from <= k <= |steps|
  {
    NotifiedSince(states[k], after, address)
    || exists thread :: StillDraining(states, steps, from, k, thread, address)
  }

  lemma {:induction false} DeliveryGoesOn(states: seq<State>, steps: seq<Step>, from: nat, k: nat, after: nat, address: int)
    requires Run(states, steps) && from <= k <= |steps| && after <= |states[from].notified|
    requires Delivered(states, steps, from, from, after, address)
    ensures Delivered(states, steps, from, k, after, address)
    decreases k
  {
    RunLength(states, steps);
    hide Inv, Run, StillDraining, Next, NotifiedSince;
    if from < k {
      var before := k - 1;
      DeliveryGoesOn(states, steps, from, before, after, address);
      LogsGrow(states, steps, from, before);
      LogsGrow(states, steps, before, k);
      if NotifiedSince(states[before], after, address) {
        NotifiedStays(states[before], states[k], after, address);
      } else {
        var thread :| StillDraining(states, steps, from, before, thread, address);
        DrainingGoesOn(states, steps, from, before, after, thread, address);
      }
    }
  }

  lemma NotifiedStays(s: State, t: State, after: nat, address: int)
    requires s.notified <= t.notified && NotifiedSince(s, after, address)
    ensures NotifiedSince(t, after, address)
  {
    var n :| after <= n < |s.notified| && s.notified[n].0 <= address < s.notified[n].0 as int + s.notified[n].1;
    assert t.notified[n] == s.notified[n];
  }

  /** A word being drained is either still being drained a step later, or has just been notified. */
  lemma DrainingGoesOn(states: seq<State>, steps: seq<Step>, from: nat, k: nat, after: nat, thread: Thread, address: int)
    requires Run(states, steps) && from <= k < |steps| && after <= |states[k].notified|
    requires StillDraining(states, steps, from, k, thread, address)
    ensures Delivered(states, steps, from, k + 1, after, address)
  {
    if steps[k] == Notify(thread) {
      StillDrainingIsHeld(states, steps, from, k, thread, address);
      RunKeepsInv(states, steps, k);
      hide Inv;
      NotifyNotifies(states[k], thread, after, address);
    } else {
      assert StillDraining(states, steps, from, k + 1, thread, address);
    }
  }

  lemma NotifyNotifies(s: State, thread: Thread, after: nat, address: int)
    requires Inv(s) && thread in s.drains && Covers(s.drains[thread], address) && after <= |s.notified|
    ensures NotifiedSince(Next(s, Notify(thread)), after, address)
  {
    DrainRangeIsCovered(s.code, s.drains[thread]);
    var t := Next(s, Notify(thread));
    assert t.notified[|s.notified|] == DrainRange(s.code, s.drains[thread]).value;
  }

  /** A drain of another thread that was under way when `thread` exchanged at `i`, and still is. */
  ghost predicate OtherDrain(states: seq<State>, steps: seq<Step>, i: nat, k: nat, thread: Thread, other: Thread, address: int)
    requires |states| == |steps| + 1 && i < k <= |steps|
  {
    other != thread && StillDraining(states, steps, i + 1, k, other, address)
  }

  /** Whatever other threads do meanwhile, once a drain's own word is notified every byte of every
      report completed before its exchange has been notified, or is in the hands of another drain
      that was already under way. */
  lemma EarlierReportsAreDelivered(states: seq<State>, steps: seq<Step>, i: nat, j: nat, k: nat, thread: Thread,
                                   report: nat, address: int)
    requires Run(states, steps) && i < j < k <= |steps|
    requires steps[i] == Exchange(thread) && steps[j] == Notify(thread)
    requires report < |states[i].recorded| && states[i].recorded[report].write.Has(address)
    ensures NotifiedSince(states[k], states[i].recorded[report].after, address)
            || exists other :: OtherDrain(states, steps, i, k, thread, other, address)
  {
    RunKeepsInv(states, steps, i);
    var s, t, after := states[i], states[i + 1], states[i].recorded[report].after;
    assert Accounted(s, s.recorded[report], address);
    if other :| other in s.drains && Covers(s.drains[other], address) {
      assert StillDraining(states, steps, i + 1, i + 1, other, address);
    }
    if Covers(s.pending, address) {
      assert StillDraining(states, steps, i + 1, i + 1, thread, address);
    }
    var from := i + 1;
    DeliveryGoesOn(states, steps, from, k, after, address);
    if exists other {:trigger StillDraining(states, steps, from, k, other, address)} :: StillDraining(states, steps, from, k, other, address) {
      var other :| StillDraining(states, steps, from, k, other, address);
      assert OtherDrain(states, steps, i, k, thread, other, address);
    }
  }

  /** With no other drain between, every earlier report is notified and no drain is left. */
  lemma SoleDrainDeliversEverything(states: seq<State>, steps: seq<Step>, i: nat, j: nat, thread: Thread)
    requires Run(states, steps) && i < j < |steps| && states[i].drains == map[]
    requires steps[i] == Exchange(thread) && steps[j] == Notify(thread)
    requires forall m :: i < m < j ==> !steps[m].Exchange? && !steps[m].Notify?
    ensures states[j + 1].drains == map[]
    ensures forall r, address {:trigger states[i].recorded[r].write.Has(address)} ::
              0 <= r < |states[i].recorded| && states[i].recorded[r].write.Has(address) ==>
                NotifiedSince(states[j + 1], states[i].recorded[r].after, address)
  {
    DrainsStand(states, steps, i + 1, j);
    forall r, address | 0 <= r < |states[i].recorded| && states[i].recorded[r].write.Has(address)
      ensures NotifiedSince(states[j + 1], states[i].recorded[r].after, address)
    {
      EarlierReportsAreDelivered(states, steps, i, j, j + 1, thread, r, address);
    }
  }

  lemma {:induction false} DrainsStand(states: seq<State>, steps: seq<Step>, from: nat, k: nat)
    requires Run(states, steps) && from <= k <= |steps|
    requires forall m :: from <= m < k ==> !steps[m].Exchange? && !steps[m].Notify?
    ensures states[k].drains == states[from].drains
    decreases k
  {
    if from < k {
      DrainsStand(states, steps, from, k - 1);
      assert !steps[k - 1].Exchange? && !steps[k - 1].Notify?;
    }
  }

  /** A report still in flight, one completed since the exchange at `i`, or a drain that was under
      way before it accounts for the address. */
  ghost predicate ReportedLate(states: seq<State>, steps: seq<Step>, i: nat, k: nat, thread: Thread, address: int)
    requires |states| == |steps| + 1 && i < k <= |steps|
  {
    || (exists other :: other in states[k].reports && states[k].reports[other].write.Has(address))
    || Covers(MergedAll(After(states[k], |states[i].recorded|)), address)
    || (exists other :: OtherDrain(states, steps, i, k, thread, other, address))
  }

  /** ExecuteOriginal, among any number of writers and other drains: once its own drain has
      notified, a cached translation differs from guest memory only in words that late reports
      account for. */
  lemma DrainedCallIsStaleOnlyWhereLate(states: seq<State>, steps: seq<Step>, i: nat, j: nat, k: nat, thread: Thread,
                                        entry: u32, address: int)
    requires Run(states, steps) && i < j < k <= |steps|
    requires steps[i] == Exchange(thread) && steps[j] == Notify(thread)
    ensures var s := states[k];
            Inv(s) && (entry in s.cache && entry <= address < s.cache[entry].last as int + 4 && Stale(s, entry, address) ==>
              exists other: int :: SameWord(address, other) && ReportedLate(states, steps, i, k, thread, other))
  {
    RunKeepsInv(states, steps, k);
    var s := states[k];
    if entry in s.cache && entry <= address < s.cache[entry].last as int + 4 && Stale(s, entry, address) {
      assert WordCovered(s, address);
      var other: int :| SameWord(address, other) && Covered(s, other);
      CoveredIsReportedLate(states, steps, i, j, k, thread, other);
    }
  }

  lemma CoveredIsReportedLate(states: seq<State>, steps: seq<Step>, i: nat, j: nat, k: nat, thread: Thread, address: int)
    requires Run(states, steps) && i < j < k <= |steps|
    requires steps[i] == Exchange(thread) && steps[j] == Notify(thread)
    requires Covered(states[k], address)
    ensures ReportedLate(states, steps, i, k, thread, address)
  {
    WordsAreReportedSince(states, steps, i + 1, k);
    assert |states[i + 1].recorded| == |states[i].recorded|;
    var s := states[k];
    if drainer :| drainer in s.drains && Covers(s.drains[drainer], address) {
      if StillDraining(states, steps, i + 1, k, drainer, address) {
        assert OtherDrain(states, steps, i, k, thread, drainer, address);
      }
    }
  }

  /** The call starts with every cached translation equal to guest memory, its own entry's among
      them, when no report is in flight, none was completed since the exchange, and the drains
      that were under way then have notified. */
  lemma DrainedCallStartsFresh(states: seq<State>, steps: seq<Step>, i: nat, j: nat, k: nat, thread: Thread)
    requires Run(states, steps) && i < j < k <= |steps|
    requires steps[i] == Exchange(thread) && steps[j] == Notify(thread)
    requires states[k].reports == map[] && |states[k].recorded| == |states[i].recorded|
    requires forall other :: other in states[i].drains ==> exists m :: i < m < k && steps[m] == Notify(other)
    ensures Inv(states[k]) && forall e :: e in states[k].cache ==> Fresh(states[k], e)
    ensures k < |steps| && steps[k].Translate? ==>
              var called := states[k + 1];
              Inv(called) && steps[k].entry in called.cache && forall e :: e in called.cache ==> Fresh(called, e)
  {
    RunKeepsInv(states, steps, k);
    var s := states[k];
    forall e | e in s.cache
      ensures Fresh(s, e)
    {
      var current := GuestBytes(s, e, s.cache[e].last as int + 4);
      forall n | 0 <= n < |current|
        ensures s.cache[e].bytes[n] == current[n]
      {
        DrainedCallIsStaleOnlyWhereLate(states, steps, i, j, k, thread, e, e + n);
        NothingIsReportedLate(states, steps, i, k, thread);
        assert !Stale(s, e, e + n);
      }
    }
    if k < |steps| && steps[k].Translate? {
      RunKeepsInv(states, steps, k + 1);
      TranslateKeepsFresh(s, steps[k]);
    }
  }

  lemma NothingIsReportedLate(states: seq<State>, steps: seq<Step>, i: nat, k: nat, thread: Thread)
    requires Run(states, steps) && i < k <= |steps| && steps[i] == Exchange(thread)
    requires states[k].reports == map[] && |states[k].recorded| == |states[i].recorded|
    requires forall other :: other in states[i].drains ==> exists m :: i < m < k && steps[m] == Notify(other)
    ensures forall address :: !ReportedLate(states, steps, i, k, thread, address)
  {
    forall address
      ensures !ReportedLate(states, steps, i, k, thread, address)
    {
      forall other
        ensures !OtherDrain(states, steps, i, k, thread, other, address)
      {
        if other != thread && other in states[i + 1].drains {
          var m :| i < m < k && steps[m] == Notify(other);
        }
      }
    }
  }

  lemma TranslateKeepsFresh(s: State, step: Step)
    requires Inv(s) && Enabled(s, step) && step.Translate? && forall e :: e in s.cache ==> Fresh(s, e)
    ensures var t := Next(s, step);
            Inv(t) && step.entry in t.cache && forall e :: e in t.cache ==> Fresh(t, e)
  {
    NextKeepsInv(s, step);
    TranslateAdds(s, step);
    var t := Next(s, step);
    InvFormed(s);
    InvFormed(t);
    hide Inv, Next, Enabled, TranslationFormed, CacheFormed;
    forall e | e in t.cache
      ensures Fresh(t, e)
    {
      FormedAt(t, e);
      if e != step.entry {
        FormedAt(s, e);
        FreshCarries(s, t, e);
      }
    }
  }

  lemma InvFormed(s: State)
    requires Inv(s)
    ensures |s.memory| == s.code.size && CacheFormed(s)
  {
  }

  lemma FormedAt(s: State, e: u32)
    requires CacheFormed(s) && e in s.cache
    ensures TranslationFormed(s, e, s.cache[e])
  {
    hide TranslationFormed;
  }

  lemma TranslateAdds(s: State, step: Step)
    requires |s.memory| == s.code.size && Enabled(s, step) && step.Translate?
    ensures var t := Next(s, step);
            && t.memory == s.memory && t.code == s.code && t.cache.Keys == s.cache.Keys + {step.entry}
            && (forall e :: e in s.cache ==> e != step.entry && t.cache[e] == s.cache[e])
            && TranslationFormed(t, step.entry, t.cache[step.entry]) && Fresh(t, step.entry)
  {
  }

  lemma FreshCarries(s: State, t: State, e: u32)
    requires t.memory == s.memory && t.code == s.code && |s.memory| == s.code.size
    requires e in s.cache && e in t.cache && t.cache[e] == s.cache[e] && TranslationFormed(s, e, s.cache[e])
    requires Fresh(s, e)
    ensures Fresh(t, e)
  {
  }
}
