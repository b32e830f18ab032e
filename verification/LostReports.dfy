/** Which reports a drain passes on, for every code range that ends inside the address space: the
    word's "nothing pending" is also the address 0xFFFF_FFFF. */
module LostReports {
  import opened Bytes
  import opened ModuleContract
  import opened PendingWrites
  import opened WriteCoherence
  import opened DrainedCalls

  /** How many reports had completed when the word was last exchanged out. */
  function LastExchange(states: seq<State>, steps: seq<Step>, k: nat): nat
    requires |states| == |steps| + 1 && k <= |steps|
  {
    if k == 0 then 0
    else if steps[k - 1].Exchange? then |states[k].recorded|
    else LastExchange(states, steps, k - 1)
  }

  predicate InCode(code: CodeRange, write: Interval) {
    code.base <= write.first <= write.last < code.End()
  }

  /** Every report in flight or completed lies in the code range, which ends in the address space. */
  ghost predicate ReportsInCode(s: State) {
    && s.code.End() <= 0x1_0000_0000 && |s.memory| == s.code.size
    && (forall thread :: thread in s.reports ==> InCode(s.code, s.reports[thread].write))
    && (forall k :: 0 <= k < |s.recorded| ==> InCode(s.code, s.recorded[k].write))
  }

  /** The word is the hull of the reports after the first `count`. */
  ghost predicate WordIsHull(s: State, count: nat) {
    count <= |s.recorded| && s.pending == MergedAll(After(s, count))
  }

  lemma StepKeepsReports(s: State, step: Step)
    requires ReportsInCode(s) && Enabled(s, step)
    ensures ReportsInCode(Next(s, step))
  {
    hide Evicted, Touched, StoreIsReported, DrainRange, Merge;
    if step.Load? {
      ClipIsIntersection(s.code, step.address, step.length);
    }
  }

  lemma StepKeepsHull(s: State, step: Step, count: nat)
    requires |s.memory| == s.code.size && Enabled(s, step) && WordIsHull(s, count)
    ensures WordIsHull(Next(s, step), if step.Exchange? then |Next(s, step).recorded| else count)
  {
    hide Evicted, Touched, StoreIsReported, DrainRange, Merge, MergedAll;
    var t := Next(s, step);
    if step.Exchange? {
      NothingMerged();
    } else if |t.recorded| > |s.recorded| {
      var recorded := t.recorded[|s.recorded|];
      assert After(t, count) == After(s, count) + [recorded];
      MergedAllNext(After(s, count), recorded);
    } else {
      assert t.recorded == s.recorded && t.pending == s.pending;
    }
  }

  lemma NothingMerged()
    ensures MergedAll([]) == NO_PENDING_WRITE
  {
  }

  /** In every interleaving the word is exactly the hull of the reports completed since it was
      last exchanged out. */
  lemma WordHoldsTheHull(states: seq<State>, steps: seq<Step>, k: nat)
    requires Stepwise(states, steps) && Armed(states[0]) && k <= |steps|
    ensures ReportsInCode(states[k]) && WordIsHull(states[k], LastExchange(states, steps, k))
  {
    NothingMerged();
    assert After(states[0], 0) == [];
    hide ReportsInCode, WordIsHull, Enabled, Next, MergedAll;
    StartsEmpty(states[0]);
    for m := 0 to k
      invariant ReportsInCode(states[m]) && WordIsHull(states[m], LastExchange(states, steps, m))
    {
      StepKeepsReports(states[m], steps[m]);
      StepKeepsHull(states[m], steps[m], LastExchange(states, steps, m));
    }
  }

  lemma StartsEmpty(s: State)
    requires Armed(s)
    ensures ReportsInCode(s) && WordIsHull(s, 0)
  {
    assert After(s, 0) == [];
  }

  predicate SomeStartsBelowTheTop(recorded: seq<Recorded>) {
    exists k :: 0 <= k < |recorded| && recorded[k].write.first != NO_ADDRESS
  }

  /** A hull covers all its reports exactly when one of them starts below the top. */
  lemma HullCoversIff(recorded: seq<Recorded>)
    requires |recorded| > 0 && forall k :: 0 <= k < |recorded| ==> recorded[k].write.first <= recorded[k].write.last
    ensures (forall k, a {:trigger recorded[k].write.Has(a)} ::
               0 <= k < |recorded| && recorded[k].write.Has(a) ==> Covers(MergedAll(recorded), a))
            <==> SomeStartsBelowTheTop(recorded)
  {
    hide MergedAll, First, Last;
    MergedAllIsHull(recorded);
    assert recorded[0].write.Has(recorded[0].write.first);
  }

  /** Notify is passed the address for this word. */
  predicate Passed(code: CodeRange, word: u64, address: int) {
    match DrainRange(code, word)
    case None => false
    case Some((start, length)) => start <= address < start as int + length
  }

  /** A drain passes on every byte of every report since the last exchange if and only if there is
      none, or one of them starts below 0xFFFF_FFFF. Otherwise all of them are reports of that one
      byte, and it is lost. */
  lemma DrainDeliversIff(states: seq<State>, steps: seq<Step>, k: nat)
    requires Stepwise(states, steps) && Armed(states[0]) && k < |steps| && steps[k].Exchange?
    ensures var s := states[k]; var later := After(s, LastExchange(states, steps, k));
            && steps[k].thread in states[k + 1].drains && states[k + 1].drains[steps[k].thread] == s.pending
            && ((forall r, a {:trigger later[r].write.Has(a)} ::
                   0 <= r < |later| && later[r].write.Has(a) ==> Passed(s.code, s.pending, a))
                <==> |later| == 0 || SomeStartsBelowTheTop(later))
            && (!SomeStartsBelowTheTop(later) ==>
                  DrainRange(s.code, s.pending) == None
                  && forall r :: 0 <= r < |later| ==> later[r].write == Interval(NO_ADDRESS, NO_ADDRESS))
  {
    WordHoldsTheHull(states, steps, k);
    var s := states[k];
    var later := After(s, LastExchange(states, steps, k));
    HullIsFormed(s.code, later);
    DrainPassesWhatIsCovered(s.code, s.pending);
    hide MergedAll, Passed, DrainRange;
    if |later| > 0 {
      HullCoversIff(later);
      if !SomeStartsBelowTheTop(later) {
        MergedAllIsHull(later);
        TopWordIsDropped(s.code, s.pending);
      }
    } else {
      NothingMerged();
      TopWordIsDropped(s.code, s.pending);
    }
  }

  lemma TopWordIsDropped(code: CodeRange, word: u64)
    requires First(word) == NO_ADDRESS
    ensures DrainRange(code, word) == None
  {
  }

  lemma DrainPassesWhatIsCovered(code: CodeRange, word: u64)
    requires WellFormed(code, word) && code.End() <= 0x1_0000_0000
    ensures forall a: int :: Passed(code, word, a) <==> Covers(word, a)
  {
    hide Covers;
    DrainRangeIsCovered(code, word);
  }

  lemma {:induction false} HullIsFormed(code: CodeRange, recorded: seq<Recorded>)
    requires code.End() <= 0x1_0000_0000 && forall k :: 0 <= k < |recorded| ==> InCode(code, recorded[k].write)
    ensures WellFormed(code, MergedAll(recorded))
    decreases |recorded|
  {
    if |recorded| > 0 {
      HullIsFormed(code, recorded[..|recorded| - 1]);
      MergeKeepsBoth(code, MergedAll(recorded[..|recorded| - 1]), recorded[|recorded| - 1].write);
    }
  }
}
