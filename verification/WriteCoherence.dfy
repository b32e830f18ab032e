/** Writers, drains, translations and guest stores, interleaved in every order.

    A report (RecordVirtualWrite) is a load followed by compare-exchanges until one
    succeeds; a drain (DrainObservedWrites) is an exchange followed by Notify. Any
    number of threads take these steps in any order. */
module WriteCoherence {
  import opened Bytes
  import opened ModuleContract
  import opened PendingWrites

  type Thread = nat

  /** A translated function: where its last instruction is, and the guest bytes it
      was translated from. */
  datatype Translation = Translation(last: u32, bytes: seq<byte>)

  /** A report between its load and its successful compare-exchange. */
  datatype Report = Report(write: Interval, current: u64)

  /** A completed report, and how many ranges had been notified by then. */
  datatype Recorded = Recorded(write: Interval, after: nat)

  datatype State = State(
    code: CodeRange,
    memory: seq<byte>,
    cache: map<u32, Translation>,
    pending: u64,
    reports: map<Thread, Report>,
    drains: map<Thread, u64>,
    recorded: seq<Recorded>,
    notified: seq<(u32, u32)>,
    observedWrites: nat,
    translations: nat,
    invalidations: nat)

  datatype Step =
    | Load(thread: Thread, address: u32, length: u32)
    | CompareExchange(thread: Thread, spurious: bool)
    | Exchange(thread: Thread)
    | Notify(thread: Thread)
    | Store(start: u32, bytes: seq<byte>)
    | Translate(entry: u32, last: u32)

  // ---- What each step does ----

  /** A function holds an instruction when it lies between its first and last. */
  predicate HoldsInstruction(entry: u32, translation: Translation, instruction: int) {
    entry <= instruction <= translation.last
  }

  /** Notify looks up every aligned instruction a range touches. */
  ghost predicate Touched(entry: u32, translation: Translation, start: u32, length: u32) {
    exists instruction: int :: IsTouched(instruction, start, length) && HoldsInstruction(entry, translation, instruction)
  }

  predicate IsTouched(instruction: int, start: u32, length: u32) {
    instruction % 4 == 0 && start / 4 * 4 <= instruction < start as int + length
  }

  ghost function Evicted(cache: map<u32, Translation>, start: u32, length: u32): set<u32> {
    set entry | entry in cache && Touched(entry, cache[entry], start, length)
  }

  /** A notified range evicts exactly the functions that have a byte in a word it touches. */
  lemma EvictedIffInATouchedWord(cache: map<u32, Translation>, start: u32, length: u32, entry: u32)
    requires entry in cache && entry % 4 == 0 && cache[entry].last % 4 == 0 && length > 0
    ensures entry in Evicted(cache, start, length) <==>
            exists byte_: int, other: int :: SameWord(byte_, other) && start <= other < start as int + length
                                             && entry <= byte_ < cache[entry].last as int + 4
  {
    if entry in Evicted(cache, start, length) {
      var i: int :| IsTouched(i, start, length) && HoldsInstruction(entry, cache[entry], i);
      assert SameWord(i, if i < start then start else i);
    }
    if byte_: int, other: int :| SameWord(byte_, other) && start <= other < start as int + length
                                 && entry <= byte_ < cache[entry].last as int + 4 {
      var i := other / 4 * 4;
      assert IsTouched(i, start, length) && HoldsInstruction(entry, cache[entry], i);
    }
  }

  function GuestBytes(s: State, start: int, end: int): seq<byte>
    requires s.code.base <= start <= end <= s.code.base as int + |s.memory|
  {
    s.memory[start - s.code.base..end - s.code.base]
  }

  ghost predicate Enabled(s: State, step: Step) {
    match step
    case Load(thread, address, length) => thread !in s.reports && Clip(s.code, address, length).Some?
    case CompareExchange(thread, _) => thread in s.reports
    case Exchange(thread) => thread !in s.drains
    case Notify(thread) => thread in s.drains
    case Store(start, bytes) =>
      s.code.base <= start && start as int + |bytes| <= s.code.End() && StoreIsReported(s, start, bytes)
    case Translate(entry, last) =>
      entry !in s.cache && entry % 4 == 0 && last % 4 == 0 && s.code.base <= entry <= last && last as int + 4 <= s.code.End()
  }

  ghost function Next(s: State, step: Step): State
    requires |s.memory| == s.code.size && Enabled(s, step)
  {
    match step
    case Load(thread, address, length) =>
      s.(reports := s.reports[thread := Report(Clip(s.code, address, length).value, s.pending)])
    case CompareExchange(thread, spurious) =>
      var report := s.reports[thread];
      if !spurious && s.pending == report.current then
        s.(pending := Merge(s.pending, report.write),
           reports := s.reports - {thread},
           recorded := s.recorded + [Recorded(report.write, |s.notified|)],
           observedWrites := s.observedWrites + 1)
      else s.(reports := s.reports[thread := report.(current := s.pending)])
    case Exchange(thread) =>
      s.(pending := NO_PENDING_WRITE, drains := s.drains[thread := s.pending])
    case Notify(thread) =>
      var drained := s.(drains := s.drains - {thread});
      (match DrainRange(s.code, s.drains[thread])
       case None => drained
       case Some((start, length)) =>
         var evicted := Evicted(s.cache, start, length);
         drained.(cache := s.cache - evicted,
                  notified := s.notified + [(start, length)],
                  invalidations := s.invalidations + |evicted|))
    case Store(start, bytes) =>
      s.(memory := Patched(s.memory, start - s.code.base, bytes))
    case Translate(entry, last) =>
      s.(cache := s.cache[entry := Translation(last, GuestBytes(s, entry, last as int + 4))],
         translations := s.translations + 1)
  }

  // ---- What is kept ----

  /** An address some report still accounts for: pending, being merged, or drained
      out of the word but not yet notified. */
  ghost predicate Covered(s: State, address: int) {
    || Covers(s.pending, address)
    || (exists thread :: thread in s.reports && s.reports[thread].write.Has(address))
    || (exists thread :: thread in s.drains && Covers(s.drains[thread], address))
  }

  /** The page watch's contract: a store lands only on bytes a report accounts for. */
  ghost predicate StoreIsReported(s: State, start: u32, bytes: seq<byte>) {
    forall address :: start <= address < start as int + |bytes| ==> Covered(s, address)
  }

  ghost predicate WordsFormed(s: State) {
    && WellFormed(s.code, s.pending)
    && (forall thread :: thread in s.drains ==> WellFormed(s.code, s.drains[thread]))
    && (forall thread :: thread in s.reports ==>
          s.code.base <= s.reports[thread].write.first <= s.reports[thread].write.last < s.code.End())
  }

  predicate TranslationFormed(s: State, entry: u32, translation: Translation) {
    && entry % 4 == 0 && translation.last % 4 == 0
    && s.code.base <= entry <= translation.last && translation.last as int + 4 <= s.code.End()
    && |translation.bytes| == translation.last as int + 4 - entry
  }

  ghost predicate CacheFormed(s: State) {
    forall entry :: entry in s.cache ==> TranslationFormed(s, entry, s.cache[entry])
  }

  /** Byte `address` of a translation is not what guest memory holds there now. */
  predicate Stale(s: State, entry: u32, address: int)
    requires |s.memory| == s.code.size && entry in s.cache && TranslationFormed(s, entry, s.cache[entry])
    requires entry <= address < s.cache[entry].last as int + 4
  {
    s.cache[entry].bytes[address - entry] != s.memory[address - s.code.base]
  }

  ghost predicate WordCovered(s: State, address: int) {
    exists other: int :: SameWord(address, other) && Covered(s, other)
  }

  predicate SameWord(a: int, b: int) {
    a / 4 == b / 4
  }

  /** A cached translation differs from guest memory only in words a report accounts for. */
  ghost predicate Coherent(s: State)
    requires |s.memory| == s.code.size && CacheFormed(s)
  {
    forall entry, address {:trigger Stale(s, entry, address)} ::
      entry in s.cache && entry <= address < s.cache[entry].last as int + 4 && Stale(s, entry, address)
      ==> WordCovered(s, address)
  }

  /** Notified since the report completed. */
  ghost predicate NotifiedSince(s: State, after: nat, address: int) {
    exists k :: after <= k < |s.notified| && s.notified[k].0 <= address < s.notified[k].0 as int + s.notified[k].1
  }

  ghost predicate Accounted(s: State, recorded: Recorded, address: int) {
    || Covers(s.pending, address)
    || (exists thread :: thread in s.drains && Covers(s.drains[thread], address))
    || NotifiedSince(s, recorded.after, address)
  }

  /** No completed report is lost: each of its bytes is pending, drained, or was notified later. */
  ghost predicate NothingLost(s: State) {
    forall k, address {:trigger s.recorded[k].write.Has(address)} ::
      0 <= k < |s.recorded| && s.recorded[k].write.Has(address) ==> Accounted(s, s.recorded[k], address)
  }

  /** Every range passed to Notify was one it accepts. */
  ghost predicate NothingRefused(s: State) {
    forall k :: 0 <= k < |s.notified| ==> NotifyAccepts(s.code, s.notified[k].0, s.notified[k].1)
  }

  ghost predicate Inv(s: State) {
    && s.code.base % 4 == 0 && s.code.size % 4 == 0 && s.code.size != 0
    && s.code.End() <= NO_ADDRESS
    && |s.memory| == s.code.size
    && WordsFormed(s)
    && CacheFormed(s)
    && Coherent(s)
    && (forall k :: 0 <= k < |s.recorded| ==> s.recorded[k].after <= |s.notified|)
    && NothingLost(s)
    && NothingRefused(s)
    && s.observedWrites == |s.recorded|
    && s.translations == |s.cache| + s.invalidations
  }

  /** The state Arm leaves: nothing cached, pending or in flight. */
  ghost predicate Armed(s: State) {
    && s.code.base % 4 == 0 && s.code.size % 4 == 0 && s.code.size != 0
    && s.code.End() <= 0x1_0000_0000
    && |s.memory| == s.code.size
    && s.cache == map[] && s.pending == NO_PENDING_WRITE && s.reports == map[] && s.drains == map[]
    && s.recorded == [] && s.notified == [] && s.observedWrites == 0
    && s.translations == 0 && s.invalidations == 0
  }

  /** The same for code that ends below the address that means "nothing pending". */
  ghost predicate Initial(s: State) {
    Armed(s) && s.code.End() <= NO_ADDRESS
  }

  ghost predicate Stepwise(states: seq<State>, steps: seq<Step>) {
    && |states| == |steps| + 1
    && forall k :: 0 <= k < |steps| ==>
         |states[k].memory| == states[k].code.size && Enabled(states[k], steps[k])
         && states[k + 1] == Next(states[k], steps[k])
  }

  ghost predicate Run(states: seq<State>, steps: seq<Step>) {
    Stepwise(states, steps) && Initial(states[0])
  }

  // ---- Proofs, one step at a time ----

  /** Each address stays accounted for by some report across the step. */
  ghost predicate CoverageKept(s: State, t: State) {
    forall address :: Covered(s, address) ==> Covered(t, address)
  }

  lemma CoherentIfCoverageKept(s: State, t: State)
    requires Inv(s) && CoverageKept(s, t)
    requires t.code == s.code && t.memory == s.memory && t.cache == s.cache
    ensures CacheFormed(t) && Coherent(t)
  {
    forall entry, address |
      entry in t.cache && entry <= address < t.cache[entry].last as int + 4 && Stale(t, entry, address)
      ensures WordCovered(t, address)
    {
      assert Stale(s, entry, address);
      var other: int :| SameWord(address, other) && Covered(s, other);
      assert Covered(t, other);
    }
  }

  /** Completed reports stay accounted for. */
  ghost predicate AccountsKept(s: State, t: State) {
    forall k, address {:trigger Accounted(t, s.recorded[k], address)} ::
      0 <= k < |s.recorded| && Accounted(s, s.recorded[k], address) ==> Accounted(t, s.recorded[k], address)
  }

  lemma NothingLostIfAccountsKept(s: State, t: State)
    requires NothingLost(s) && AccountsKept(s, t) && t.recorded == s.recorded
    ensures NothingLost(t)
  {
    forall k, address | 0 <= k < |t.recorded| && t.recorded[k].write.Has(address)
      ensures Accounted(t, t.recorded[k], address)
    {
      assert s.recorded[k].write.Has(address);
      assert Accounted(s, s.recorded[k], address);
    }
  }

  lemma LoadKeepsInv(s: State, step: Step)
    requires Inv(s) && step.Load? && Enabled(s, step)
    ensures Inv(Next(s, step))
  {
    var t := Next(s, step);
    ClipIsIntersection(s.code, step.address, step.length);
    ReportsGrow(s, t);
    CoherentIfCoverageKept(s, t);
    NothingLostIfAccountsKept(s, t);
  }

  lemma ReportsGrow(s: State, t: State)
    requires t.pending == s.pending && t.drains == s.drains && t.notified == s.notified
    requires forall thread :: thread in s.reports ==> thread in t.reports && t.reports[thread].write == s.reports[thread].write
    ensures CoverageKept(s, t) && AccountsKept(s, t)
  {
    forall address | Covered(s, address) ensures Covered(t, address) {
      if thread :| thread in s.reports && s.reports[thread].write.Has(address) {
        assert t.reports[thread].write.Has(address);
      }
    }
  }

  lemma CompareExchangeKeepsInv(s: State, step: Step)
    requires Inv(s) && step.CompareExchange? && Enabled(s, step)
    ensures Inv(Next(s, step))
  {
    if !step.spurious && s.pending == s.reports[step.thread].current {
      ReportIsMerged(s, step);
    } else {
      ReportIsReloaded(s, step);
    }
  }

  lemma ReportIsReloaded(s: State, step: Step)
    requires Inv(s) && step.CompareExchange? && Enabled(s, step)
    requires step.spurious || s.pending != s.reports[step.thread].current
    ensures Inv(Next(s, step))
  {
    hide Covered, Accounted, Coherent, NothingLost, CoverageKept, AccountsKept, TranslationFormed, WellFormed;
    var t := Next(s, step);
    ReportsGrow(s, t);
    CoherentIfCoverageKept(s, t);
    NothingLostIfAccountsKept(s, t);
  }

  lemma ReportIsMerged(s: State, step: Step)
    requires Inv(s) && step.CompareExchange? && Enabled(s, step)
    requires !step.spurious && s.pending == s.reports[step.thread].current
    ensures Inv(Next(s, step))
  {
    hide Covered, Accounted, Coherent, NothingLost, CoverageKept, TranslationFormed, WellFormed, Covers, Merge;
    var t := Next(s, step);
    var report := s.reports[step.thread];
    MergeKeepsBoth(s.code, s.pending, report.write);
    ReportMoves(s, t, step.thread);
    CoherentIfCoverageKept(s, t);
    RecordedGrows(s, t, report.write);
  }

  /** A successful exchange moves a report's bytes from the report to the word. */
  lemma ReportMoves(s: State, t: State, thread: Thread)
    requires thread in s.reports && t.reports == s.reports - {thread} && t.drains == s.drains
    requires forall address: int :: Covers(s.pending, address) || s.reports[thread].write.Has(address) ==> Covers(t.pending, address)
    ensures CoverageKept(s, t)
  {
    forall address | Covered(s, address) ensures Covered(t, address) {
      if other :| other in s.reports && s.reports[other].write.Has(address) {
        if other != thread {
          assert t.reports[other].write.Has(address);
        }
      }
    }
  }

  lemma RecordedGrows(s: State, t: State, write: Interval)
    requires NothingLost(s)
    requires t.recorded == s.recorded + [Recorded(write, |s.notified|)]
    requires t.drains == s.drains && t.notified == s.notified
    requires forall address: int :: Covers(s.pending, address) || write.Has(address) ==> Covers(t.pending, address)
    ensures NothingLost(t)
  {
    forall k, address | 0 <= k < |t.recorded| && t.recorded[k].write.Has(address)
      ensures Accounted(t, t.recorded[k], address)
    {
      if k < |s.recorded| {
        assert s.recorded[k].write.Has(address);
        assert Accounted(s, s.recorded[k], address);
      }
    }
  }

  lemma ExchangeKeepsInv(s: State, step: Step)
    requires Inv(s) && step.Exchange? && Enabled(s, step)
    ensures Inv(Next(s, step))
  {
    var t := Next(s, step);
    WordMovesToDrain(s, t, step.thread);
    CoherentIfCoverageKept(s, t);
    NothingLostIfAccountsKept(s, t);
  }

  lemma WordMovesToDrain(s: State, t: State, thread: Thread)
    requires thread !in s.drains && t.drains == s.drains[thread := s.pending]
    requires t.reports == s.reports && t.notified == s.notified
    ensures CoverageKept(s, t) && AccountsKept(s, t)
  {
    assert thread in t.drains;
    forall other | other in s.drains ensures other in t.drains && t.drains[other] == s.drains[other] {}
    forall address | Covered(s, address) ensures Covered(t, address) {
      if other :| other in s.drains && Covers(s.drains[other], address) {
        assert Covers(t.drains[other], address);
      }
    }
    forall k, address | 0 <= k < |s.recorded| && Accounted(s, s.recorded[k], address)
      ensures Accounted(t, s.recorded[k], address)
    {
      if other :| other in s.drains && Covers(s.drains[other], address) {
        assert Covers(t.drains[other], address);
      }
    }
  }

  lemma NotifyKeepsInv(s: State, step: Step)
    requires Inv(s) && step.Notify? && Enabled(s, step)
    ensures Inv(Next(s, step))
  {
    var t := Next(s, step);
    DrainRangeIsCovered(s.code, s.drains[step.thread]);
    DrainAccounted(s, t, step.thread);
    NothingLostIfAccountsKept(s, t);
    NotifyKeepsCoherence(s, step);
    NotifyCountsEvictions(s, step);
  }

  /** Notify removes exactly the translations its range touches and counts each once. */
  lemma NotifyCountsEvictions(s: State, step: Step)
    requires |s.memory| == s.code.size && step.Notify? && Enabled(s, step)
    ensures var t := Next(s, step);
            && t.invalidations - s.invalidations == |s.cache| - |t.cache|
            && forall entry :: entry in s.cache ==>
                 if DrainRange(s.code, s.drains[step.thread]).Some?
                    && var (start, length) := DrainRange(s.code, s.drains[step.thread]).value;
                       Touched(entry, s.cache[entry], start, length)
                 then entry !in t.cache
                 else entry in t.cache && t.cache[entry] == s.cache[entry]
  {
    var t := Next(s, step);
    if DrainRange(s.code, s.drains[step.thread]).Some? {
      var (start, length) := DrainRange(s.code, s.drains[step.thread]).value;
      var evicted := Evicted(s.cache, start, length);
      assert t.cache.Keys == s.cache.Keys - evicted && evicted <= s.cache.Keys;
      assert |s.cache.Keys - evicted| == |s.cache.Keys| - |evicted|;
    }
  }

  lemma DrainAccounted(s: State, t: State, thread: Thread)
    requires thread in s.drains && t.drains == s.drains - {thread} && t.pending == s.pending
    requires s.notified <= t.notified
    requires forall k :: 0 <= k < |s.recorded| ==> s.recorded[k].after <= |s.notified|
    requires match DrainRange(s.code, s.drains[thread])
             case None => forall a: int :: !Covers(s.drains[thread], a)
             case Some(range) =>
               && t.notified == s.notified + [range]
               && forall a: int :: Covers(s.drains[thread], a) <==> range.0 <= a < range.0 as int + range.1
    ensures AccountsKept(s, t)
  {
    forall k, address | 0 <= k < |s.recorded| && Accounted(s, s.recorded[k], address)
      ensures Accounted(t, s.recorded[k], address)
    {
      if other :| other in s.drains && Covers(s.drains[other], address) {
        if other == thread {
          var last := |s.notified|;
          assert t.notified[last].0 <= address < t.notified[last].0 as int + t.notified[last].1;
        } else {
          assert Covers(t.drains[other], address);
        }
      } else if NotifiedSince(s, s.recorded[k].after, address) {
        var n :| s.recorded[k].after <= n < |s.notified| && s.notified[n].0 <= address < s.notified[n].0 as int + s.notified[n].1;
        assert t.notified[n] == s.notified[n];
      }
    }
  }

  lemma DrainedWordIsTouched(s: State, word: u64, entry: u32, address: int, drained: int)
    requires s.code.End() <= NO_ADDRESS && WellFormed(s.code, word) && Covers(word, drained)
    requires entry in s.cache && TranslationFormed(s, entry, s.cache[entry])
    requires entry <= address < s.cache[entry].last as int + 4 && SameWord(address, drained)
    ensures DrainRange(s.code, word).Some?
    ensures var (start, length) := DrainRange(s.code, word).value; entry in Evicted(s.cache, start, length)
  {
    DrainRangeIsCovered(s.code, word);
    var (start, length) := DrainRange(s.code, word).value;
    var instruction := drained / 4 * 4;
    assert IsTouched(instruction, start, length);
    assert HoldsInstruction(entry, s.cache[entry], instruction);
  }

  /** Every translation holding a drained byte is evicted, so what survives is still coherent. */
  lemma NotifyKeepsCoherence(s: State, step: Step)
    requires Inv(s) && step.Notify? && Enabled(s, step)
    ensures CacheFormed(Next(s, step)) && Coherent(Next(s, step))
  {
    var t := Next(s, step);
    var word := s.drains[step.thread];
    DrainRangeIsCovered(s.code, word);
    forall entry, address |
      entry in t.cache && entry <= address < t.cache[entry].last as int + 4 && Stale(t, entry, address)
      ensures WordCovered(t, address)
    {
      assert Stale(s, entry, address);
      var other: int :| SameWord(address, other) && Covered(s, other);
      if Covers(word, other) {
        DrainedWordIsTouched(s, word, entry, address, other);
        assert false;
      }
      if thread :| thread in s.drains && Covers(s.drains[thread], other) {
        assert Covers(t.drains[thread], other);
      }
      assert Covered(t, other);
    }
  }

  lemma StoreKeepsInv(s: State, step: Step)
    requires Inv(s) && step.Store? && Enabled(s, step)
    ensures Inv(Next(s, step))
  {
    var t := Next(s, step);
    ReportsGrow(s, t);
    NothingLostIfAccountsKept(s, t);
    forall entry, address |
      entry in t.cache && entry <= address < t.cache[entry].last as int + 4 && Stale(t, entry, address)
      ensures WordCovered(t, address)
    {
      if step.start <= address < step.start as int + |step.bytes| {
        assert Covered(s, address) && SameWord(address, address);
        assert Covered(t, address);
      } else {
        assert Stale(s, entry, address);
        var other: int :| SameWord(address, other) && Covered(s, other);
        assert Covered(t, other);
      }
    }
  }

  lemma TranslateKeepsInv(s: State, step: Step)
    requires Inv(s) && step.Translate? && Enabled(s, step)
    ensures Inv(Next(s, step))
  {
    var t := Next(s, step);
    ReportsGrow(s, t);
    NothingLostIfAccountsKept(s, t);
    TranslateKeepsCoherence(s, step);
  }

  /** A new translation is guest memory as it stands. */
  lemma TranslateKeepsCoherence(s: State, step: Step)
    requires Inv(s) && step.Translate? && Enabled(s, step)
    ensures CacheFormed(Next(s, step)) && Coherent(Next(s, step))
  {
    hide NothingLost, NothingRefused;
    var t := Next(s, step);
    ReportsGrow(s, t);
    forall entry, address |
      entry in t.cache && entry <= address < t.cache[entry].last as int + 4 && Stale(t, entry, address)
      ensures WordCovered(t, address)
    {
      assert entry != step.entry;
      assert Stale(s, entry, address);
      var other: int :| SameWord(address, other) && Covered(s, other);
      assert Covered(t, other);
    }
  }

  lemma NextKeepsInv(s: State, step: Step)
    requires Inv(s) && Enabled(s, step)
    ensures Inv(Next(s, step))
  {
    match step
    case Load(_, _, _) => LoadKeepsInv(s, step);
    case CompareExchange(_, _) => CompareExchangeKeepsInv(s, step);
    case Exchange(_) => ExchangeKeepsInv(s, step);
    case Notify(_) => NotifyKeepsInv(s, step);
    case Store(_, _) => StoreKeepsInv(s, step);
    case Translate(_, _) => TranslateKeepsInv(s, step);
  }

  lemma {:induction false} RunKeepsInv(states: seq<State>, steps: seq<Step>, k: nat)
    requires Run(states, steps) && k <= |steps|
    ensures Inv(states[k])
  {
    if k > 0 {
      RunKeepsInv(states, steps, k - 1);
      NextKeepsInv(states[k - 1], steps[k - 1]);
    }
  }

  // ---- Over whole runs ----

  /** In every state of every run: the word is empty or inside the code range, no
      completed report is lost, Notify refused nothing, and each translation made is
      either still cached or was counted when evicted. */
  lemma EveryReportIsDelivered(states: seq<State>, steps: seq<Step>, k: nat)
    requires Run(states, steps) && k <= |steps|
    ensures var s := states[k];
            && WellFormed(s.code, s.pending)
            && NothingLost(s)
            && NothingRefused(s)
            && s.observedWrites == |s.recorded|
            && s.translations == |s.cache| + s.invalidations
  {
    RunKeepsInv(states, steps, k);
  }

  /** A translation equal to the guest memory it covers. */
  ghost predicate Fresh(s: State, entry: u32)
    requires |s.memory| == s.code.size && entry in s.cache && TranslationFormed(s, entry, s.cache[entry])
  {
    s.cache[entry].bytes == GuestBytes(s, entry, s.cache[entry].last as int + 4)
  }

  /** Nothing pending and nothing in flight. */
  ghost predicate Quiet(s: State) {
    s.pending == NO_PENDING_WRITE && s.reports == map[] && s.drains == map[]
  }

  lemma QuietIsFresh(s: State)
    requires Inv(s) && Quiet(s)
    ensures forall entry :: entry in s.cache ==> Fresh(s, entry)
  {
    forall entry | entry in s.cache
      ensures Fresh(s, entry)
    {
      var current := GuestBytes(s, entry, s.cache[entry].last as int + 4);
      forall i | 0 <= i < |current|
        ensures s.cache[entry].bytes[i] == current[i]
      {
        assert !WordCovered(s, entry + i);
        assert !Stale(s, entry, entry + i);
      }
    }
  }

  /** A drain on its own: with no report or drain in flight it leaves every cached translation
      equal to guest memory, and so does translating after it. */
  lemma UndisturbedDrainStartsFresh(states: seq<State>, steps: seq<Step>, thread: Thread, entry: u32, last: u32)
    requires Run(states, steps)
    requires var s := states[|steps|]; s.reports == map[] && s.drains == map[]
    ensures var s := states[|steps|];
            Inv(s) && Enabled(s, Exchange(thread))
    ensures var exchanged := Next(states[|steps|], Exchange(thread));
            |exchanged.memory| == exchanged.code.size && Enabled(exchanged, Notify(thread))
    ensures var drained := Next(Next(states[|steps|], Exchange(thread)), Notify(thread));
            Inv(drained) && Quiet(drained) && forall e :: e in drained.cache ==> Fresh(drained, e)
    ensures var drained := Next(Next(states[|steps|], Exchange(thread)), Notify(thread));
            Enabled(drained, Translate(entry, last)) ==>
              var called := Next(drained, Translate(entry, last));
              Inv(called) && entry in called.cache && forall e :: e in called.cache ==> Fresh(called, e)
  {
    RunKeepsInv(states, steps, |steps|);
    var s := states[|steps|];
    NextKeepsInv(s, Exchange(thread));
    var exchanged := Next(s, Exchange(thread));
    NextKeepsInv(exchanged, Notify(thread));
    var drained := Next(exchanged, Notify(thread));
    assert drained.drains == map[];
    QuietIsFresh(drained);
    if Enabled(drained, Translate(entry, last)) {
      NextKeepsInv(drained, Translate(entry, last));
      QuietIsFresh(Next(drained, Translate(entry, last)));
    }
  }

  /** Each stored byte is the byte every cached translation has there, or lies in a word some
      report accounts for. */
  ghost predicate StoreIsHarmless(s: State, start: u32, bytes: seq<byte>)
    requires CacheFormed(s)
  {
    forall entry, k {:trigger s.cache[entry], bytes[k]} ::
      entry in s.cache && 0 <= k < |bytes| && entry <= start as int + k < s.cache[entry].last as int + 4 ==>
        s.cache[entry].bytes[start as int + k - entry] == bytes[k] || WordCovered(s, start as int + k)
  }

  /** The watch may let a store through unreported exactly when the store is harmless: one that
      changes no translated byte, or only bytes of words already accounted for. */
  lemma UnreportedStore(s: State, start: u32, bytes: seq<byte>)
    requires Inv(s) && s.code.base <= start && start as int + |bytes| <= s.code.End()
    ensures var t := s.(memory := Patched(s.memory, start - s.code.base, bytes));
            CacheFormed(t) && (Coherent(t) <==> StoreIsHarmless(s, start, bytes))
  {
    var t := s.(memory := Patched(s.memory, start - s.code.base, bytes));
    SameWordsCovered(s, t);
    forall entry | entry in s.cache
      ensures TranslationFormed(s, entry, s.cache[entry]) && TranslationFormed(t, entry, s.cache[entry])
    {
    }
    hide Inv, WordCovered, Stale, TranslationFormed, Patched;
    if Coherent(t) {
      forall entry, k | entry in s.cache && 0 <= k < |bytes| && entry <= start as int + k < s.cache[entry].last as int + 4
        ensures s.cache[entry].bytes[start as int + k - entry] == bytes[k] || WordCovered(s, start as int + k)
      {
        StaleAfterStore(s, t, start, bytes, entry, start as int + k);
      }
    }
    if StoreIsHarmless(s, start, bytes) {
      forall entry, address |
        entry in t.cache && entry <= address < t.cache[entry].last as int + 4 && Stale(t, entry, address)
        ensures WordCovered(t, address)
      {
        StaleAfterStore(s, t, start, bytes, entry, address);
        if start <= address < start as int + |bytes| {
          assert s.cache[entry].bytes[address - entry] != bytes[address - start];
        }
      }
    }
  }

  /** A stored byte is stale where it is not the translated one; the others are stale as before. */
  lemma StaleAfterStore(s: State, t: State, start: u32, bytes: seq<byte>, entry: u32, address: int)
    requires |s.memory| == s.code.size && s.code.base <= start && start as int + |bytes| <= s.code.End()
    requires t == s.(memory := Patched(s.memory, start - s.code.base, bytes))
    requires entry in s.cache && entry <= address < s.cache[entry].last as int + 4
    requires TranslationFormed(s, entry, s.cache[entry]) && TranslationFormed(t, entry, s.cache[entry])
    ensures Stale(t, entry, address) <==>
            if start <= address < start as int + |bytes| then s.cache[entry].bytes[address - entry] != bytes[address - start]
            else Stale(s, entry, address)
  {
  }

  lemma SameWordsCovered(s: State, t: State)
    requires t.pending == s.pending && t.reports == s.reports && t.drains == s.drains
    ensures forall address :: WordCovered(t, address) <==> WordCovered(s, address)
  {
    hide Covers;
    forall address
      ensures WordCovered(t, address) <==> WordCovered(s, address)
    {
      forall other: int
        ensures Covered(t, other) <==> Covered(s, other)
      {
      }
    }
  }
}
