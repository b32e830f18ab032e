/** The packed word in which reported executable writes wait, src/executable_invalidation.cpp. */
module PendingWrites {
  import opened Bytes
  import opened ModuleContract

  /** Inclusive at both ends. */
  datatype Interval = Interval(first: u32, last: u32) {
    predicate Has(address: int) {
      first <= address <= last
    }
  }

  // The first address of a word that holds no write.
  const NO_ADDRESS: u32 := 0xFFFF_FFFF
  const NO_PENDING_WRITE: u64 := 0xFFFF_FFFF_0000_0000

  function Pack(first: u32, last: u32): u64 {
    first * 0x1_0000_0000 as int + last
  }

  function First(word: u64): u32 {
    word / 0x1_0000_0000
  }

  function Last(word: u64): u32 {
    word % 0x1_0000_0000
  }

  lemma PackRoundTrip(first: u32, last: u32)
    ensures First(Pack(first, last)) == first && Last(Pack(first, last)) == last
  {
  }

  /** The part of a reported write that lies in the watched range. */
  function Clip(code: CodeRange, address: u32, length: u32): Option<Interval> {
    var start := Max(address, code.base);
    var end := Min(address as int + length, code.End());
    if length == 0 || start >= end then None
    else Some(Interval(start, (end - 1) % 0x1_0000_0000))
  }

  function Merge(word: u64, write: Interval): u64 {
    Pack(Min(First(word), write.first), Max(Last(word), write.last))
  }

  /** The addresses a word stands for. */
  predicate Covers(word: u64, address: int) {
    First(word) != NO_ADDRESS && First(word) <= address <= Last(word)
  }

  /** What DrainObservedWrites passes to Notify for a word it exchanged out. */
  function DrainRange(code: CodeRange, word: u64): Option<(u32, u32)> {
    if First(word) == NO_ADDRESS || First(word) > Last(word) then None
    else
      var start := Max(First(word), code.base);
      var end := Min(Last(word) as int + 1, code.End());
      if start >= end then None else Some((start, (end - start) % 0x1_0000_0000))
  }

  /** The ranges Notify does not refuse. */
  predicate NotifyAccepts(code: CodeRange, address: u32, size: u32) {
    size != 0 && code.base <= address && address as int + size <= code.End()
  }

  /** Nothing, or an interval inside the code range. */
  predicate WellFormed(code: CodeRange, word: u64) {
    word == NO_PENDING_WRITE || code.base <= First(word) <= Last(word) < code.End()
  }

  /** A clipped write is exactly the watched bytes of the write. */
  lemma ClipIsIntersection(code: CodeRange, address: u32, length: u32)
    requires code.End() <= 0x1_0000_0000
    ensures match Clip(code, address, length)
            case None => forall a: int :: !(address <= a < address as int + length && code.Holds(a))
            case Some(write) =>
              && code.base <= write.first <= write.last < code.End()
              && forall a: int :: write.Has(a) <==> address <= a < address as int + length && code.Holds(a)
  {
  }

  /** Both sides of a merge start at the address that means "nothing pending". */
  predicate BothAtTheTop(word: u64, write: Interval) {
    First(word) == NO_ADDRESS && write.first == NO_ADDRESS
  }

  /** Merging a write into a word that holds one gives the hull of the two;
      into an empty word, the write itself. */
  lemma MergeIsHull(code: CodeRange, word: u64, write: Interval)
    requires WellFormed(code, word) && write.first <= write.last && !BothAtTheTop(word, write)
    ensures forall a: int :: Covers(Merge(word, write), a) <==>
              if word == NO_PENDING_WRITE then write.Has(a)
              else Min(First(word), write.first) <= a <= Max(Last(word), write.last)
  {
    PackRoundTrip(Min(First(word), write.first), Max(Last(word), write.last));
  }

  /** The merged word stays in the code range, and keeps every byte either side held unless both
      sides start at the top. */
  lemma MergeKeepsBoth(code: CodeRange, word: u64, write: Interval)
    requires WellFormed(code, word) && code.End() <= 0x1_0000_0000
    requires code.base <= write.first <= write.last < code.End()
    ensures WellFormed(code, Merge(word, write))
    ensures (forall a: int :: Covers(word, a) || write.Has(a) ==> Covers(Merge(word, write), a)) <==> !BothAtTheTop(word, write)
  {
    PackRoundTrip(Min(First(word), write.first), Max(Last(word), write.last));
    assert write.Has(write.first);
  }

  /** At the merge, a write's bytes are all covered unless the word, empty or not, and the write
      both start at the top. A later merge may still bring them back. */
  lemma MergeLosesOnlyTheTopAddress(word: u64, write: Interval)
    requires (First(word) == NO_ADDRESS || First(word) <= Last(word)) && write.first <= write.last
    ensures (forall a: int :: write.Has(a) ==> Covers(Merge(word, write), a)) <==> !BothAtTheTop(word, write)
  {
    PackRoundTrip(Min(First(word), write.first), Max(Last(word), write.last));
    assert write.Has(write.first);
  }

  /** A drain passes on exactly the bytes its word covers, and Notify never refuses them. */
  lemma DrainRangeIsCovered(code: CodeRange, word: u64)
    requires WellFormed(code, word) && code.End() <= 0x1_0000_0000
    ensures match DrainRange(code, word)
            case None => forall a: int :: !Covers(word, a)
            case Some((start, length)) =>
              && NotifyAccepts(code, start, length)
              && forall a: int :: Covers(word, a) <==> start <= a < start as int + length
  {
  }
}
