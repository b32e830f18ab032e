/** Tracked guest allocations, src/guest_memory.cpp, over a heap known only by its contract. */
module GuestMemories {
  import opened Bytes
  import opened RuntimeFailures

  const ADDRESS_SPACE: nat := 0x1_0000_0000

  datatype Allocation = Allocation(address: u32, size: u32) {
    function End(): nat {
      address as int + size
    }

    /** The whole request lies in this range. */
    predicate Holds(request: int, count: int) {
      address <= request && request + count <= End()
    }

    predicate Meets(other: Allocation) {
      address < other.End() && other.address < End()
    }
  }

  // ---- The ordered allocation map ----

  /** In address order, not empty, not null, and without overlap. */
  predicate Apart(live: seq<Allocation>) {
    && (forall i :: 0 <= i < |live| ==> live[i].address > 0 && live[i].size > 0 && live[i].End() <= ADDRESS_SPACE)
    && (forall i, j :: 0 <= i < j < |live| ==> live[i].End() <= live[j].address)
  }

  /** The first entry past `address`: std::map::upper_bound. */
  function UpperBound(live: seq<Allocation>, address: u32): (k: nat)
    ensures k <= |live|
    ensures forall i :: 0 <= i < k ==> live[i].address <= address
    ensures k < |live| ==> live[k].address > address
    ensures Apart(live) ==> forall i :: k <= i < |live| ==> live[i].address > address
  {
    if |live| == 0 || live[0].address > address then 0 else 1 + UpperBound(live[1..], address)
  }

  function Contains(live: seq<Allocation>, address: u32, size: nat): bool {
    if size == 0 || size > 0xFFFF_FFFF then false
    else
      var k := UpperBound(live, address);
      k > 0 && live[k - 1].address <= address
      && address as int + size <= live[k - 1].address as int + live[k - 1].size
  }

  /** The predecessor alone decides: it contains the request exactly when some live range does. */
  lemma ContainsIffSomeRangeHolds(live: seq<Allocation>, address: u32, size: nat)
    requires Apart(live)
    ensures Contains(live, address, size) <==> size > 0 && exists i :: 0 <= i < |live| && live[i].Holds(address, size)
  {
    var k := UpperBound(live, address);
    forall i | 0 <= i && i + 1 < k
      ensures live[i].End() <= address
    {
      assert live[i].End() <= live[k - 1].address;
    }
  }

  function Find(live: seq<Allocation>, address: u32): (k: Option<nat>)
    ensures k.Some? ==> k.value < |live| && live[k.value].address == address
    ensures k.None? ==> forall i :: 0 <= i < |live| ==> live[i].address != address
  {
    if |live| == 0 then None
    else if live[0].address == address then Some(0)
    else match Find(live[1..], address)
      case None => None
      case Some(k) => Some(k + 1)
  }

  function Insert(live: seq<Allocation>, allocation: Allocation): (inserted: seq<Allocation>)
    ensures |inserted| == |live| + 1
  {
    var k := UpperBound(live, allocation.address);
    live[..k] + [allocation] + live[k..]
  }

  function Erase(live: seq<Allocation>, k: nat): seq<Allocation>
    requires k < |live|
  {
    live[..k] + live[k + 1..]
  }

  function Elements(live: seq<Allocation>): set<Allocation> {
    set i | 0 <= i < |live| :: live[i]
  }

  function Addresses(live: seq<Allocation>): (addresses: seq<u32>)
    ensures |addresses| == |live|
  {
    seq(|live|, i requires 0 <= i < |live| => live[i].address)
  }

  lemma Concatenation(left: seq<Allocation>, right: seq<Allocation>)
    ensures Elements(left + right) == Elements(left) + Elements(right)
    ensures Addresses(left + right) == Addresses(left) + Addresses(right)
  {
    var whole := left + right;
    assert forall i :: 0 <= i < |left| ==> whole[i] == left[i];
    assert forall i :: 0 <= i < |right| ==> whole[|left| + i] == right[i];
  }

  lemma Singleton(allocation: Allocation)
    ensures Elements([allocation]) == {allocation} && Addresses([allocation]) == [allocation.address]
  {
    assert [allocation][0] == allocation;
  }

  lemma InsertKeepsApart(live: seq<Allocation>, allocation: Allocation)
    requires Apart(live) && allocation.address > 0 && allocation.size > 0 && allocation.End() <= ADDRESS_SPACE
    requires forall i :: 0 <= i < |live| ==> !live[i].Meets(allocation)
    ensures Apart(Insert(live, allocation))
  {
    hide UpperBound;
    var k := UpperBound(live, allocation.address);
    assert live == live[..k] + live[k..];
    forall i | 0 <= i < k
      ensures live[i].End() <= allocation.address
    {
      assert !live[i].Meets(allocation);
    }
    forall i | k <= i < |live|
      ensures allocation.End() <= live[i].address
    {
      assert !live[i].Meets(allocation);
    }
    ApartAround(live[..k], allocation, live[k..]);
  }

  lemma ApartAround(left: seq<Allocation>, allocation: Allocation, right: seq<Allocation>)
    requires Apart(left + right) && allocation.address > 0 && allocation.size > 0 && allocation.End() <= ADDRESS_SPACE
    requires forall i :: 0 <= i < |left| ==> left[i].End() <= allocation.address
    requires forall i :: 0 <= i < |right| ==> allocation.End() <= right[i].address
    ensures Apart(left + [allocation] + right)
  {
    var before, after, k := left + right, left + [allocation] + right, |left|;
    forall i | 0 <= i < |after| && i != k
      ensures after[i] == before[if i < k then i else i - 1]
    {
    }
    forall i, j | 0 <= i < j < |after|
      ensures after[i].End() <= after[j].address
    {
      if i != k && j != k {
        assert before[if i < k then i else i - 1].End() <= before[if j < k then j else j - 1].address;
      }
    }
  }

  lemma InsertAdds(live: seq<Allocation>, allocation: Allocation)
    ensures Elements(Insert(live, allocation)) == Elements(live) + {allocation}
    ensures multiset(Addresses(Insert(live, allocation))) == multiset(Addresses(live)) + multiset{allocation.address}
  {
    hide Elements, Addresses;
    var k := UpperBound(live, allocation.address);
    Singleton(allocation);
    Concatenation(live[..k], [allocation]);
    Concatenation(live[..k] + [allocation], live[k..]);
    Concatenation(live[..k], live[k..]);
    assert live == live[..k] + live[k..];
  }

  lemma EraseKeepsApart(live: seq<Allocation>, k: nat)
    requires Apart(live) && k < |live|
    ensures Apart(Erase(live, k))
  {
    var erased := Erase(live, k);
    assert forall i :: 0 <= i < |erased| ==> erased[i] == live[if i < k then i else i + 1];
  }

  lemma EraseRemoves(live: seq<Allocation>, k: nat)
    requires Apart(live) && k < |live|
    ensures Elements(Erase(live, k)) == set o | o in Elements(live) && o.address != live[k].address
    ensures multiset(Addresses(live)) == multiset(Addresses(Erase(live, k))) + multiset{live[k].address}
  {
    hide Addresses, Apart;
    OthersDiffer(live, k);
    Singleton(live[k]);
    Concatenation(live[..k], [live[k]]);
    Concatenation(live[..k] + [live[k]], live[k + 1..]);
    Concatenation(live[..k], live[k + 1..]);
    assert live == live[..k] + [live[k]] + live[k + 1..];
  }

  lemma OthersDiffer(live: seq<Allocation>, k: nat)
    requires Apart(live) && k < |live|
    ensures forall o :: o in Elements(live[..k]) || o in Elements(live[k + 1..]) ==> o.address != live[k].address
  {
    assert forall i :: 0 <= i < |live| && i != k ==> live[i].address != live[k].address;
  }

  // ---- The heap's contract and the runs over it ----

  /** What Xenia's system heap has handed out, has been given back, and still has outstanding. */
  datatype Heap = Heap(outstanding: set<Allocation>, taken: seq<u32>, freed: seq<u32>)

  /** A heap answers null, or a range of that size apart from every outstanding one. */
  predicate MayGive(outstanding: set<Allocation>, address: u32, size: u32) {
    address == 0
    || (address as int + size <= ADDRESS_SPACE && forall o :: o in outstanding ==> !o.Meets(Allocation(address, size)))
  }

  function Give(heap: Heap, address: u32, size: u32): Heap {
    if address == 0 then heap
    else Heap(heap.outstanding + {Allocation(address, size)}, heap.taken + [address], heap.freed)
  }

  function TakeBack(heap: Heap, addresses: seq<u32>): Heap {
    Heap((set o | o in heap.outstanding && o.address !in addresses), heap.taken, heap.freed + addresses)
  }

  datatype State = State(initialized: bool, live: seq<Allocation>, heap: Heap, memory: seq<byte>)

  datatype Event =
    | Initialize
    | Allocate(size: u32, answer: u32, content: seq<byte>)
    | Release(allocation: Allocation)
    | Reset
    | Write(address: u32, bytes: seq<byte>)

  predicate Allowed(s: State, event: Event) {
    event.Allocate? && s.initialized && event.size != 0 ==>
      MayGive(s.heap.outstanding, event.answer, event.size) && (event.answer != 0 ==> |event.content| == event.size)
  }

  predicate WriteAccepted(s: State, address: u32, bytes: seq<byte>) {
    s.initialized && Contains(s.live, address, |bytes|)
  }

  predicate Releases(s: State, allocation: Allocation) {
    s.initialized && allocation.address != 0 && allocation.size != 0
    && var k := Find(s.live, allocation.address); k.Some? && s.live[k.value].size == allocation.size
  }

  predicate Inv(s: State) {
    && |s.memory| == ADDRESS_SPACE && Apart(s.live)
    && s.heap.outstanding == Elements(s.live)
    && multiset(s.heap.taken) == multiset(s.heap.freed) + multiset(Addresses(s.live))
    && (!s.initialized ==> s.live == [])
  }

  function Step(s: State, event: Event): State
    requires Inv(s) && Allowed(s, event)
  {
    match event
    case Initialize => s.(initialized := true)
    case Allocate(size, answer, content) =>
      if !s.initialized || size == 0 then s
      else
        var heap := Give(s.heap, answer, size);
        if answer == 0 || Find(s.live, answer).Some? then s.(heap := heap)
        else s.(heap := heap, live := Insert(s.live, Allocation(answer, size)), memory := Patched(s.memory, answer, content))
    case Release(allocation) =>
      if Releases(s, allocation) then
        s.(heap := TakeBack(s.heap, [allocation.address]), live := Erase(s.live, Find(s.live, allocation.address).value))
      else s
    case Reset =>
      if s.initialized then State(false, [], TakeBack(s.heap, Addresses(s.live)), s.memory)
      else State(false, [], s.heap, s.memory)
    case Write(address, bytes) =>
      if WriteAccepted(s, address, bytes) then
        AcceptedWriteFits(s, address, bytes);
        s.(memory := Patched(s.memory, address, bytes))
      else s
  }

  /** A release is accepted for exactly the complete live allocations, and ends that one alone. */
  lemma ReleasesIffLive(s: State, allocation: Allocation)
    requires Inv(s)
    ensures Releases(s, allocation) <==> s.initialized && allocation in s.live
    ensures Releases(s, allocation) ==>
              Elements(Step(s, Release(allocation)).live) == Elements(s.live) - {allocation}
  {
    hide Find, Erase, Elements;
    if Releases(s, allocation) {
      OnlyThatOneEnds(s.live, allocation, Find(s.live, allocation.address).value);
    }
    if allocation in s.live {
      LiveIsFound(s.live, allocation);
    }
  }

  /** An allocation adds exactly the range the heap gave, filled with what it held. */
  lemma AllocationsGrowByWhatIsGiven(s: State, size: u32, answer: u32, content: seq<byte>)
    requires Inv(s) && Allowed(s, Allocate(size, answer, content))
    ensures var after := Step(s, Allocate(size, answer, content));
            if s.initialized && size != 0 && answer != 0 then
              Elements(after.live) == Elements(s.live) + {Allocation(answer, size)}
              && |after.memory| == |s.memory| && answer as int + size <= |s.memory|
              && after.memory[answer..answer as int + size] == content
            else after == s
  {
    hide Insert, Elements, Apart;
    if s.initialized && size != 0 && answer != 0 {
      GivenRangeIsNotTracked(s, answer, size);
      InsertAdds(s.live, Allocation(answer, size));
    }
  }

  lemma LiveIsFound(live: seq<Allocation>, allocation: Allocation)
    requires Apart(live) && allocation in live
    ensures allocation.address != 0 && allocation.size != 0
    ensures var k := Find(live, allocation.address); k.Some? && k.value < |live| && live[k.value] == allocation
  {
    var i :| 0 <= i < |live| && live[i] == allocation;
    var k := Find(live, allocation.address);
  }

  lemma OnlyThatOneEnds(live: seq<Allocation>, allocation: Allocation, k: nat)
    requires Apart(live) && k < |live| && live[k] == allocation
    ensures Elements(Erase(live, k)) == Elements(live) - {allocation}
  {
    hide Erase;
    EraseRemoves(live, k);
    forall o | o in Elements(live) && o.address == allocation.address
      ensures o == allocation
    {
      var i :| 0 <= i < |live| && live[i] == o;
    }
  }

  lemma AcceptedWriteFits(s: State, address: u32, bytes: seq<byte>)
    requires Inv(s) && WriteAccepted(s, address, bytes)
    ensures HasBytes(s.memory, address, |bytes|)
  {
  }

  /** Under the heap's contract no range it gives is ever dropped by the tracked-twice check. */
  lemma GivenRangeIsNotTracked(s: State, address: u32, size: u32)
    requires Inv(s) && address != 0 && size != 0 && MayGive(s.heap.outstanding, address, size)
    ensures Find(s.live, address).None?
    ensures forall i :: 0 <= i < |s.live| ==> !s.live[i].Meets(Allocation(address, size))
  {
    forall i | 0 <= i < |s.live|
      ensures !s.live[i].Meets(Allocation(address, size)) && s.live[i].address != address
    {
      assert s.live[i] in s.heap.outstanding;
    }
  }

  lemma StepKeepsInv(s: State, event: Event)
    requires Inv(s) && Allowed(s, event)
    ensures Inv(Step(s, event))
  {
    match event
    case Initialize =>
    case Allocate(size, answer, content) =>
      if s.initialized && size != 0 && answer != 0 {
        GivenRangeIsNotTracked(s, answer, size);
        AllocateKeepsInv(s, Allocation(answer, size), content);
      }
    case Release(allocation) =>
      if Releases(s, allocation) {
        ReleaseKeepsInv(s, Find(s.live, allocation.address).value);
      }
    case Reset => ResetKeepsInv(s);
    case Write(address, bytes) =>
      if WriteAccepted(s, address, bytes) {
        AcceptedWriteFits(s, address, bytes);
      }
  }

  lemma AllocateKeepsInv(s: State, given: Allocation, content: seq<byte>)
    requires Inv(s) && s.initialized && given.address != 0 && given.size != 0 && given.End() <= ADDRESS_SPACE
    requires forall i :: 0 <= i < |s.live| ==> !s.live[i].Meets(given)
    requires |content| == given.size
    ensures Inv(State(true, Insert(s.live, given), Give(s.heap, given.address, given.size),
                      Patched(s.memory, given.address, content)))
  {
    hide Apart, Insert, Elements, Addresses;
    InsertKeepsApart(s.live, given);
    InsertAdds(s.live, given);
  }

  lemma ReleaseKeepsInv(s: State, k: nat)
    requires Inv(s) && s.initialized && k < |s.live|
    ensures Inv(s.(heap := TakeBack(s.heap, [s.live[k].address]), live := Erase(s.live, k)))
  {
    hide Apart, Erase, Elements, Addresses;
    EraseKeepsApart(s.live, k);
    EraseRemoves(s.live, k);
  }

  lemma ResetKeepsInv(s: State)
    requires Inv(s)
    ensures Inv(Step(s, Reset))
    ensures Step(s, Reset).heap.outstanding == {}
    ensures multiset(Step(s, Reset).heap.taken) == multiset(Step(s, Reset).heap.freed)
  {
    forall o | o in s.heap.outstanding
      ensures o.address in Addresses(s.live)
    {
      var i :| 0 <= i < |s.live| && s.live[i] == o;
      assert Addresses(s.live)[i] == o.address;
    }
  }

  // ---- Runs ----

  predicate AllowedRun(s: State, events: seq<Event>)
    requires Inv(s)
    ensures AllowedRun(s, events) ==> Inv(Run(s, events))
  {
    if |events| == 0 then true
    else
      var before := events[..|events| - 1];
      AllowedRun(s, before) && Allowed(Run(s, before), events[|events| - 1])
      && (StepKeepsInv(Run(s, before), events[|events| - 1]); true)
  }

  function Run(s: State, events: seq<Event>): State
    requires Inv(s)
  {
    if |events| == 0 then s
    else
      var before := Run(s, events[..|events| - 1]);
      var event := events[|events| - 1];
      if Inv(before) && Allowed(before, event) then Step(before, event) else before
  }

  /** Whatever the operations, once the last Reset is done every range the heap gave has been
      given back, as often as it was given. */
  lemma EveryRangeIsFreedOnce(s: State, events: seq<Event>)
    requires Inv(s) && AllowedRun(s, events)
    ensures var end := Step(Run(s, events), Reset);
            end.heap.outstanding == {} && multiset(end.heap.taken) == multiset(end.heap.freed)
  {
    ResetKeepsInv(Run(s, events));
  }

  /** The allocation is live at every point of the run. */
  predicate LiveThroughout(s: State, events: seq<Event>, allocation: Allocation)
    requires Inv(s)
  {
    forall k :: 0 <= k <= |events| ==> allocation in Run(s, events[..k]).live
  }

  /** The byte the last accepted write over `address` put there, or the byte at the start. */
  function LastWritten(s: State, events: seq<Event>, address: nat): byte
    requires Inv(s) && address < ADDRESS_SPACE
  {
    if |events| == 0 then s.memory[address]
    else
      var before := events[..|events| - 1];
      match events[|events| - 1]
      case Write(at, bytes) =>
        if WriteAccepted(Run(s, before), at, bytes) && at <= address < at as int + |bytes| then bytes[address - at]
        else LastWritten(s, before, address)
      case _ => LastWritten(s, before, address)
  }

  /** While an allocation stays live, whatever else is allocated, released or written, its bytes
      are the ones last written through this interface. */
  lemma {:induction false} ReadsSeeTheLatestWrites(s: State, events: seq<Event>, allocation: Allocation, address: nat)
    requires Inv(s) && AllowedRun(s, events) && LiveThroughout(s, events, allocation)
    requires allocation.Holds(address, 1) && address < ADDRESS_SPACE
    ensures Run(s, events).memory[address] == LastWritten(s, events, address)
    decreases |events|
  {
    hide Inv, Allowed, Step, LiveThroughout;
    if |events| == 0 {
      return;
    }
    var before, event := events[..|events| - 1], events[|events| - 1];
    LiveBefore(s, events, allocation);
    ReadsSeeTheLatestWrites(s, before, allocation, address);
    StepChangesOnlyWrittenBytes(Run(s, before), event, allocation, address);
  }

  lemma LiveBefore(s: State, events: seq<Event>, allocation: Allocation)
    requires Inv(s) && |events| > 0 && LiveThroughout(s, events, allocation)
    ensures LiveThroughout(s, events[..|events| - 1], allocation)
    ensures allocation in Run(s, events[..|events| - 1]).live && allocation in Run(s, events).live
  {
    hide Inv, Run;
    var before := events[..|events| - 1];
    assert events[..|events|] == events;
    forall k | 0 <= k <= |before|
      ensures allocation in Run(s, before[..k]).live
    {
      assert before[..k] == events[..k];
    }
  }

  lemma StepChangesOnlyWrittenBytes(s: State, event: Event, allocation: Allocation, address: nat)
    requires Inv(s) && Allowed(s, event) && allocation in s.live
    requires allocation.Holds(address, 1) && address < ADDRESS_SPACE
    ensures |Step(s, event).memory| == ADDRESS_SPACE
    ensures Step(s, event).memory[address] ==
            if event.Write? && WriteAccepted(s, event.address, event.bytes)
               && event.address <= address < event.address as int + |event.bytes|
            then event.bytes[address - event.address] else s.memory[address]
  {
    hide Apart;
    var i :| 0 <= i < |s.live| && s.live[i] == allocation;
    match event
    case Allocate(size, answer, content) =>
      if s.initialized && size != 0 && answer != 0 {
        GivenRangeIsNotTracked(s, answer, size);
        assert !s.live[i].Meets(Allocation(answer, size));
      }
    case Write(at, bytes) =>
      if WriteAccepted(s, at, bytes) {
        AcceptedWriteFits(s, at, bytes);
      }
    case _ =>
  }

  /** An accepted write lies in one live range and leaves every other one alone. */
  lemma WritesStayInOneRange(s: State, address: u32, bytes: seq<byte>)
    requires Inv(s) && WriteAccepted(s, address, bytes)
    ensures exists i :: 0 <= i < |s.live| && s.live[i].Holds(address, |bytes|)
                        && forall j :: 0 <= j < |s.live| && j != i ==> !s.live[j].Meets(Allocation(address, |bytes|))
  {
    ContainsIffSomeRangeHolds(s.live, address, |bytes|);
    var i :| 0 <= i < |s.live| && s.live[i].Holds(address, |bytes|);
    forall j | 0 <= j < |s.live| && j != i
      ensures !s.live[j].Meets(Allocation(address, |bytes|))
    {
      assert s.live[i].End() <= s.live[j].address || s.live[j].End() <= s.live[i].address;
    }
  }

  lemma TakeBackTwice(heap: Heap, first: seq<u32>, second: seq<u32>)
    ensures TakeBack(TakeBack(heap, first), second) == TakeBack(heap, first + second)
  {
  }

  // ---- The classes ----

  /** Xenia's memory object, as far as its system heap's contract goes. The heap's answer, and
      what a new range holds, are parameters. */
  class SystemHeap {
    const memory: array<byte>
    ghost var log: Heap

    constructor (guestMemory: array<byte>)
      ensures memory == guestMemory && log == Heap({}, [], [])
    {
      memory := guestMemory;
      log := Heap({}, [], []);
    }

    method SystemHeapAlloc(size: u32, answer: u32, content: seq<byte>)
      requires memory.Length == ADDRESS_SPACE && MayGive(log.outstanding, answer, size)
      requires answer != 0 ==> |content| == size
      modifies this, memory
      ensures log == Give(old(log), answer, size)
      ensures answer == 0 ==> memory[..] == old(memory[..])
      ensures answer != 0 ==> memory[..] == Patched(old(memory[..]), answer, content)
    {
      log := Give(log, answer, size);
      if answer != 0 {
        CopyIn(answer, content);
      }
    }

    method SystemHeapFree(address: u32)
      modifies this
      ensures log == TakeBack(old(log), [address])
    {
      log := TakeBack(log, [address]);
    }

    method CopyIn(address: nat, bytes: seq<byte>)
      requires address + |bytes| <= memory.Length
      modifies memory
      ensures memory[..] == Patched(old(memory[..]), address, bytes)
    {
      hide Patched;
      for k := 0 to |bytes|
        invariant forall i :: 0 <= i < memory.Length ==>
          memory[i] == if address <= i < address + k then bytes[i - address] else old(memory[i])
      {
        memory[address + k] := bytes[k];
      }
      assert memory[..] == Patched(old(memory[..]), address, bytes);
    }
  }

  class GuestMemory {
    ghost const home: SystemHeap
    var heap: SystemHeap?
    var allocations: seq<Allocation>

    ghost predicate Valid()
      reads this, home, home.memory
    {
      (heap != null ==> heap == home) && Inv(View())
    }

    ghost function View(): State
      reads this, home, home.memory
    {
      State(heap != null, allocations, home.log, home.memory[..])
    }

    constructor (ghost system: SystemHeap)
      requires system.memory.Length == ADDRESS_SPACE && system.log == Heap({}, [], [])
      ensures Valid() && home == system && !View().initialized
    {
      home := system;
      heap := null;
      allocations := [];
    }

    method Initialize(memory: SystemHeap)
      requires Valid() && memory == home
      modifies this
      ensures Valid() && View() == Step(old(View()), Event.Initialize)
      ensures heap == memory && allocations == old(allocations)
    {
      heap := memory;
    }

    method Allocate(size: u32, answer: u32, content: seq<byte>) returns (result: Result<Allocation, RuntimeError>)
      requires Valid() && Allowed(View(), Event.Allocate(size, answer, content))
      modifies this, home, home.memory
      ensures Valid() && View() == Step(old(View()), Event.Allocate(size, answer, content))
      ensures result == if old(heap) != null && size != 0 && answer != 0 then Ok(Allocation(answer, size))
                           else Err(GuestMemoryAllocationFailed)
    {
      ghost var s := View();
      StepKeepsInv(s, Event.Allocate(size, answer, content));
      AllocateStep(s, size, answer, content);
      hide Inv, Step, Allowed, MayGive, Patched, Insert, Find, Give;
      if heap == null || size == 0 {
        return Err(GuestMemoryAllocationFailed);
      }
      heap.SystemHeapAlloc(size, answer, content);
      if answer == 0 || Find(allocations, answer).Some? {
        return Err(GuestMemoryAllocationFailed);
      }
      allocations := Insert(allocations, Allocation(answer, size));
      result := Ok(Allocation(answer, size));
    }

    /** The bytes of the request, exactly when one live range holds all of it. */
    method Read(address: u32, count: nat) returns (bytes: Result<seq<byte>, RuntimeError>)
      requires Valid()
      ensures bytes.Ok? <==> heap != null && count > 0
                             && exists i :: 0 <= i < |allocations| && allocations[i].Holds(address, count)
      ensures bytes.Ok? ==> address as int + count <= home.memory.Length
                            && bytes.value == home.memory[address..address as int + count]
      ensures bytes.Err? ==> bytes.error == GuestMemoryRangeInvalid
    {
      ContainsIffSomeRangeHolds(allocations, address, count);
      if heap == null || count == 0 || !Contains(allocations, address, count) {
        return Err(GuestMemoryRangeInvalid);
      }
      bytes := Ok(heap.memory[address..address as int + count]);
    }

    method Write(address: u32, bytes: seq<byte>) returns (failure: RuntimeError)
      requires Valid()
      modifies home.memory
      ensures Valid() && View() == Step(old(View()), Event.Write(address, bytes))
      ensures failure == if WriteAccepted(old(View()), address, bytes) then NoError else GuestMemoryRangeInvalid
    {
      StepKeepsInv(View(), Event.Write(address, bytes));
      if heap == null || |bytes| == 0 || !Contains(allocations, address, |bytes|) {
        return GuestMemoryRangeInvalid;
      }
      AcceptedWriteFits(View(), address, bytes);
      hide Inv;
      heap.CopyIn(address, bytes);
      failure := NoError;
    }

    method Release(allocation: Allocation) returns (failure: RuntimeError)
      requires Valid()
      modifies this, home
      ensures Valid() && View() == Step(old(View()), Event.Release(allocation))
      ensures failure == if Releases(old(View()), allocation) then NoError else GuestMemoryRangeInvalid
    {
      ghost var s := View();
      StepKeepsInv(s, Event.Release(allocation));
      ReleaseStep(s, allocation);
      hide Inv, Step, Find, TakeBack, Erase, Releases;
      if heap == null || allocation.address == 0 || allocation.size == 0 {
        return GuestMemoryRangeInvalid;
      }
      var found := Find(allocations, allocation.address);
      if found.None? || allocations[found.value].size != allocation.size {
        return GuestMemoryRangeInvalid;
      }
      heap.SystemHeapFree(allocation.address);
      allocations := Erase(allocations, found.value);
      failure := NoError;
    }

    method Reset()
      requires Valid()
      modifies this, home
      ensures Valid() && View() == Step(old(View()), Event.Reset)
      ensures heap == null && allocations == []
    {
      StepKeepsInv(View(), Event.Reset);
      ResetStep(View());
      hide Inv, Step, TakeBack, Addresses;
      if heap != null {
        FreeAll();
      }
      allocations := [];
      heap := null;
    }

    /** The loop of Reset. */
    method FreeAll()
      requires heap != null && heap == home
      modifies home
      ensures home.log == TakeBack(old(home.log), Addresses(allocations))
    {
      hide Inv, TakeBack, Addresses;
      ghost var was := home.log;
      NothingTakenBack(was, allocations);
      for k := 0 to |allocations|
        invariant heap == home
        invariant home.log == TakeBack(was, Addresses(allocations[..k]))
      {
        heap.SystemHeapFree(allocations[k].address);
        OneMoreTakenBack(was, allocations, k);
      }
      assert allocations[..|allocations|] == allocations;
    }
  }

  lemma AllocateStep(s: State, size: u32, answer: u32, content: seq<byte>)
    requires Inv(s) && Allowed(s, Event.Allocate(size, answer, content))
    ensures var after := Step(s, Event.Allocate(size, answer, content));
            if !s.initialized || size == 0 || answer == 0 then after == s
            else MayGive(s.heap.outstanding, answer, size) && |content| == size && answer as int + size <= |s.memory|
                 && Find(s.live, answer).None?
                 && after == State(true, Insert(s.live, Allocation(answer, size)), Give(s.heap, answer, size),
                                   Patched(s.memory, answer, content))
    ensures s.initialized && size != 0 ==> MayGive(s.heap.outstanding, answer, size) && Give(s.heap, 0, size) == s.heap
  {
    hide Insert, Apart, Patched;
    if s.initialized && size != 0 && answer != 0 {
      GivenRangeIsNotTracked(s, answer, size);
    }
  }

  lemma ReleaseStep(s: State, allocation: Allocation)
    requires Inv(s)
    ensures var found := Find(s.live, allocation.address);
            Releases(s, allocation) ==
            (s.initialized && allocation.address != 0 && allocation.size != 0
             && found.Some? && s.live[found.value].size == allocation.size)
    ensures var after := Step(s, Event.Release(allocation));
            if !Releases(s, allocation) then after == s
            else var k := Find(s.live, allocation.address);
                 k.Some? && after == State(true, Erase(s.live, k.value), TakeBack(s.heap, [allocation.address]), s.memory)
  {
    hide Inv;
  }

  lemma ResetStep(s: State)
    requires Inv(s)
    ensures Step(s, Event.Reset) ==
            State(false, [], if s.initialized then TakeBack(s.heap, Addresses(s.live)) else s.heap, s.memory)
  {
    hide Inv, TakeBack, Addresses;
  }

  lemma OneMoreTakenBack(heap: Heap, live: seq<Allocation>, k: nat)
    requires k < |live|
    ensures TakeBack(TakeBack(heap, Addresses(live[..k])), [live[k].address]) == TakeBack(heap, Addresses(live[..k + 1]))
  {
    hide TakeBack, Addresses;
    TakeBackTwice(heap, Addresses(live[..k]), [live[k].address]);
    Singleton(live[k]);
    Concatenation(live[..k], [live[k]]);
    assert live[..k + 1] == live[..k] + [live[k]];
  }

  lemma NothingTakenBack(heap: Heap, live: seq<Allocation>)
    ensures TakeBack(heap, Addresses(live[..0])) == heap
  {
  }
}
