/** The window's keyboard and mouse state, src/desktop_input.cpp: the object, and its pointer
    travel under every interleaving of one writer with any number of snapshots. */
module DesktopInput {
  import opened Bytes

  const KEY_WORDS: nat := 4
  const BITS_PER_WORD: nat := 64
  const KEY_COUNT: nat := KEY_WORDS * BITS_PER_WORD

  type i32 = x: int | -0x8000_0000 <= x < 0x8000_0000

  /** What a 32-bit atomic addition leaves. */
  function Wrap32(x: int): i32 {
    (x + 0x8000_0000) % 0x1_0000_0000 - 0x8000_0000
  }

  /** Nothing is lost but multiples of 2^32. */
  lemma Wrap32IsExact(x: int)
    ensures Wrap32(x) % 0x1_0000_0000 == x % 0x1_0000_0000
    ensures -0x8000_0000 <= x < 0x8000_0000 ==> Wrap32(x) == x
  {
    var q := (x + 0x8000_0000) / 0x1_0000_0000;
    assert x == Wrap32(x) + q * 0x1_0000_0000;
  }

  lemma Wrap32Absorbs(a: int, b: int)
    ensures Wrap32(Wrap32(a) + b) == Wrap32(a + b)
    ensures Wrap32(0) == 0
  {
    var q := (a + 0x8000_0000) / 0x1_0000_0000;
    assert Wrap32(a) == a - q * 0x1_0000_0000;
    assert (a + b + 0x8000_0000 - q * 0x1_0000_0000) % 0x1_0000_0000 == (a + b + 0x8000_0000) % 0x1_0000_0000;
  }

  // ---- Key bits ----

  /** A virtual key: its word is key / 64 and its bit key % 64. */
  type Key = k: bv64 | k < 256

  function BitOf(key: Key): (bit: bv64)
    ensures bit < 64
  {
    key % 64
  }

  function WordOf(key: Key): (word: nat)
    ensures word < KEY_WORDS
  {
    if key < 64 then 0 else if key < 128 then 1 else if key < 192 then 2 else 3
  }

  predicate BitSet(word: bv64, key: Key) {
    (word >> BitOf(key)) & 1 != 0
  }

  predicate KeyDown(words: seq<bv64>, key: Key)
    requires |words| == KEY_WORDS
  {
    BitSet(words[WordOf(key)], key)
  }

  function MaskOf(key: Key): bv64 {
    1 << BitOf(key)
  }

  function FetchOr(word: bv64, mask: bv64): bv64 {
    word | mask
  }

  function FetchAnd(word: bv64, mask: bv64): bv64 {
    word & mask
  }

  function Complement(mask: bv64): bv64 {
    !mask
  }

  /** A word after one of its keys went up or down. */
  function Changed(word: bv64, key: Key, down: bool): bv64 {
    if down then FetchOr(word, MaskOf(key)) else FetchAnd(word, Complement(MaskOf(key)))
  }

  lemma OrSetsOneBit(word: bv64, i: Key, j: Key)
    ensures BitSet(FetchOr(word, MaskOf(i)), j) <==> BitOf(i) == BitOf(j) || BitSet(word, j)
  {
  }

  lemma AndClearsOneBit(word: bv64, i: Key, j: Key)
    ensures BitSet(FetchAnd(word, Complement(MaskOf(i))), j) <==> BitOf(i) != BitOf(j) && BitSet(word, j)
  {
  }

  lemma MaskSetsOneBit(word: bv64, key: Key, down: bool, other: Key)
    ensures BitSet(Changed(word, key, down), other) <==> if BitOf(other) == BitOf(key) then down else BitSet(word, other)
  {
    hide BitSet, BitOf, MaskOf, FetchOr, FetchAnd, Complement;
    if down {
      OrSetsOneBit(word, key, other);
    } else {
      AndClearsOneBit(word, key, other);
    }
  }

  lemma WordAndBitNameTheKey(i: Key, j: Key)
    ensures WordOf(i) == WordOf(j) && BitOf(i) == BitOf(j) <==> i == j
  {
  }

  function WithKey(words: seq<bv64>, key: Key, down: bool): (after: seq<bv64>)
    requires |words| == KEY_WORDS
    ensures |after| == KEY_WORDS
  {
    words[WordOf(key) := Changed(words[WordOf(key)], key, down)]
  }

  /** Setting a key moves that key and no other. */
  lemma OneKeyChanges(words: seq<bv64>, key: Key, down: bool, other: Key)
    requires |words| == KEY_WORDS
    ensures KeyDown(WithKey(words, key, down), other) <==> if other == key then down else KeyDown(words, other)
  {
    hide BitSet, BitOf, WordOf, Changed;
    MaskSetsOneBit(words[WordOf(key)], key, down, other);
    WordAndBitNameTheKey(key, other);
  }

  predicate WordBase(base: bv64) {
    base == 0 || base == 64 || base == 128 || base == 192
  }

  /** The keys of one word below a bit. */
  predicate InWord(base: bv64, bit: bv64, key: Key) {
    base <= key < base + bit
  }

  lemma NextBit(base: bv64, bit: bv64, key: Key)
    requires WordBase(base) && bit < 64
    ensures base + bit < 256
    ensures InWord(base, bit + 1, key) <==> InWord(base, bit, key) || key == base + bit
    ensures !InWord(base, 0, key)
  {
  }

  lemma BitAt(word: bv64, base: bv64, bit: bv64)
    requires WordBase(base) && bit < 64 && base + bit < 256
    ensures BitSet(word, base + bit) <==> (word >> bit) & 1 != 0
  {
    assert (base + bit) % 64 == bit;
  }

  method ReadWord(word: bv64, base: bv64) returns (keys: set<Key>)
    requires WordBase(base)
    ensures forall k: Key :: k in keys <==> InWord(base, 64, k) && BitSet(word, k)
  {
    hide InWord, BitSet, WordBase;
    keys := {};
    var bit: bv64 := 0;
    forall k: Key
      ensures !InWord(base, 0, k)
    {
      NextBit(base, 0, k);
    }
    while bit < 64
      invariant bit <= 64
      invariant forall k: Key :: k in keys <==> InWord(base, bit, k) && BitSet(word, k)
      decreases 64 - bit
    {
      NextBit(base, bit, 0);
      BitAt(word, base, bit);
      forall k: Key
        ensures InWord(base, bit + 1, k) <==> InWord(base, bit, k) || k == base + bit
      {
        NextBit(base, bit, k);
      }
      if (word >> bit) & 1 != 0 {
        keys := keys + {base + bit};
      }
      bit := bit + 1;
    }
  }

  // ---- The object, as one thread uses it ----

  type Button = b: bv8 | b < 5

  predicate ButtonDown(buttons: bv8, button: Button) {
    buttons & (1 << button) != 0
  }

  lemma OneButtonChanges(buttons: bv8, button: Button, other: Button)
    ensures ButtonDown(buttons | (1 << button), other) <==> other == button || ButtonDown(buttons, other)
    ensures ButtonDown(buttons & !(1 << button), other) <==> other != button && ButtonDown(buttons, other)
  {
  }

  /** The pointer fields, and what each writer and a snapshot make of them. */
  datatype Pointer = Pointer(dx: i32, dy: i32, captured: bool) {
    function Travelled(x: i32, y: i32): Pointer {
      if captured then Pointer(Wrap32(dx as int + x), Wrap32(dy as int + y), true) else this
    }

    function Capture(capture: bool): Pointer {
      if capture then this.(captured := true) else Pointer(0, 0, false)
    }

    function Consumed(): Pointer {
      Pointer(0, 0, captured)
    }
  }

  datatype DesktopSnapshot = DesktopSnapshot(
    keys: set<Key>, mouseButtons: bv8, pointerDx: i32, pointerDy: i32, pointerCaptured: bool)

  class DesktopInputState {
    var keys: seq<bv64>
    var mouseButtons: bv8
    var pointerDx: i32
    var pointerDy: i32
    var pointerCaptured: bool

    predicate Valid()
      reads this
    {
      |keys| == KEY_WORDS
    }

    function PointerNow(): Pointer
      reads this
    {
      Pointer(pointerDx, pointerDy, pointerCaptured)
    }

    constructor ()
      ensures Valid() && (forall k: Key :: !KeyDown(keys, k)) && mouseButtons == 0
      ensures PointerNow() == Pointer(0, 0, false)
    {
      keys := [0, 0, 0, 0];
      mouseButtons := 0;
      pointerDx := 0;
      pointerDy := 0;
      pointerCaptured := false;
      new;
      NoKeyDown(keys);
    }

    /** The keys and buttons that are down, and all pending travel, which it consumes. */
    method TakeSnapshot() returns (snapshot: DesktopSnapshot)
      requires Valid()
      modifies this
      ensures Valid()
      ensures forall k: Key :: k in snapshot.keys <==> KeyDown(keys, k)
      ensures snapshot.mouseButtons == mouseButtons
      ensures Pointer(snapshot.pointerDx, snapshot.pointerDy, snapshot.pointerCaptured) == old(PointerNow())
      ensures PointerNow() == old(PointerNow()).Consumed()
      ensures keys == old(keys) && mouseButtons == old(mouseButtons)
    {
      hide BitSet, InWord, WordOf;
      var first := ReadWord(keys[0], 0);
      var second := ReadWord(keys[1], 64);
      var third := ReadWord(keys[2], 128);
      var fourth := ReadWord(keys[3], 192);
      forall k: Key
        ensures (InWord(0, 64, k) <==> WordOf(k) == 0) && (InWord(64, 64, k) <==> WordOf(k) == 1)
        ensures (InWord(128, 64, k) <==> WordOf(k) == 2) && (InWord(192, 64, k) <==> WordOf(k) == 3)
      {
        KeyIsInItsWord(k);
      }
      snapshot := DesktopSnapshot(first + second + third + fourth, mouseButtons, pointerDx, pointerDy, pointerCaptured);
      pointerDx := 0;
      pointerDy := 0;
    }

    method SetKey(virtualKey: Key, down: bool)
      requires Valid()
      modifies this`keys
      ensures Valid() && keys == WithKey(old(keys), virtualKey, down)
    {
      hide MaskOf, WordOf, FetchOr, FetchAnd, Complement;
      var mask := MaskOf(virtualKey);
      var word := WordOf(virtualKey);
      if down {
        keys := keys[word := FetchOr(keys[word], mask)];
      } else {
        keys := keys[word := FetchAnd(keys[word], Complement(mask))];
      }
    }

    method SetMouseButton(button: Button, down: bool)
      modifies this`mouseButtons
      ensures forall b: Button :: ButtonDown(mouseButtons, b) <==> if b == button then down else ButtonDown(old(mouseButtons), b)
    {
      hide ButtonDown;
      forall b: Button
        ensures ButtonDown(mouseButtons | (1 << button), b) <==> b == button || ButtonDown(mouseButtons, b)
        ensures ButtonDown(mouseButtons & !(1 << button), b) <==> b != button && ButtonDown(mouseButtons, b)
      {
        OneButtonChanges(mouseButtons, button, b);
      }
      if down {
        mouseButtons := mouseButtons | (1 << button);
      } else {
        mouseButtons := mouseButtons & !(1 << button);
      }
    }

    /** Moves of a free pointer do not count. */
    method AddPointerTravel(dx: i32, dy: i32)
      modifies this`pointerDx, this`pointerDy
      ensures PointerNow() == old(PointerNow()).Travelled(dx, dy)
    {
      if !pointerCaptured {
        return;
      }
      pointerDx := Wrap32(pointerDx as int + dx);
      pointerDy := Wrap32(pointerDy as int + dy);
    }

    method SetPointerCaptured(captured: bool)
      modifies this`pointerCaptured, this`pointerDx, this`pointerDy
      ensures PointerNow() == old(PointerNow()).Capture(captured)
    {
      pointerCaptured := captured;
      if !captured {
        pointerDx := 0;
        pointerDy := 0;
      }
    }

    /** Forgets every key, every button and the pointer at once. */
    method ReleaseAll()
      requires Valid()
      modifies this
      ensures Valid() && (forall k: Key :: !KeyDown(keys, k)) && (forall b: Button :: !ButtonDown(mouseButtons, b))
      ensures PointerNow() == old(PointerNow()).Capture(false)
    {
      for word := 0 to KEY_WORDS
        invariant |keys| == KEY_WORDS && forall w :: 0 <= w < word ==> keys[w] == 0
      {
        keys := keys[word := 0];
      }
      mouseButtons := 0;
      SetPointerCaptured(false);
      NoKeyDown(keys);
    }
  }

  lemma NoKeyDown(words: seq<bv64>)
    requires |words| == KEY_WORDS && forall w :: 0 <= w < KEY_WORDS ==> words[w] == 0
    ensures forall k: Key :: !KeyDown(words, k)
  {
    hide BitSet, WordOf;
    forall k: Key
      ensures !BitSet(0, k)
    {
      ZeroHasNoBits(k);
    }
  }

  lemma ZeroHasNoBits(key: Key)
    ensures !BitSet(0, key)
  {
  }

  lemma KeyIsInItsWord(key: Key)
    ensures (InWord(0, 64, key) <==> WordOf(key) == 0) && (InWord(64, 64, key) <==> WordOf(key) == 1)
    ensures (InWord(128, 64, key) <==> WordOf(key) == 2) && (InWord(192, 64, key) <==> WordOf(key) == 3)
  {
  }

  // ---- One writer and many snapshots, atomic step by atomic step ----

  /** Where the window's thread is. Releasing counts the key and button stores still to come. */
  datatype Writer =
    | Idle
    | AddingX(dx: i32, dy: i32)
    | AddingY(dy: i32)
    | Releasing(stores: nat)
    | ClearingX
    | ClearingY

  /** Where a snapshot is: what it has exchanged out so far. */
  datatype Reader = Ready | HasX(dx: i32) | HasBoth(dx: i32, dy: i32)

  datatype Reading = Reading(dx: i32, dy: i32, captured: bool)

  /** The fields, the threads, the snapshots returned, and the travel taken in and thrown away. */
  datatype State = State(
    dx: i32, dy: i32, captured: bool,
    writer: Writer, readers: seq<Reader>, readings: seq<Reading>,
    acceptedX: int, acceptedY: int, discardedX: int, discardedY: int)

  datatype Action =
    | BeginAdd(dx: i32, dy: i32)
    | BeginCapture(captured: bool)
    | BeginReleaseAll
    | WriterStep
    | ReaderStep(reader: nat)

  predicate Enabled(s: State, action: Action) {
    match action
    case WriterStep => s.writer != Idle
    case ReaderStep(reader) => reader < |s.readers|
    case _ => s.writer == Idle
  }

  function StoreCaptured(s: State, captured: bool): State {
    s.(captured := captured, writer := if captured then Idle else ClearingX)
  }

  function WriterNext(s: State): State {
    match s.writer
    case Idle => s
    case AddingX(dx, dy) => s.(dx := Wrap32(s.dx as int + dx), acceptedX := s.acceptedX + dx, writer := AddingY(dy))
    case AddingY(dy) => s.(dy := Wrap32(s.dy as int + dy), acceptedY := s.acceptedY + dy, writer := Idle)
    case Releasing(stores) => if stores > 0 then s.(writer := Releasing(stores - 1)) else StoreCaptured(s, false)
    case ClearingX => s.(dx := 0, discardedX := s.discardedX + s.dx, writer := ClearingY)
    case ClearingY => s.(dy := 0, discardedY := s.discardedY + s.dy, writer := Idle)
  }

  function ReaderNext(s: State, i: nat): State
    requires i < |s.readers|
  {
    match s.readers[i]
    case Ready => s.(dx := 0, readers := s.readers[i := HasX(s.dx)])
    case HasX(dx) => s.(dy := 0, readers := s.readers[i := HasBoth(dx, s.dy)])
    case HasBoth(dx, dy) => s.(readers := s.readers[i := Ready], readings := s.readings + [Reading(dx, dy, s.captured)])
  }

  function Next(s: State, action: Action): State
    requires Enabled(s, action)
  {
    match action
    case BeginAdd(dx, dy) => if s.captured then s.(writer := AddingX(dx, dy)) else s
    case BeginCapture(captured) => StoreCaptured(s, captured)
    case BeginReleaseAll => s.(writer := Releasing(KEY_WORDS + 1))
    case WriterStep => WriterNext(s)
    case ReaderStep(reader) => ReaderNext(s, reader)
  }

  function Start(readers: nat): State {
    State(0, 0, false, Idle, seq(readers, _ => Ready), [], 0, 0, 0, 0)
  }

  // ---- Conservation ----

  function HeldX(reader: Reader): int {
    match reader
    case Ready => 0
    case HasX(dx) => dx
    case HasBoth(dx, _) => dx
  }

  function HeldY(reader: Reader): int {
    match reader
    case HasBoth(_, dy) => dy
    case _ => 0
  }

  /** Travel in the snapshots returned. */
  function ReadX(readings: seq<Reading>): int {
    if |readings| == 0 then 0 else ReadX(readings[..|readings| - 1]) + readings[|readings| - 1].dx
  }

  function ReadY(readings: seq<Reading>): int {
    if |readings| == 0 then 0 else ReadY(readings[..|readings| - 1]) + readings[|readings| - 1].dy
  }

  /** Travel in the snapshots not finished yet. */
  function InFlightX(readers: seq<Reader>): int {
    if |readers| == 0 then 0 else InFlightX(readers[..|readers| - 1]) + HeldX(readers[|readers| - 1])
  }

  function InFlightY(readers: seq<Reader>): int {
    if |readers| == 0 then 0 else InFlightY(readers[..|readers| - 1]) + HeldY(readers[|readers| - 1])
  }

  function ReportedX(s: State): int {
    ReadX(s.readings) + InFlightX(s.readers)
  }

  function ReportedY(s: State): int {
    ReadY(s.readings) + InFlightY(s.readers)
  }

  /** Pending travel is exactly what was accepted and neither reported nor discarded, at 32 bits. */
  predicate Conserved(s: State) {
    && s.dx == Wrap32(s.acceptedX - s.discardedX - ReportedX(s))
    && s.dy == Wrap32(s.acceptedY - s.discardedY - ReportedY(s))
  }

  /** Travel is pending while the pointer is free only until the writer has cleared it. */
  predicate FreeMeansNothingPending(s: State) {
    && (s.writer.AddingX? || s.writer.AddingY? ==> s.captured)
    && (s.writer.ClearingX? || s.writer.ClearingY? ==> !s.captured)
    && (!s.captured && !s.writer.ClearingX? ==> s.dx == 0)
    && (!s.captured && !s.writer.ClearingX? && !s.writer.ClearingY? ==> s.dy == 0)
  }

  predicate Inv(s: State) {
    Conserved(s) && FreeMeansNothingPending(s)
  }

  lemma {:induction false} InFlightUpdate(readers: seq<Reader>, i: nat, reader: Reader)
    requires i < |readers|
    ensures InFlightX(readers[i := reader]) == InFlightX(readers) - HeldX(readers[i]) + HeldX(reader)
    ensures InFlightY(readers[i := reader]) == InFlightY(readers) - HeldY(readers[i]) + HeldY(reader)
    decreases |readers|
  {
    var last := |readers| - 1;
    if i < last {
      InFlightUpdate(readers[..last], i, reader);
      assert readers[i := reader][..last] == readers[..last][i := reader];
    } else {
      assert readers[i := reader][..last] == readers[..last];
    }
  }

  lemma ReadMore(readings: seq<Reading>, reading: Reading)
    ensures ReadX(readings + [reading]) == ReadX(readings) + reading.dx
    ensures ReadY(readings + [reading]) == ReadY(readings) + reading.dy
  {
    assert (readings + [reading])[..|readings|] == readings;
  }

  /** Taking the pending amount out, or adding to it, keeps the balance at 32 bits. */
  lemma BalanceMoves(balance: int, delta: int)
    ensures Wrap32(balance - Wrap32(balance)) == 0
    ensures Wrap32(Wrap32(balance) + delta) == Wrap32(balance + delta)
  {
    Wrap32Absorbs(balance, delta);
    var pending: int := Wrap32(balance);
    Wrap32Absorbs(balance, -pending);
  }

  lemma WriterKeepsInv(s: State)
    requires Inv(s) && s.writer != Idle
    ensures Inv(WriterNext(s))
  {
    hide Wrap32;
    var x, y := s.acceptedX - s.discardedX - ReportedX(s), s.acceptedY - s.discardedY - ReportedY(s);
    match s.writer
    case AddingX(dx, _) => BalanceMoves(x, dx);
    case AddingY(dy) => BalanceMoves(y, dy);
    case ClearingX => BalanceMoves(x, 0);
    case ClearingY => BalanceMoves(y, 0);
    case _ => BalanceMoves(0, 0);
  }

  lemma ReaderKeepsInv(s: State, i: nat)
    requires Inv(s) && i < |s.readers|
    ensures Inv(ReaderNext(s, i))
  {
    hide Wrap32;
    var x, y := s.acceptedX - s.discardedX - ReportedX(s), s.acceptedY - s.discardedY - ReportedY(s);
    BalanceMoves(x, 0);
    BalanceMoves(y, 0);
    var next := ReaderNext(s, i);
    InFlightUpdate(s.readers, i, next.readers[i]);
    assert next.readers == s.readers[i := next.readers[i]];
    if s.readers[i].HasBoth? {
      ReadMore(s.readings, Reading(s.readers[i].dx, s.readers[i].dy, s.captured));
    }
  }

  lemma NextKeepsInv(s: State, action: Action)
    requires Inv(s) && Enabled(s, action)
    ensures Inv(Next(s, action))
  {
    hide Conserved;
    match action
    case WriterStep => WriterKeepsInv(s);
    case ReaderStep(reader) => ReaderKeepsInv(s, reader);
    case _ => SameTravel(s, Next(s, action));
  }

  lemma SameTravel(s: State, next: State)
    requires Conserved(s)
    requires next.dx == s.dx && next.dy == s.dy && next.readers == s.readers && next.readings == s.readings
    requires next.acceptedX == s.acceptedX && next.acceptedY == s.acceptedY
    requires next.discardedX == s.discardedX && next.discardedY == s.discardedY
    ensures Conserved(next)
  {
  }

  predicate Possible(s: State, actions: seq<Action>)
    decreases |actions|
  {
    |actions| == 0 || (Enabled(s, actions[0]) && Possible(Next(s, actions[0]), actions[1..]))
  }

  function Run(s: State, actions: seq<Action>): State
    requires Possible(s, actions)
    decreases |actions|
  {
    if |actions| == 0 then s else Run(Next(s, actions[0]), actions[1..])
  }

  lemma {:induction false} RunKeepsInv(s: State, actions: seq<Action>)
    requires Inv(s) && Possible(s, actions)
    ensures Inv(Run(s, actions))
    decreases |actions|
  {
    if |actions| > 0 {
      NextKeepsInv(s, actions[0]);
      RunKeepsInv(Next(s, actions[0]), actions[1..]);
    }
  }

  lemma {:induction false} NothingInFlight(readers: seq<Reader>)
    requires forall i :: 0 <= i < |readers| ==> readers[i] == Ready
    ensures InFlightX(readers) == 0 && InFlightY(readers) == 0
    decreases |readers|
  {
    if |readers| > 0 {
      NothingInFlight(readers[..|readers| - 1]);
    }
  }

  /** Under every interleaving: what the returned snapshots report, what is pending and what was
      discarded add up to what was accepted, per axis and at 32 bits, once no snapshot is half taken. */
  lemma TravelIsConserved(readers: nat, actions: seq<Action>)
    requires Possible(Start(readers), actions)
    ensures var s := Run(Start(readers), actions);
            (forall i :: 0 <= i < |s.readers| ==> s.readers[i] == Ready) ==>
              Wrap32(ReadX(s.readings) + s.dx + s.discardedX) == Wrap32(s.acceptedX)
              && Wrap32(ReadY(s.readings) + s.dy + s.discardedY) == Wrap32(s.acceptedY)
  {
    hide Wrap32;
    var start, s := Start(readers), Run(Start(readers), actions);
    NothingInFlight(start.readers);
    Wrap32Absorbs(0, 0);
    RunKeepsInv(start, actions);
    if forall i :: 0 <= i < |s.readers| ==> s.readers[i] == Ready {
      NothingInFlight(s.readers);
      BalanceMoves(s.acceptedX - s.discardedX - ReadX(s.readings), ReadX(s.readings) + s.discardedX);
      BalanceMoves(s.acceptedY - s.discardedY - ReadY(s.readings), ReadY(s.readings) + s.discardedY);
    }
  }

  /** Nothing is pending once the writer is done and has left the pointer free. */
  lemma ReleaseLeavesNothingPending(readers: nat, actions: seq<Action>)
    requires Possible(Start(readers), actions)
    ensures var s := Run(Start(readers), actions);
            s.writer == Idle && !s.captured ==> s.dx == 0 && s.dy == 0
  {
    var start := Start(readers);
    NothingInFlight(start.readers);
    RunKeepsInv(start, actions);
  }

  // ---- When a snapshot is one consistent reading ----

  /** The reader takes no step of its own among these. */
  predicate Leaves(actions: seq<Action>, i: nat) {
    forall k :: 0 <= k < |actions| ==> actions[k] != ReaderStep(i)
  }

  lemma {:induction false} OthersLeaveTheReader(s: State, actions: seq<Action>, i: nat)
    requires Possible(s, actions) && Leaves(actions, i) && i < |s.readers|
    ensures |Run(s, actions).readers| == |s.readers| && Run(s, actions).readers[i] == s.readers[i]
    decreases |actions|
  {
    if |actions| > 0 {
      assert actions[0] != ReaderStep(i);
      OthersLeaveTheReader(Next(s, actions[0]), actions[1..], i);
    }
  }

  lemma SameAt32Bits(a: int, b: int)
    ensures Wrap32(a) == Wrap32(b) <==> (a - b) % 0x1_0000_0000 == 0
  {
    var m := 0x1_0000_0000;
    var p, q := (a + 0x8000_0000) / m, (b + 0x8000_0000) / m;
    assert a == Wrap32(a) + p * m && b == Wrap32(b) + q * m;
    assert a - b == (Wrap32(a) - Wrap32(b)) + (p - q) * m;
    if Wrap32(a) == Wrap32(b) {
      MultipleHasNoRemainder(p - q);
    } else if (a - b) % m == 0 {
      var d := (a - b) / m;
      assert Wrap32(a) - Wrap32(b) == (d - p + q) * m;
      SmallMultipleIsZero(d - p + q, Wrap32(a) - Wrap32(b));
    }
  }

  lemma MultipleHasNoRemainder(k: int)
    ensures k * 0x1_0000_0000 % 0x1_0000_0000 == 0
  {
  }

  lemma SmallMultipleIsZero(k: int, x: int)
    requires x == k * 0x1_0000_0000 && -0x1_0000_0000 < x < 0x1_0000_0000
    ensures x == 0
  {
  }

  /** What a snapshot would return that took all of it in `p`: what reader `i` already holds,
      what is pending, and the capture. */
  function AtInstant(p: State, i: nat): Reading
    requires i < |p.readers|
  {
    Reading(Wrap32(HeldX(p.readers[i]) + p.dx), Wrap32(HeldY(p.readers[i]) + p.dy), p.captured)
  }

  /** The travel accepted, not discarded, and not reported by anyone but reader `i`. */
  function BalanceX(p: State, i: nat): int
    requires i < |p.readers|
  {
    p.acceptedX - p.discardedX - ReportedX(p) + HeldX(p.readers[i])
  }

  function BalanceY(p: State, i: nat): int
    requires i < |p.readers|
  {
    p.acceptedY - p.discardedY - ReportedY(p) + HeldY(p.readers[i])
  }

  predicate SameTravel32(a: int, b: int) {
    (a - b) % 0x1_0000_0000 == 0
  }

  /** An instant's reading is its balance, at 32 bits. */
  lemma InstantShowsTheBalance(p: State, i: nat)
    requires Inv(p) && i < |p.readers|
    ensures AtInstant(p, i).dx == Wrap32(BalanceX(p, i)) && AtInstant(p, i).dy == Wrap32(BalanceY(p, i))
  {
    hide Wrap32;
    Wrap32Absorbs(p.acceptedX - p.discardedX - ReportedX(p), HeldX(p.readers[i]));
    Wrap32Absorbs(p.acceptedY - p.discardedY - ReportedY(p), HeldY(p.readers[i]));
  }

  /** Whatever the writer and other snapshots do between the exchanges (`between`) and before the
      last load (`after`), a snapshot begun in `s` returns the x of its start, the y of its second
      exchange and the capture of its load. */
  lemma SnapshotReturns(s: State, i: nat, between: seq<Action>, after: seq<Action>) returns (t: State, u: State)
    requires i < |s.readers| && s.readers[i] == Ready
    requires Possible(Next(s, ReaderStep(i)), between) && Leaves(between, i) && Leaves(after, i)
    requires var second := Run(Next(s, ReaderStep(i)), between);
             i < |second.readers| && Possible(Next(second, ReaderStep(i)), after)
    ensures t == Run(Next(s, ReaderStep(i)), between) && u == Run(Next(t, ReaderStep(i)), after)
    ensures i < |u.readers| && Next(u, ReaderStep(i)).readings == u.readings + [Reading(s.dx, t.dy, u.captured)]
  {
    var first := Next(s, ReaderStep(i));
    OthersLeaveTheReader(first, between, i);
    t := Run(first, between);
    var second := Next(t, ReaderStep(i));
    OthersLeaveTheReader(second, after, i);
    u := Run(second, after);
  }

  /** The actions of one snapshot among others': its exchanges, with `between` between them, and
      `after` before its load. */
  function Taking(i: nat, between: seq<Action>, after: seq<Action>): seq<Action> {
    [ReaderStep(i)] + between + [ReaderStep(i)] + after
  }

  /** The states from the start of the snapshot to its load. */
  function Instant(s: State, actions: seq<Action>, k: nat): State
    requires Possible(s, actions) && k <= |actions|
  {
    PossibleInTwo(s, actions[..k], actions[k..]);
    assert actions[..k] + actions[k..] == actions;
    Run(s, actions[..k])
  }

  lemma {:induction false} PossibleInTwo(s: State, left: seq<Action>, right: seq<Action>)
    ensures Possible(s, left + right) <==> Possible(s, left) && Possible(Run(s, left), right)
    ensures Possible(s, left + right) ==> Run(s, left + right) == Run(Run(s, left), right)
    decreases |left|
  {
    if |left| == 0 {
      assert left + right == right;
    } else {
      assert (left + right)[0] == left[0] && (left + right)[1..] == left[1..] + right;
      if Enabled(s, left[0]) {
        PossibleInTwo(Next(s, left[0]), left[1..], right);
      }
    }
  }

  lemma {:induction false} ReadersStay(s: State, actions: seq<Action>)
    requires Possible(s, actions)
    ensures |Run(s, actions).readers| == |s.readers|
    decreases |actions|
  {
    if |actions| > 0 {
      ReadersStay(Next(s, actions[0]), actions[1..]);
    }
  }

  /** At instant k the x balance is that of the start, the y balance that of the second exchange,
      in state `t`, and the capture that of the load, in state `u`. */
  predicate Meets(s: State, t: State, u: State, p: State, i: nat)
    requires i < |s.readers| && i < |t.readers| && i < |p.readers|
  {
    SameTravel32(BalanceX(p, i), BalanceX(s, i)) && SameTravel32(BalanceY(p, i), BalanceY(t, i)) && p.captured == u.captured
  }

  /** The state in which the second exchange happens. */
  function SecondExchange(s: State, i: nat, between: seq<Action>, after: seq<Action>): (t: State)
    requires i < |s.readers| && Possible(s, Taking(i, between, after))
    ensures |t.readers| == |s.readers|
  {
    TakingParts(s, i, between, after);
    Run(Next(s, ReaderStep(i)), between)
  }

  lemma TakingParts(s: State, i: nat, between: seq<Action>, after: seq<Action>)
    requires i < |s.readers| && Possible(s, Taking(i, between, after))
    ensures Possible(Next(s, ReaderStep(i)), between)
    ensures var t := Run(Next(s, ReaderStep(i)), between);
            && |t.readers| == |s.readers| && Possible(Next(t, ReaderStep(i)), after)
            && Run(s, Taking(i, between, after)) == Run(Next(t, ReaderStep(i)), after)
  {
    var first, rest := Next(s, ReaderStep(i)), between + ([ReaderStep(i)] + after);
    assert Taking(i, between, after) == [ReaderStep(i)] + rest;
    assert Taking(i, between, after)[1..] == rest;
    PossibleInTwo(first, between, [ReaderStep(i)] + after);
    ReadersStay(first, between);
    assert ([ReaderStep(i)] + after)[1..] == after;
  }

  /** One instant shows what the snapshot returns exactly when it meets its two exchanges and its load. */
  lemma InstantShowsTheReadingIff(s: State, t: State, u: State, p: State, i: nat)
    requires Inv(s) && Inv(t) && Inv(p) && i < |s.readers| && i < |t.readers| && i < |p.readers|
    requires s.readers[i] == Ready && t.readers[i].HasX?
    ensures AtInstant(p, i) == Reading(s.dx, t.dy, u.captured) <==> Meets(s, t, u, p, i)
  {
    hide Inv, Wrap32, SameTravel32;
    InstantShowsTheBalance(s, i);
    InstantShowsTheBalance(t, i);
    InstantShowsTheBalance(p, i);
    SmallIsItself(s.dx);
    SmallIsItself(t.dy);
    Same32(BalanceX(p, i), BalanceX(s, i));
    Same32(BalanceY(p, i), BalanceY(t, i));
  }

  lemma SmallIsItself(x: i32)
    ensures Wrap32(x) == x
  {
  }

  lemma Same32(a: int, b: int)
    ensures Wrap32(a) == Wrap32(b) <==> SameTravel32(a, b)
  {
    hide Wrap32;
    SameAt32Bits(a, b);
  }

  /** Some instant of the snapshot, one where the writer is idle if `whole`, shows this reading. */
  predicate ShownAtSomeInstant(s: State, i: nat, actions: seq<Action>, reading: Reading, whole: bool)
    requires i < |s.readers| && Possible(s, actions)
  {
    exists k :: 0 <= k <= |actions| && ShownAt(s, i, actions, reading, whole, k)
  }

  predicate ShownAt(s: State, i: nat, actions: seq<Action>, reading: Reading, whole: bool, k: nat)
    requires i < |s.readers| && Possible(s, actions) && k <= |actions|
  {
    var p := Instant(s, actions, k);
    && i < |p.readers| && AtInstant(p, i) == reading && (whole ==> p.writer == Idle)
  }

  /** Some instant, one where the writer is idle if `whole`, has the x balance of the start, the y
      balance of the second exchange and the capture of the load. */
  predicate MetAtSomeInstant(s: State, i: nat, between: seq<Action>, after: seq<Action>, whole: bool)
    requires i < |s.readers| && Possible(s, Taking(i, between, after))
  {
    exists k :: 0 <= k <= |Taking(i, between, after)| && MetAt(s, i, between, after, whole, k)
  }

  predicate MetAt(s: State, i: nat, between: seq<Action>, after: seq<Action>, whole: bool, k: nat)
    requires i < |s.readers| && Possible(s, Taking(i, between, after)) && k <= |Taking(i, between, after)|
  {
    var actions := Taking(i, between, after);
    var p := Instant(s, actions, k);
    && i < |p.readers| && Meets(s, SecondExchange(s, i, between, after), Run(s, actions), p, i)
    && (whole ==> p.writer == Idle)
  }

  /** A snapshot is one consistent reading, the fields of some instant between its start and its
      load, if and only if some instant has the x balance of its start, the y balance of its second
      exchange and the capture of its load; and likewise for the instants between whole moves. */
  lemma SnapshotIsConsistentIff(s: State, i: nat, between: seq<Action>, after: seq<Action>, whole: bool)
    returns (reading: Reading)
    requires Inv(s) && i < |s.readers| && s.readers[i] == Ready
    requires Possible(s, Taking(i, between, after)) && Leaves(between, i) && Leaves(after, i)
    ensures var u := Run(s, Taking(i, between, after));
            && i < |u.readers| && Next(u, ReaderStep(i)).readings == u.readings + [reading]
            && reading == Reading(s.dx, SecondExchange(s, i, between, after).dy, u.captured)
    ensures ShownAtSomeInstant(s, i, Taking(i, between, after), reading, whole)
            <==> MetAtSomeInstant(s, i, between, after, whole)
  {
    hide Inv, AtInstant, Meets, Taking;
    TakingParts(s, i, between, after);
    var t, u := SnapshotReturns(s, i, between, after);
    reading := Reading(s.dx, t.dy, u.captured);
    var actions := Taking(i, between, after);
    forall k | 0 <= k <= |actions|
      ensures ShownAt(s, i, actions, reading, whole, k) <==> MetAt(s, i, between, after, whole, k)
    {
      InstantIsShownIffMet(s, i, between, after, k, t, u);
    }
  }

  lemma InstantIsShownIffMet(s: State, i: nat, between: seq<Action>, after: seq<Action>, k: nat, t: State, u: State)
    requires Inv(s) && i < |s.readers| && s.readers[i] == Ready && Leaves(between, i)
    requires Possible(s, Taking(i, between, after)) && k <= |Taking(i, between, after)|
    requires t == SecondExchange(s, i, between, after) && u == Run(s, Taking(i, between, after))
    ensures var p := Instant(s, Taking(i, between, after), k);
            i < |p.readers| && (AtInstant(p, i) == Reading(s.dx, t.dy, u.captured) <==> Meets(s, t, u, p, i))
  {
    hide AtInstant, Meets, Taking, Wrap32;
    var actions := Taking(i, between, after);
    assert actions[..k] + actions[k..] == actions;
    PossibleInTwo(s, actions[..k], actions[k..]);
    RunKeepsInv(s, actions[..k]);
    ReadersStay(s, actions[..k]);
    TakingParts(s, i, between, after);
    NextKeepsInv(s, ReaderStep(i));
    RunKeepsInv(Next(s, ReaderStep(i)), between);
    OthersLeaveTheReader(Next(s, ReaderStep(i)), between, i);
    InstantShowsTheReadingIff(s, t, u, Run(s, actions[..k]), i);
  }

  /** A snapshot that no one interrupts is one consistent reading of all pending travel. */
  lemma UndisturbedSnapshotReportsAll(s: State, i: nat)
    requires i < |s.readers| && s.readers[i] == Ready
    ensures var actions := [ReaderStep(i), ReaderStep(i), ReaderStep(i)];
            Possible(s, actions)
            && Run(s, actions) == s.(dx := 0, dy := 0, readings := s.readings + [Reading(s.dx, s.dy, s.captured)])
  {
    var first := Next(s, ReaderStep(i));
    var second := Next(first, ReaderStep(i));
    var third := Next(second, ReaderStep(i));
    var t, u := SnapshotReturns(s, i, [], []);
    RunFirst(second, ReaderStep(i), []);
    RunFirst(first, ReaderStep(i), [ReaderStep(i)]);
    RunFirst(s, ReaderStep(i), [ReaderStep(i), ReaderStep(i)]);
    assert [ReaderStep(i)] + [ReaderStep(i), ReaderStep(i)] == [ReaderStep(i), ReaderStep(i), ReaderStep(i)];
    assert [ReaderStep(i)] + [ReaderStep(i)] == [ReaderStep(i), ReaderStep(i)];
    assert third.readers == s.readers;
  }

  lemma RunFirst(s: State, action: Action, rest: seq<Action>)
    requires Enabled(s, action) && Possible(Next(s, action), rest)
    ensures Possible(s, [action] + rest) && Run(s, [action] + rest) == Run(Next(s, action), rest)
  {
    assert ([action] + rest)[1..] == rest;
  }

  /** A snapshot can fall inside a move: this one reports a move's x without its y, which stays
      pending. */
  lemma SnapshotCanSplitAMove() returns (actions: seq<Action>)
    ensures Possible(Start(1), actions)
    ensures var s := Run(Start(1), actions);
            s.writer == Idle && s.readings == [Reading(1, 0, true)] && s.acceptedX == s.acceptedY == s.dy == 1
  {
    var s0 := Start(1);
    var s1 := Next(s0, BeginCapture(true));
    var s2 := Next(s1, BeginAdd(1, 1));
    var s3 := Next(s2, WriterStep);
    var s4 := Next(s3, ReaderStep(0));
    var s5 := Next(s4, ReaderStep(0));
    var s6 := Next(s5, ReaderStep(0));
    var s7 := Next(s6, WriterStep);
    assert s7.readings == [Reading(1, 0, true)] && s7.dy == 1;
    actions := [];
    RunFirst(s6, WriterStep, actions);
    actions := [WriterStep] + actions;
    RunFirst(s5, ReaderStep(0), actions);
    actions := [ReaderStep(0)] + actions;
    RunFirst(s4, ReaderStep(0), actions);
    actions := [ReaderStep(0)] + actions;
    RunFirst(s3, ReaderStep(0), actions);
    actions := [ReaderStep(0)] + actions;
    RunFirst(s2, WriterStep, actions);
    actions := [WriterStep] + actions;
    RunFirst(s1, BeginAdd(1, 1), actions);
    actions := [BeginAdd(1, 1)] + actions;
    RunFirst(s0, BeginCapture(true), actions);
    actions := [BeginCapture(true)] + actions;
  }

  const MISSING := [ReaderStep(0), BeginAdd(1, 1), WriterStep, WriterStep, ReaderStep(0)]

  /** The states of a captured pointer's move of (1, 1) between a snapshot's two exchanges. */
  function MissingState(k: nat): State {
    match k
    case 0 => State(0, 0, true, Idle, [Ready], [], 0, 0, 0, 0)
    case 1 => State(0, 0, true, Idle, [HasX(0)], [], 0, 0, 0, 0)
    case 2 => State(0, 0, true, AddingX(1, 1), [HasX(0)], [], 0, 0, 0, 0)
    case 3 => State(1, 0, true, AddingY(1), [HasX(0)], [], 1, 0, 0, 0)
    case 4 => State(1, 1, true, Idle, [HasX(0)], [], 1, 1, 0, 0)
    case _ => State(1, 0, true, Idle, [HasBoth(0, 1)], [], 1, 1, 0, 0)
  }

  lemma MissingStep(k: nat)
    requires k < 5
    ensures Enabled(MissingState(k), MISSING[k]) && Next(MissingState(k), MISSING[k]) == MissingState(k + 1)
  {
    SmallIsItself(1);
    assert [HasX(0)][0 := HasBoth(0, 1)] == [HasBoth(0, 1)];
    assert [Ready][0 := HasX(0)] == [HasX(0)];
  }

  lemma {:induction false} MissingRun(k: nat)
    requires k <= 5
    ensures Possible(MissingState(0), MISSING[..k]) && Run(MissingState(0), MISSING[..k]) == MissingState(k)
  {
    hide MissingState, Enabled, Next;
    if k == 0 {
      assert MISSING[..0] == [];
    } else {
      MissingRun(k - 1);
      MissingStep(k - 1);
      assert MISSING[..k] == MISSING[..k - 1] + [MISSING[k - 1]];
      RunLast(MissingState(0), MISSING[..k - 1], MISSING[k - 1]);
    }
  }

  lemma MissingIsTaken()
    ensures Taking(0, [BeginAdd(1, 1), WriterStep, WriterStep], []) == MISSING == MISSING[..5]
  {
  }

  lemma MissingShowsNothing(k: nat)
    requires k <= 5
    ensures |MissingState(k).readers| == 1 && AtInstant(MissingState(k), 0) != Reading(0, 1, true)
  {
    SmallIsItself(0);
    SmallIsItself(1);
  }

  lemma StartHoldsInv(readers: nat)
    ensures Inv(Start(readers))
  {
    hide Wrap32;
    Wrap32Absorbs(0, 0);
    NothingInFlight(Start(readers).readers);
  }

  lemma MissingStart()
    ensures Inv(MissingState(0))
  {
    hide Inv;
    StartHoldsInv(1);
    NextKeepsInv(Start(1), BeginCapture(true));
    assert Start(1).readers == [Ready];
  }

  /** A snapshot need not show any instant: this one reads x before a move and y after it, and no
      state from its start to its load has that reading. */
  lemma SnapshotCanMissEveryInstant() returns (s: State, between: seq<Action>, u: State)
    ensures Inv(s) && |s.readers| == 1 && s.readers[0] == Ready && s.writer == Idle && Leaves(between, 0)
    ensures Possible(s, Taking(0, between, [])) && Run(s, Taking(0, between, [])) == u && u.writer == Idle
    ensures |u.readers| == 1 && Next(u, ReaderStep(0)).readings == s.readings + [Reading(0, 1, true)]
    ensures !ShownAtSomeInstant(s, 0, Taking(0, between, []), Reading(0, 1, true), false)
  {
    hide Inv, Run, AtInstant, Possible, Taking;
    MissingStart();
    MissingIsTaken();
    MissingRun(5);
    s, between, u := MissingState(0), [BeginAdd(1, 1), WriterStep, WriterStep], MissingState(5);
    forall k | 0 <= k <= |MISSING|
      ensures !ShownAt(s, 0, MISSING, Reading(0, 1, true), false, k)
    {
      MissingRun(k);
      MissingShowsNothing(k);
    }
  }

  lemma RunLast(s: State, before: seq<Action>, last: Action)
    requires Possible(s, before) && Enabled(Run(s, before), last)
    ensures Possible(s, before + [last]) && Run(s, before + [last]) == Next(Run(s, before), last)
  {
    PossibleInTwo(s, before, [last]);
    assert [last][1..] == [];
  }

  // ---- The step system and the methods ----

  function PointerOf(s: State): Pointer {
    Pointer(s.dx, s.dy, s.captured)
  }

  /** Where the writer's remaining stores leave the pointer, if nothing else happens. */
  function Finished(s: State): Pointer {
    match s.writer
    case Idle => PointerOf(s)
    case AddingX(dx, dy) => Pointer(Wrap32(s.dx as int + dx), Wrap32(s.dy as int + dy), s.captured)
    case AddingY(dy) => Pointer(s.dx, Wrap32(s.dy as int + dy), s.captured)
    case Releasing(_) => Pointer(0, 0, false)
    case ClearingX => Pointer(0, 0, s.captured)
    case ClearingY => Pointer(s.dx, 0, s.captured)
  }

  function StepsLeft(writer: Writer): nat {
    match writer
    case Idle => 0
    case AddingX(_, _) => 2
    case AddingY(_) => 1
    case Releasing(stores) => stores + 3
    case ClearingX => 2
    case ClearingY => 1
  }

  predicate OnlyWriterSteps(actions: seq<Action>) {
    forall k :: 0 <= k < |actions| ==> actions[k] == WriterStep
  }

  lemma {:induction false} WriterFinishes(s: State) returns (actions: seq<Action>)
    ensures OnlyWriterSteps(actions) && Possible(s, actions)
    ensures var end := Run(s, actions);
            end.writer == Idle && PointerOf(end) == Finished(s) && end.readers == s.readers && end.readings == s.readings
    decreases StepsLeft(s.writer)
  {
    if s.writer == Idle {
      return [];
    }
    var rest := WriterFinishes(Next(s, WriterStep));
    RunFirst(s, WriterStep, rest);
    actions := [WriterStep] + rest;
  }

  /** What the method a write stands for makes of the pointer. */
  function Begun(p: Pointer, begin: Action): Pointer {
    match begin
    case BeginAdd(dx, dy) => p.Travelled(dx, dy)
    case BeginCapture(captured) => p.Capture(captured)
    case BeginReleaseAll => p.Capture(false)
    case _ => p
  }

  /** An uninterrupted writer has the effect of the method it stands for: a move that of
      AddPointerTravel, a capture that of SetPointerCaptured, a release that of ReleaseAll. */
  lemma UninterruptedWriterIsItsMethod(s: State, begin: Action) returns (rest: seq<Action>)
    requires s.writer == Idle && (begin.BeginAdd? || begin.BeginCapture? || begin.BeginReleaseAll?)
    ensures OnlyWriterSteps(rest) && Possible(s, [begin] + rest)
    ensures var end := Run(s, [begin] + rest);
            && end.writer == Idle && end.readers == s.readers && end.readings == s.readings
            && PointerOf(end) == Begun(PointerOf(s), begin)
  {
    rest := WriterFinishes(Next(s, begin));
    RunFirst(s, begin, rest);
  }

  /** An uninterrupted snapshot has the effect of TakeSnapshot. */
  lemma UninterruptedReaderIsTakeSnapshot(s: State, i: nat)
    requires i < |s.readers| && s.readers[i] == Ready
    ensures var actions := [ReaderStep(i), ReaderStep(i), ReaderStep(i)];
            && Possible(s, actions) && PointerOf(Run(s, actions)) == PointerOf(s).Consumed()
            && Run(s, actions).readings == s.readings + [Reading(s.dx, s.dy, s.captured)]
  {
    UndisturbedSnapshotReportsAll(s, i);
  }
}
