/** Bytes, fixed-width words and the two byte orders the runtime reads and writes. */
module Bytes {
  type byte = x: int | 0 <= x < 0x100
  type u16 = x: int | 0 <= x < 0x1_0000
  type u32 = x: int | 0 <= x < 0x1_0000_0000
  type u64 = x: int | 0 <= x < 0x1_0000_0000_0000_0000

  /** A byte string: the source's std::string and std::string_view. */
  type text = seq<byte>

  datatype Option<+T> = None | Some(value: T)

  datatype Result<+T, +E> = Ok(value: T) | Err(error: E)

  function Min(a: int, b: int): int {
    if a < b then a else b
  }

  function Max(a: int, b: int): int {
    if a < b then b else a
  }

  /** offset and count name bytes that exist; the test never adds the two. */
  predicate HasBytes(bytes: seq<byte>, offset: nat, count: nat) {
    offset <= |bytes| && count <= |bytes| - offset
  }

  lemma HasBytesIffTheyExist(bytes: seq<byte>, offset: nat, count: nat)
    ensures HasBytes(bytes, offset, count) <==> offset + count <= |bytes|
  {
  }

  /** The word whose bytes are a to d, most significant first. */
  function Word(a: int, b: int, c: int, d: int): int {
    a * 0x100_0000 + b * 0x1_0000 + c * 0x100 + d
  }

  /** Most significant byte first. */
  function Be32(value: u32): (bytes: seq<byte>)
    ensures |bytes| == 4
  {
    [value / 0x100_0000 % 0x100, value / 0x1_0000 % 0x100, value / 0x100 % 0x100, value % 0x100]
  }

  function ReadBe32(bytes: seq<byte>, offset: nat): u32
    requires HasBytes(bytes, offset, 4)
  {
    Word(bytes[offset], bytes[offset + 1], bytes[offset + 2], bytes[offset + 3])
  }

  function ReadBe16(bytes: seq<byte>, offset: nat): u16
    requires HasBytes(bytes, offset, 2)
  {
    Word(0, 0, bytes[offset], bytes[offset + 1])
  }

  /** A word's halves are its own, the upper one first. */
  lemma HalvesOfWord(bytes: seq<byte>, offset: nat)
    requires HasBytes(bytes, offset, 4)
    ensures ReadBe32(bytes, offset) == 0x1_0000 * ReadBe16(bytes, offset) as int + ReadBe16(bytes, offset + 2)
  {
  }

  /** Least significant byte first. */
  function Le32(value: u32): (bytes: seq<byte>)
    ensures |bytes| == 4
  {
    [value % 0x100, value / 0x100 % 0x100, value / 0x1_0000 % 0x100, value / 0x100_0000 % 0x100]
  }

  function ReadLe32(bytes: seq<byte>, offset: nat): u32
    requires HasBytes(bytes, offset, 4)
  {
    Word(bytes[offset + 3], bytes[offset + 2], bytes[offset + 1], bytes[offset])
  }

  function ReadLe16(bytes: seq<byte>, offset: nat): u16
    requires HasBytes(bytes, offset, 2)
  {
    Word(0, 0, bytes[offset + 1], bytes[offset])
  }

  /** A word stored and read back in the same order is the word. */
  lemma WordRoundTrip(value: u32)
    ensures ReadBe32(Be32(value), 0) == value
    ensures ReadLe32(Le32(value), 0) == value
  {
    var q1, q2, q3 := value / 0x100, value / 0x1_0000, value / 0x100_0000;
    assert value == 0x100 * q1 + value % 0x100;
    assert q1 == 0x100 * q2 + q1 % 0x100;
    assert q2 == 0x100 * q3 + q2 % 0x100;
    assert q3 % 0x100 == q3;
  }

  /** Four bytes read as a word and stored back in the same order are the bytes. */
  lemma BytesRoundTrip(bytes: seq<byte>)
    requires |bytes| == 4
    ensures Be32(ReadBe32(bytes, 0)) == bytes
    ensures Le32(ReadLe32(bytes, 0)) == bytes
  {
    StoredWord(bytes[0], bytes[1], bytes[2], bytes[3]);
    StoredWord(bytes[3], bytes[2], bytes[1], bytes[0]);
  }

  lemma StoredWord(a: byte, b: byte, c: byte, d: byte)
    ensures 0 <= Word(a, b, c, d) < 0x1_0000_0000
    ensures Be32(Word(a, b, c, d)) == [a, b, c, d] && Le32(Word(a, b, c, d)) == [d, c, b, a]
  {
    WordParts(a, b, c, d);
    WordIsSmall(a, b, c, d);
    hide Word;
  }

  lemma WordIsSmall(a: byte, b: byte, c: byte, d: byte)
    ensures 0 <= Word(a, b, c, d) < 0x1_0000_0000
  {
  }

  lemma WordParts(a: byte, b: byte, c: byte, d: byte)
    ensures Word(a, b, c, d) / 0x100_0000 == a
    ensures Word(a, b, c, d) / 0x1_0000 % 0x100 == b
    ensures Word(a, b, c, d) / 0x100 % 0x100 == c
    ensures Word(a, b, c, d) % 0x100 == d
  {
    var ia: int, ib: int, ic: int, id: int := a, b, c, d;
    assert Word(a, b, c, d) / 0x100 == ia * 0x1_0000 + ib * 0x100 + ic;
    assert Word(a, b, c, d) / 0x1_0000 == ia * 0x100 + ib;
  }

  /** A word read one way and stored the other reverses its bytes. */
  lemma SwapReverses(bytes: seq<byte>)
    requires |bytes| == 4
    ensures Le32(ReadBe32(bytes, 0)) == [bytes[3], bytes[2], bytes[1], bytes[0]]
  {
    BytesRoundTrip(bytes);
    assert Be32(ReadBe32(bytes, 0)) == bytes;
  }

  /** `bytes` with `patch` written at `offset`. */
  function Patched(bytes: seq<byte>, offset: nat, patch: seq<byte>): (patched: seq<byte>)
    requires HasBytes(bytes, offset, |patch|)
    ensures |patched| == |bytes|
    ensures forall k {:trigger patched[k]} :: 0 <= k < |bytes| ==>
      patched[k] == if offset <= k < offset + |patch| then patch[k - offset] else bytes[k]
  {
    bytes[..offset] + patch + bytes[offset + |patch|..]
  }

  /** `part` stands in `bytes` at `offset`. */
  predicate StandsAt(bytes: seq<byte>, offset: nat, part: seq<byte>) {
    HasBytes(bytes, offset, |part|) && bytes[offset..offset + |part|] == part
  }

  /** A concatenation stands where its halves stand one after the other. */
  lemma ConcatenationStands(bytes: seq<byte>, offset: nat, left: seq<byte>, right: seq<byte>)
    ensures StandsAt(bytes, offset, left + right) <==>
            StandsAt(bytes, offset, left) && StandsAt(bytes, offset + |left|, right)
  {
    if StandsAt(bytes, offset, left + right) {
      var whole := bytes[offset..offset + |left| + |right|];
      assert bytes[offset..offset + |left|] == whole[..|left|] == left;
      assert bytes[offset + |left|..offset + |left| + |right|] == whole[|left|..] == right;
    }
    if StandsAt(bytes, offset, left) && StandsAt(bytes, offset + |left|, right) {
      assert bytes[offset..offset + |left| + |right|] ==
             bytes[offset..offset + |left|] + bytes[offset + |left|..offset + |left| + |right|];
    }
  }
}
