/** The hasher of src/digest.cpp: one 64-byte block, hashed in place as it fills. */
module Digest {
  import opened Bytes
  import opened Fips180

  const LENGTH_OFFSET: nat := 56

  /** Byte `index` of a number: shifted right by whole bytes and cut to eight bits. */
  function ShiftedByte(value: nat, index: nat): byte {
    if index == 0 then value % 0x100 else ShiftedByte(value / 0x100, index - 1)
  }

  lemma {:induction false} BigEndianByte(value: nat, size: nat, index: nat)
    requires index < size
    ensures BigEndian(value, size)[size - 1 - index] == ShiftedByte(value, index)
  {
    if index > 0 {
      BigEndianByte(value / 0x100, size - 1, index - 1);
    }
  }

  lemma Be32Byte(value: u32, index: nat)
    requires index < 4
    ensures Be32(value)[index] == ShiftedByte(value, 3 - index)
  {
    var shifted := value / 0x100;
    assert shifted / 0x100 == value / 0x1_0000 && shifted / 0x100 / 0x100 == value / 0x100_0000;
    assert ShiftedByte(value, 1) == ShiftedByte(shifted, 0);
    assert ShiftedByte(shifted, 1) == ShiftedByte(shifted / 0x100, 0);
    assert ShiftedByte(shifted, 2) == ShiftedByte(shifted / 0x100, 1);
    assert ShiftedByte(shifted / 0x100, 1) == ShiftedByte(shifted / 0x100 / 0x100, 0);
  }

  lemma PaddingStops(n: nat, zeros: nat)
    requires zeros <= ZeroBytes(n)
    ensures (n + 1 + zeros) % 64 == LENGTH_OFFSET <==> zeros == ZeroBytes(n)
  {
    var r := n % 64;
    assert n == n / 64 * 64 + r;
    assert (n + 1 + zeros) % 64 == (r + 1 + zeros) % 64;
  }

  /** Counting bytes modulo 2^64 and then bits modulo 2^64 is counting bits modulo 2^64. */
  lemma LengthWraps(n: nat)
    ensures n % 0x1_0000_0000_0000_0000 * 8 % 0x1_0000_0000_0000_0000 == 8 * n % 0x1_0000_0000_0000_0000
  {
  }

  lemma LengthAdds(n: nat, more: nat)
    ensures (n % 0x1_0000_0000_0000_0000 + more) % 0x1_0000_0000_0000_0000 == (n + more) % 0x1_0000_0000_0000_0000
  {
  }

  /** How many of n bytes fill whole blocks. */
  function Whole(n: nat): (whole: nat)
    ensures whole <= n < whole + 64 && whole % 64 == 0 && n % 64 == n - whole
  {
    n / 64 * 64
  }

  /** The hash of the whole blocks among `bytes`, and the bytes after them. */
  function Hashed(bytes: seq<byte>): seq<word> {
    HashBlocks(bytes[..Whole(|bytes|)])
  }

  function Rest(bytes: seq<byte>): seq<byte> {
    bytes[Whole(|bytes|)..]
  }

  lemma WholeOfNext(n: nat)
    ensures Whole(n + 1) == if n % 64 == 63 then n + 1 else Whole(n)
  {
  }

  /** One more byte either lengthens the remainder or completes a block. */
  lemma OneMoreByte(bytes: seq<byte>, value: byte)
    ensures |Rest(bytes)| < 64
    ensures |Rest(bytes)| < 63 ==>
      Hashed(bytes + [value]) == Hashed(bytes) && Rest(bytes + [value]) == Rest(bytes) + [value]
    ensures |Rest(bytes)| == 63 ==>
      Hashed(bytes + [value]) == NextHash(Hashed(bytes), Rest(bytes) + [value]) && Rest(bytes + [value]) == []
  {
    hide NextHash;
    var n := |bytes|;
    WholeOfNext(n);
    var longer := bytes + [value];
    if |Rest(bytes)| < 63 {
      assert longer[..Whole(n)] == bytes[..Whole(n)];
    } else {
      assert longer[..Whole(n + 1)] == longer;
      assert longer[..n + 1 - 64] == bytes[..Whole(n)];
      assert longer[n + 1 - 64..] == Rest(bytes) + [value];
    }
  }

  /** What the stream computes for any message: the bit count is cut to 64 bits,
      which loses nothing for a message FIPS 180-4 defines a digest for. */
  function DigestOf(message: seq<byte>): (digest: seq<byte>)
    ensures |digest| == 32
  {
    WordBytes(HashBlocks(Padded(message, 8 * |message| % 0x1_0000_0000_0000_0000)))
  }

  lemma DigestIsSha256(message: seq<byte>)
    requires 8 * |message| < 0x1_0000_0000_0000_0000
    ensures DigestOf(message) == Sha256(message)
  {
    hide HashBlocks, Padded, WordBytes;
  }

  lemma ScheduleWord(block: seq<byte>, t: nat)
    requires |block| == 64 && 16 <= t < 64
    ensures W(block, t) ==
            Add(Add(Add(W(block, t - 16), SmallSigma0(W(block, t - 15))), W(block, t - 7)), SmallSigma1(W(block, t - 2)))
  {
    hide Add, SmallSigma0, SmallSigma1, BlockWord;
  }

  lemma FirstWord(block: seq<byte>, t: nat)
    requires |block| == 64 && t < 16
    ensures W(block, t) == WordOf(ReadBe32(block, 4 * t))
  {
    hide ReadBe32, WordOf;
  }

  lemma RoundsGiveNextHash(hash: seq<word>, block: seq<byte>, working: seq<word>, next: seq<word>)
    requires |hash| == |working| == |next| == 8 && |block| == 64
    requires WorkingOf(working) == Rounds(hash, block, 64)
    requires forall i :: 0 <= i < 8 ==> next[i] == Add(hash[i], working[i])
    ensures next == NextHash(hash, block)
  {
    hide Rounds, Add;
    var v := Rounds(hash, block, 64);
    assert v.a == working[0] && v.b == working[1] && v.c == working[2] && v.d == working[3];
    assert v.e == working[4] && v.f == working[5] && v.g == working[6] && v.h == working[7];
  }

  class Sha256Stream {
    const state: array<word>
    const block: array<byte>
    var blockSize: nat
    var totalBytes: u64

    // Everything updated into the stream so far.
    ghost var fed: seq<byte>

    ghost const Repr: set<object> := {this, state, block}

    /** The hash covers every whole block fed; the block buffer holds the rest. */
    ghost predicate Holds()
      reads this, state, block
    {
      && state.Length == 8
      && block.Length == 64
      && blockSize == |fed| % 64
      && state[..] == Hashed(fed)
      && block[..blockSize] == Rest(fed)
    }

    ghost predicate Valid()
      reads this, state, block
    {
      Holds() && totalBytes == |fed| % 0x1_0000_0000_0000_0000
    }

    constructor ()
      ensures Valid() && fed == [] && fresh(Repr)
    {
      state := new word[8][0x6a09e667, 0xbb67ae85, 0x3c6ef372, 0xa54ff53a,
                           0x510e527f, 0x9b05688c, 0x1f83d9ab, 0x5be0cd19];
      block := new byte[64](_ => 0);
      blockSize := 0;
      totalBytes := 0;
      fed := [];
      hide NextHash;
    }

    /** One turn of the loop in Update. */
    method UpdateByte(value: byte)
      requires Holds()
      modifies this`blockSize, this`fed, state, block
      ensures Holds() && fed == old(fed) + [value]
    {
      hide Hashed, Rest, NextHash;
      OneMoreByte(fed, value);
      ghost var rest := Rest(fed);
      block[blockSize] := value;
      fed := fed + [value];
      blockSize := blockSize + 1;
      assert block[..blockSize] == rest + [value];
      if blockSize == block.Length {
        assert block[..] == rest + [value];
        Compress();
        blockSize := 0;
      }
    }

    method Update(bytes: seq<byte>)
      requires Valid()
      modifies Repr
      ensures Valid() && fed == old(fed) + bytes
    {
      hide Hashed, Rest;
      for index := 0 to |bytes|
        invariant Holds() && totalBytes == old(totalBytes)
        invariant fed == old(fed) + bytes[..index]
      {
        UpdateByte(bytes[index]);
        assert bytes[..index + 1] == bytes[..index] + [bytes[index]];
      }
      assert bytes[..|bytes|] == bytes;
      LengthAdds(|old(fed)|, |bytes|);
      totalBytes := (totalBytes as int + |bytes|) % 0x1_0000_0000_0000_0000;
    }

    method UpdateU32(value: u32)
      requires Valid()
      modifies Repr
      ensures Valid() && fed == old(fed) + Be32(value)
    {
      Update([value / 0x100_0000 % 0x100, value / 0x1_0000 % 0x100, value / 0x100 % 0x100, value % 0x100]);
    }

    /** Length-prefixed; the length is cut to 32 bits. */
    method UpdateString(value: text)
      requires Valid()
      modifies Repr
      ensures Valid() && fed == old(fed) + Be32(|value| % 0x1_0000_0000) + value
    {
      UpdateU32(|value| % 0x1_0000_0000);
      Update(value);
    }

    /** Pads and hashes the last block. */
    method Finish() returns (digest: seq<byte>)
      requires Valid()
      modifies Repr
      ensures digest == DigestOf(old(fed))
    {
      hide NextHash, HashBlocks, WordBytes, BigEndian;
      ghost var message := fed;
      var bitLength := totalBytes as int * 8 % 0x1_0000_0000_0000_0000;
      LengthWraps(|message|);
      PadToLength();
      var length := LengthBytes(bitLength);
      Update(length);
      assert fed == Padded(message, bitLength);
      assert Whole(|fed|) == |fed| && fed[..|fed|] == fed;
      digest := DigestBytes();
    }

    /** The 0x80 byte and the zero bytes, up to where the length field goes. */
    method PadToLength()
      requires Valid()
      modifies Repr
      ensures Valid() && fed == old(fed) + [0x80] + seq(ZeroBytes(|old(fed)|), _ => 0)
    {
      hide Hashed, ZeroBytes, Whole;
      ghost var message := fed;
      Update([0x80]);
      ghost var zeros := 0;
      PaddingStops(|message|, zeros);
      while blockSize != LENGTH_OFFSET
        invariant Valid()
        invariant zeros <= ZeroBytes(|message|)
        invariant blockSize == LENGTH_OFFSET <==> zeros == ZeroBytes(|message|)
        invariant fed == message + [0x80] + seq(zeros, _ => 0)
        decreases ZeroBytes(|message|) - zeros
      {
        Update([0]);
        zeros := zeros + 1;
        PaddingStops(|message|, zeros);
      }
    }

    static method LengthBytes(bitLength: u64) returns (bytes: seq<byte>)
      ensures bytes == BigEndian(bitLength, 8)
    {
      hide BigEndian, ShiftedByte;
      var length := new byte[8](_ => 0);
      for index := 0 to 8
        invariant length[8 - index..] == BigEndian(bitLength, 8)[8 - index..]
      {
        BigEndianByte(bitLength, 8, index);
        length[7 - index] := ShiftedByte(bitLength, index);
      }
      bytes := length[..];
    }

    method DigestBytes() returns (digest: seq<byte>)
      requires state.Length == 8
      ensures digest == WordBytes(state[..])
    {
      hide Be32, ValueOf;
      var bytes := new byte[32](_ => 0);
      for w := 0 to 8
        invariant bytes[..4 * w] == WordBytes(state[..w])
      {
        ghost var done := bytes[..4 * w];
        StoreWord(ValueOf(state[w]), bytes, 4 * w);
        assert state[..w + 1][..w] == state[..w];
        ghost var all := bytes[..];
        assert all[..4 * w] == done && all[4 * w..4 * w + 4] == Be32(ValueOf(state[w]));
        assert bytes[..4 * (w + 1)] == done + Be32(ValueOf(state[w]));
      }
      assert state[..8] == state[..];
      digest := bytes[..];
      assert digest == bytes[..4 * 8];
    }

    static method StoreWord(value: u32, bytes: array<byte>, offset: nat)
      requires offset + 4 <= bytes.Length
      modifies bytes
      ensures bytes[..] == Patched(old(bytes[..]), offset, Be32(value))
    {
      hide ShiftedByte;
      for index := 0 to 4
        invariant forall k :: 0 <= k < bytes.Length ==>
          bytes[k] == if offset <= k < offset + index then Be32(value)[k - offset] else old(bytes[k])
      {
        Be32Byte(value, index);
        bytes[offset + index] := ShiftedByte(value, 3 - index);
      }
    }

    /** Folds the full block into the hash (section 6.2.2 of FIPS 180-4), in place. */
    method Compress()
      requires state.Length == 8 && block.Length == 64
      modifies state
      ensures state[..] == NextHash(old(state[..]), block[..])
    {
      hide W, Round, Rounds, Add, WorkingOf, NextHash;
      var words := Schedule();
      var working := new word[8](lane requires 0 <= lane < 8 reads state => state[lane]);
      assert working[..] == state[..];
      RunRounds(working, words, state[..], block[..]);
      AddWorking(working);
      RoundsGiveNextHash(old(state[..]), block[..], working[..], state[..]);
    }

    static method RunRounds(working: array<word>, words: array<word>, ghost hash: seq<word>, ghost block: seq<byte>)
      requires working.Length == 8 && words.Length == 64 && words != working
      requires |hash| == 8 && working[..] == hash && |block| == 64
      requires forall t :: 0 <= t < 64 ==> words[t] == W(block, t)
      modifies working
      ensures WorkingOf(working[..]) == Rounds(hash, block, 64)
    {
      hide W, Round, K;
      for index := 0 to 64
        invariant WorkingOf(working[..]) == Rounds(hash, block, index)
      {
        ShiftRound(working, K(index), words[index]);
      }
    }

    method AddWorking(working: array<word>)
      requires state.Length == 8 && working.Length == 8 && working != state
      modifies state
      ensures forall i :: 0 <= i < 8 ==> state[i] == Add(old(state[i]), working[i])
    {
      hide Add;
      for index := 0 to 8
        invariant forall i :: 0 <= i < 8 ==>
          state[i] == if i < index then Add(old(state[i]), working[i]) else old(state[i])
      {
        state[index] := Add(state[index], working[index]);
      }
    }

    method Schedule() returns (words: array<word>)
      requires block.Length == 64
      ensures fresh(words) && words.Length == 64
      ensures forall t :: 0 <= t < 64 ==> words[t] == W(block[..], t)
    {
      hide W, WordOf, ReadBe32, Xor, Rotr, Shr, Add;
      words := new word[64](_ => 0);
      for index := 0 to 16
        invariant forall t :: 0 <= t < index ==> words[t] == W(block[..], t)
      {
        words[index] := WordOf(ReadBe32(block[..], 4 * index));
        FirstWord(block[..], index);
      }
      for index := 16 to 64
        invariant forall t :: 0 <= t < index ==> words[t] == W(block[..], t)
      {
        var sigma0 := Xor(Xor(Rotr(words[index - 15], 7), Rotr(words[index - 15], 18)), Shr(words[index - 15], 3));
        var sigma1 := Xor(Xor(Rotr(words[index - 2], 17), Rotr(words[index - 2], 19)), Shr(words[index - 2], 10));
        ScheduleWord(block[..], index);
        words[index] := Add(Add(Add(words[index - 16], sigma0), words[index - 7]), sigma1);
      }
    }

    /** One round: every lane moves up by one, then lanes 4 and 0 take the sums. */
    static method ShiftRound(working: array<word>, k: word, w: word)
      requires working.Length == 8
      modifies working
      ensures WorkingOf(working[..]) == Round(WorkingOf(old(working[..])), k, w)
    {
      hide Add, Xor, And, Not, Rotr;
      var sum1 := Xor(Xor(Rotr(working[4], 6), Rotr(working[4], 11)), Rotr(working[4], 25));
      var choose := Xor(And(working[4], working[5]), And(Not(working[4]), working[6]));
      var temporary1 := Add(Add(Add(Add(working[7], sum1), choose), k), w);
      var sum0 := Xor(Xor(Rotr(working[0], 2), Rotr(working[0], 13)), Rotr(working[0], 22));
      var majority := Xor(Xor(And(working[0], working[1]), And(working[0], working[2])), And(working[1], working[2]));
      var temporary2 := Add(sum0, majority);
      var lane := 7;
      while lane > 0
        invariant 0 <= lane <= 7
        invariant forall i :: 0 <= i < 8 ==> working[i] == if lane < i then old(working[i - 1]) else old(working[i])
      {
        working[lane] := working[lane - 1];
        lane := lane - 1;
      }
      working[4] := Add(working[4], temporary1);
      working[0] := Add(temporary1, temporary2);
    }
  }
}
