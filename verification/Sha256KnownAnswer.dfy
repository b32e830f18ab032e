/** The published digest of the three bytes "abc", worked through in the steps of FIPS 180-4. */
module Sha256KnownAnswer {
  import opened Bytes
  import opened Fips180
  import opened Digest

  const ABC: seq<byte> := [0x61, 0x62, 0x63]

  /** Its one padded block: the message, 0x80, zeros, and the bit length. */
  function AbcBlock(): (block: seq<byte>)
    ensures |block| == 64
  {
    ABC + [0x80] + seq(59, _ => 0) + [24]
  }

  lemma BlockIsPadded()
    ensures Padded(ABC, 24) == AbcBlock()
  {
    BigEndianIs24();
    assert Padded(ABC, 24) == ABC + [0x80] + seq(52, _ => 0) + [0, 0, 0, 0, 0, 0, 0, 24];
  }

  lemma BigEndianIs24()
    ensures BigEndian(24, 8) == [0, 0, 0, 0, 0, 0, 0, 24]
  {
    BigEndianOfZero(7);
    assert BigEndian(24, 8) == BigEndian(0, 7) + [24];
  }

  lemma {:induction false} BigEndianOfZero(size: nat)
    ensures BigEndian(0, size) == seq(size, _ => 0)
  {
    if size > 0 {
      BigEndianOfZero(size - 1);
    }
  }

  /** The first sixteen schedule words of that block. */
  function AbcValue(t: nat): u32 {
    if t == 0 then 0x61626380 else if t == 15 then 24 else 0
  }

  function AbcWord(t: nat): word {
    if t == 0 then 0x61626380 else if t == 15 then 24 else 0
  }

  lemma AbcWordOfValue(t: nat)
    requires t < 16
    ensures WordOf(AbcValue(t)) == AbcWord(t)
  {
    if t == 0 {
      assert WordOf(0x61626380) == 0x61626380;
    } else if t == 15 {
      assert WordOf(24) == 24;
    } else {
      assert WordOf(0) == 0;
    }
  }

  ghost predicate StartsAsAbc(block: seq<byte>)
    requires |block| == 64
  {
    forall t :: 0 <= t < 16 ==> W(block, t) == AbcWord(t)
  }

  lemma AbcBlockStarts(block: seq<byte>)
    requires block == AbcBlock()
    ensures StartsAsAbc(block)
  {
    hide W, ReadBe32, AbcBlock, AbcValue, AbcWord, WordOf;
    forall t | 0 <= t < 16
      ensures W(block, t) == AbcWord(t)
    {
      AbcWordOfValue(t);
      FirstWord(block, t);
      AbcValueIsRead(block, t);
    }
  }

  lemma AbcValueIsRead(block: seq<byte>, t: nat)
    requires block == AbcBlock() && t < 16
    ensures ReadBe32(block, 4 * t) == AbcValue(t)
  {
  }

  lemma Start(block: seq<byte>, t: nat)
    requires |block| == 64 && StartsAsAbc(block) && t < 16
    ensures W(block, t) == AbcWord(t)
  {
    hide W, AbcWord;
  }

  lemma FirstWords(block: seq<byte>)
    requires |block| == 64 && StartsAsAbc(block)
    ensures W(block, 0) == 0x61626380
    ensures W(block, 1) == 0
    ensures W(block, 2) == 0
    ensures W(block, 3) == 0
    ensures W(block, 4) == 0
    ensures W(block, 5) == 0
    ensures W(block, 6) == 0
    ensures W(block, 7) == 0
    ensures W(block, 8) == 0
    ensures W(block, 9) == 0
    ensures W(block, 10) == 0
    ensures W(block, 11) == 0
    ensures W(block, 12) == 0
    ensures W(block, 13) == 0
    ensures W(block, 14) == 0
    ensures W(block, 15) == 0x00000018
  {
    hide W, StartsAsAbc;
    Start(block, 0); Start(block, 1); Start(block, 2); Start(block, 3);
    Start(block, 4); Start(block, 5); Start(block, 6); Start(block, 7);
    Start(block, 8); Start(block, 9); Start(block, 10); Start(block, 11);
    Start(block, 12); Start(block, 13); Start(block, 14); Start(block, 15);
  }

  /** A schedule word in the operations of section 3.2, from the words 16, 15, 7 and 2 before it. */
  function ScheduleSum(w16: word, w15: word, w7: word, w2: word): word {
    Add(Add(Add(w16, SmallSigma0(w15)), w7), SmallSigma1(w2))
  }

  lemma NextWord(block: seq<byte>, t: nat)
    requires |block| == 64 && 16 <= t < 64
    ensures W(block, t) == ScheduleSum(W(block, t - 16), W(block, t - 15), W(block, t - 7), W(block, t - 2))
  {
    hide W, Add, SmallSigma0, SmallSigma1;
    ScheduleWord(block, t);
  }

  lemma Words16To31(block: seq<byte>)
    requires |block| == 64 && StartsAsAbc(block)
    ensures W(block, 16) == 0x61626380
    ensures W(block, 17) == 0x000f0000
    ensures W(block, 18) == 0x7da86405
    ensures W(block, 19) == 0x600003c6
    ensures W(block, 20) == 0x3e9d7b78
    ensures W(block, 21) == 0x0183fc00
    ensures W(block, 22) == 0x12dcbfdb
    ensures W(block, 23) == 0xe2e2c38e
    ensures W(block, 24) == 0xc8215c1a
    ensures W(block, 25) == 0xb73679a2
    ensures W(block, 26) == 0xe5bc3909
    ensures W(block, 27) == 0x32663c5b
    ensures W(block, 28) == 0x9d209d67
    ensures W(block, 29) == 0xec8726cb
    ensures W(block, 30) == 0x702138a4
    ensures W(block, 31) == 0xd3b7973b
  {
    hide W, StartsAsAbc;
    FirstWords(block);
    NextWord(block, 16); NextWord(block, 17); NextWord(block, 18); NextWord(block, 19);
    NextWord(block, 20); NextWord(block, 21); NextWord(block, 22); NextWord(block, 23);
    NextWord(block, 24); NextWord(block, 25); NextWord(block, 26); NextWord(block, 27);
    NextWord(block, 28); NextWord(block, 29); NextWord(block, 30); NextWord(block, 31);
  }

  lemma Words32To47(block: seq<byte>)
    requires |block| == 64 && StartsAsAbc(block)
    ensures W(block, 32) == 0x93f5997f
    ensures W(block, 33) == 0x3b68ba73
    ensures W(block, 34) == 0xaff4ffc1
    ensures W(block, 35) == 0xf10a5c62
    ensures W(block, 36) == 0x0a8b3996
    ensures W(block, 37) == 0x72af830a
    ensures W(block, 38) == 0x9409e33e
    ensures W(block, 39) == 0x24641522
    ensures W(block, 40) == 0x9f47bf94
    ensures W(block, 41) == 0xf0a64f5a
    ensures W(block, 42) == 0x3e246a79
    ensures W(block, 43) == 0x27333ba3
    ensures W(block, 44) == 0x0c4763f2
    ensures W(block, 45) == 0x840abf27
    ensures W(block, 46) == 0x7a290d5d
    ensures W(block, 47) == 0x065c43da
  {
    hide W, StartsAsAbc;
    Words16To31(block);
    NextWord(block, 32); NextWord(block, 33); NextWord(block, 34); NextWord(block, 35);
    NextWord(block, 36); NextWord(block, 37); NextWord(block, 38); NextWord(block, 39);
    NextWord(block, 40); NextWord(block, 41); NextWord(block, 42); NextWord(block, 43);
    NextWord(block, 44); NextWord(block, 45); NextWord(block, 46); NextWord(block, 47);
  }

  lemma Words48To63(block: seq<byte>)
    requires |block| == 64 && StartsAsAbc(block)
    ensures W(block, 48) == 0xfb3e89cb
    ensures W(block, 49) == 0xcc7617db
    ensures W(block, 50) == 0xb9e66c34
    ensures W(block, 51) == 0xa9993667
    ensures W(block, 52) == 0x84badedd
    ensures W(block, 53) == 0xc21462bc
    ensures W(block, 54) == 0x1487472c
    ensures W(block, 55) == 0xb20f7a99
    ensures W(block, 56) == 0xef57b9cd
    ensures W(block, 57) == 0xebe6b238
    ensures W(block, 58) == 0x9fe3095e
    ensures W(block, 59) == 0x78bc8d4b
    ensures W(block, 60) == 0xa43fcf15
    ensures W(block, 61) == 0x668b2ff8
    ensures W(block, 62) == 0xeeaba2cc
    ensures W(block, 63) == 0x12b1edeb
  {
    hide W, StartsAsAbc;
    Words32To47(block);
    NextWord(block, 48); NextWord(block, 49); NextWord(block, 50); NextWord(block, 51);
    NextWord(block, 52); NextWord(block, 53); NextWord(block, 54); NextWord(block, 55);
    NextWord(block, 56); NextWord(block, 57); NextWord(block, 58); NextWord(block, 59);
    NextWord(block, 60); NextWord(block, 61); NextWord(block, 62); NextWord(block, 63);
  }

  lemma NextRound(block: seq<byte>, t: nat)
    requires |block| == 64 && t < 64
    ensures Rounds(H0, block, t + 1) == Round(Rounds(H0, block, t), K(t), W(block, t))
  {
    hide Round, K, W;
  }

  lemma NoRounds(block: seq<byte>)
    requires |block| == 64
    ensures Rounds(H0, block, 0) == Working(0x6a09e667, 0xbb67ae85, 0x3c6ef372, 0xa54ff53a, 0x510e527f, 0x9b05688c, 0x1f83d9ab, 0x5be0cd19)
  {
  }

  lemma RoundsTo8(block: seq<byte>)
    requires |block| == 64 && StartsAsAbc(block)
    ensures Rounds(H0, block, 8) ==
            Working(0x85a07b5f, 0xe5030380, 0x2b4209f5, 0x04409a6a, 0x0c657a79, 0x9b27a401, 0x714260ad, 0x43ada245)
  {
    hide Rounds, W, StartsAsAbc;
    NoRounds(block);
    FirstWords(block);
    NextRound(block, 0);
    assert Rounds(H0, block, 1) ==
           Working(0x5d6aebcd, 0x6a09e667, 0xbb67ae85, 0x3c6ef372, 0xfa2a4622, 0x510e527f, 0x9b05688c, 0x1f83d9ab);
    NextRound(block, 1);
    assert Rounds(H0, block, 2) ==
           Working(0x5a6ad9ad, 0x5d6aebcd, 0x6a09e667, 0xbb67ae85, 0x78ce7989, 0xfa2a4622, 0x510e527f, 0x9b05688c);
    NextRound(block, 2);
    assert Rounds(H0, block, 3) ==
           Working(0xc8c347a7, 0x5a6ad9ad, 0x5d6aebcd, 0x6a09e667, 0xf92939eb, 0x78ce7989, 0xfa2a4622, 0x510e527f);
    NextRound(block, 3);
    assert Rounds(H0, block, 4) ==
           Working(0xd550f666, 0xc8c347a7, 0x5a6ad9ad, 0x5d6aebcd, 0x24e00850, 0xf92939eb, 0x78ce7989, 0xfa2a4622);
    NextRound(block, 4);
    assert Rounds(H0, block, 5) ==
           Working(0x04409a6a, 0xd550f666, 0xc8c347a7, 0x5a6ad9ad, 0x43ada245, 0x24e00850, 0xf92939eb, 0x78ce7989);
    NextRound(block, 5);
    assert Rounds(H0, block, 6) ==
           Working(0x2b4209f5, 0x04409a6a, 0xd550f666, 0xc8c347a7, 0x714260ad, 0x43ada245, 0x24e00850, 0xf92939eb);
    NextRound(block, 6);
    assert Rounds(H0, block, 7) ==
           Working(0xe5030380, 0x2b4209f5, 0x04409a6a, 0xd550f666, 0x9b27a401, 0x714260ad, 0x43ada245, 0x24e00850);
    NextRound(block, 7);
  }

  lemma RoundsTo16(block: seq<byte>)
    requires |block| == 64 && StartsAsAbc(block)
    ensures Rounds(H0, block, 16) ==
            Working(0xb0fa238e, 0xc0645fde, 0xd932eb16, 0x87912990, 0x07590dcd, 0x0b92f20c, 0x745a48de, 0x1e578218)
  {
    hide Rounds, W, StartsAsAbc;
    RoundsTo8(block);
    FirstWords(block);
    NextRound(block, 8);
    assert Rounds(H0, block, 9) ==
           Working(0x8e04ecb9, 0x85a07b5f, 0xe5030380, 0x2b4209f5, 0x32ca2d8c, 0x0c657a79, 0x9b27a401, 0x714260ad);
    NextRound(block, 9);
    assert Rounds(H0, block, 10) ==
           Working(0x8c87346b, 0x8e04ecb9, 0x85a07b5f, 0xe5030380, 0x1cc92596, 0x32ca2d8c, 0x0c657a79, 0x9b27a401);
    NextRound(block, 10);
    assert Rounds(H0, block, 11) ==
           Working(0x4798a3f4, 0x8c87346b, 0x8e04ecb9, 0x85a07b5f, 0x436b23e8, 0x1cc92596, 0x32ca2d8c, 0x0c657a79);
    NextRound(block, 11);
    assert Rounds(H0, block, 12) ==
           Working(0xf71fc5a9, 0x4798a3f4, 0x8c87346b, 0x8e04ecb9, 0x816fd6e9, 0x436b23e8, 0x1cc92596, 0x32ca2d8c);
    NextRound(block, 12);
    assert Rounds(H0, block, 13) ==
           Working(0x87912990, 0xf71fc5a9, 0x4798a3f4, 0x8c87346b, 0x1e578218, 0x816fd6e9, 0x436b23e8, 0x1cc92596);
    NextRound(block, 13);
    assert Rounds(H0, block, 14) ==
           Working(0xd932eb16, 0x87912990, 0xf71fc5a9, 0x4798a3f4, 0x745a48de, 0x1e578218, 0x816fd6e9, 0x436b23e8);
    NextRound(block, 14);
    assert Rounds(H0, block, 15) ==
           Working(0xc0645fde, 0xd932eb16, 0x87912990, 0xf71fc5a9, 0x0b92f20c, 0x745a48de, 0x1e578218, 0x816fd6e9);
    NextRound(block, 15);
  }

  lemma RoundsTo24(block: seq<byte>)
    requires |block| == 64 && StartsAsAbc(block)
    ensures Rounds(H0, block, 24) ==
            Working(0xc5d53d8d, 0xa7a3623f, 0xc2606d6d, 0x9dc68b63, 0xaa47c347, 0x49f5114a, 0xe1257970, 0x8ada8930)
  {
    hide Rounds, W, StartsAsAbc;
    RoundsTo16(block);
    Words16To31(block);
    NextRound(block, 16);
    assert Rounds(H0, block, 17) ==
           Working(0x21da9a9b, 0xb0fa238e, 0xc0645fde, 0xd932eb16, 0x8034229c, 0x07590dcd, 0x0b92f20c, 0x745a48de);
    NextRound(block, 17);
    assert Rounds(H0, block, 18) ==
           Working(0xc2fbd9d1, 0x21da9a9b, 0xb0fa238e, 0xc0645fde, 0x846ee454, 0x8034229c, 0x07590dcd, 0x0b92f20c);
    NextRound(block, 18);
    assert Rounds(H0, block, 19) ==
           Working(0xfe777bbf, 0xc2fbd9d1, 0x21da9a9b, 0xb0fa238e, 0xcc899961, 0x846ee454, 0x8034229c, 0x07590dcd);
    NextRound(block, 19);
    assert Rounds(H0, block, 20) ==
           Working(0xe1f20c33, 0xfe777bbf, 0xc2fbd9d1, 0x21da9a9b, 0xb0638179, 0xcc899961, 0x846ee454, 0x8034229c);
    NextRound(block, 20);
    assert Rounds(H0, block, 21) ==
           Working(0x9dc68b63, 0xe1f20c33, 0xfe777bbf, 0xc2fbd9d1, 0x8ada8930, 0xb0638179, 0xcc899961, 0x846ee454);
    NextRound(block, 21);
    assert Rounds(H0, block, 22) ==
           Working(0xc2606d6d, 0x9dc68b63, 0xe1f20c33, 0xfe777bbf, 0xe1257970, 0x8ada8930, 0xb0638179, 0xcc899961);
    NextRound(block, 22);
    assert Rounds(H0, block, 23) ==
           Working(0xa7a3623f, 0xc2606d6d, 0x9dc68b63, 0xe1f20c33, 0x49f5114a, 0xe1257970, 0x8ada8930, 0xb0638179);
    NextRound(block, 23);
  }

  lemma RoundsTo32(block: seq<byte>)
    requires |block| == 64 && StartsAsAbc(block)
    ensures Rounds(H0, block, 32) ==
            Working(0x73b33bf5, 0xea992a22, 0xa0060b30, 0x363482c9, 0xba591112, 0x0109ab3a, 0xade79437, 0x6112a3b7)
  {
    hide Rounds, W, StartsAsAbc;
    RoundsTo24(block);
    Words16To31(block);
    NextRound(block, 24);
    assert Rounds(H0, block, 25) ==
           Working(0x1c2c2838, 0xc5d53d8d, 0xa7a3623f, 0xc2606d6d, 0x2823ef91, 0xaa47c347, 0x49f5114a, 0xe1257970);
    NextRound(block, 25);
    assert Rounds(H0, block, 26) ==
           Working(0xcde8037d, 0x1c2c2838, 0xc5d53d8d, 0xa7a3623f, 0x14383d8e, 0x2823ef91, 0xaa47c347, 0x49f5114a);
    NextRound(block, 26);
    assert Rounds(H0, block, 27) ==
           Working(0xb62ec4bc, 0xcde8037d, 0x1c2c2838, 0xc5d53d8d, 0xc74c6516, 0x14383d8e, 0x2823ef91, 0xaa47c347);
    NextRound(block, 27);
    assert Rounds(H0, block, 28) ==
           Working(0x77d37528, 0xb62ec4bc, 0xcde8037d, 0x1c2c2838, 0xedffbff8, 0xc74c6516, 0x14383d8e, 0x2823ef91);
    NextRound(block, 28);
    assert Rounds(H0, block, 29) ==
           Working(0x363482c9, 0x77d37528, 0xb62ec4bc, 0xcde8037d, 0x6112a3b7, 0xedffbff8, 0xc74c6516, 0x14383d8e);
    NextRound(block, 29);
    assert Rounds(H0, block, 30) ==
           Working(0xa0060b30, 0x363482c9, 0x77d37528, 0xb62ec4bc, 0xade79437, 0x6112a3b7, 0xedffbff8, 0xc74c6516);
    NextRound(block, 30);
    assert Rounds(H0, block, 31) ==
           Working(0xea992a22, 0xa0060b30, 0x363482c9, 0x77d37528, 0x0109ab3a, 0xade79437, 0x6112a3b7, 0xedffbff8);
    NextRound(block, 31);
  }

  lemma RoundsTo40(block: seq<byte>)
    requires |block| == 64 && StartsAsAbc(block)
    ensures Rounds(H0, block, 40) ==
            Working(0x79ea687a, 0x6dc57a8a, 0x34df1604, 0x41a65cb1, 0x1efbc0a0, 0xf0781bc8, 0xa507a53d, 0x0772a26b)
  {
    hide Rounds, W, StartsAsAbc;
    RoundsTo32(block);
    Words32To47(block);
    NextRound(block, 32);
    assert Rounds(H0, block, 33) ==
           Working(0x98e12507, 0x73b33bf5, 0xea992a22, 0xa0060b30, 0x9cd9f5f6, 0xba591112, 0x0109ab3a, 0xade79437);
    NextRound(block, 33);
    assert Rounds(H0, block, 34) ==
           Working(0xfe604df5, 0x98e12507, 0x73b33bf5, 0xea992a22, 0x59249dd3, 0x9cd9f5f6, 0xba591112, 0x0109ab3a);
    NextRound(block, 34);
    assert Rounds(H0, block, 35) ==
           Working(0xa9a7738c, 0xfe604df5, 0x98e12507, 0x73b33bf5, 0x085f3833, 0x59249dd3, 0x9cd9f5f6, 0xba591112);
    NextRound(block, 35);
    assert Rounds(H0, block, 36) ==
           Working(0x65a0cfe4, 0xa9a7738c, 0xfe604df5, 0x98e12507, 0xf4b002d6, 0x085f3833, 0x59249dd3, 0x9cd9f5f6);
    NextRound(block, 36);
    assert Rounds(H0, block, 37) ==
           Working(0x41a65cb1, 0x65a0cfe4, 0xa9a7738c, 0xfe604df5, 0x0772a26b, 0xf4b002d6, 0x085f3833, 0x59249dd3);
    NextRound(block, 37);
    assert Rounds(H0, block, 38) ==
           Working(0x34df1604, 0x41a65cb1, 0x65a0cfe4, 0xa9a7738c, 0xa507a53d, 0x0772a26b, 0xf4b002d6, 0x085f3833);
    NextRound(block, 38);
    assert Rounds(H0, block, 39) ==
           Working(0x6dc57a8a, 0x34df1604, 0x41a65cb1, 0x65a0cfe4, 0xf0781bc8, 0xa507a53d, 0x0772a26b, 0xf4b002d6);
    NextRound(block, 39);
  }

  lemma RoundsTo48(block: seq<byte>)
    requires |block| == 64 && StartsAsAbc(block)
    ensures Rounds(H0, block, 48) ==
            Working(0x4172328d, 0xa14c14b0, 0x72ab4b91, 0x26628815, 0xfecf0bc6, 0xd57b94a9, 0xb7755da1, 0xa80f11f0)
  {
    hide Rounds, W, StartsAsAbc;
    RoundsTo40(block);
    Words32To47(block);
    NextRound(block, 40);
    assert Rounds(H0, block, 41) ==
           Working(0xd6670766, 0x79ea687a, 0x6dc57a8a, 0x34df1604, 0x26352d63, 0x1efbc0a0, 0xf0781bc8, 0xa507a53d);
    NextRound(block, 41);
    assert Rounds(H0, block, 42) ==
           Working(0xdf46652f, 0xd6670766, 0x79ea687a, 0x6dc57a8a, 0x838b2711, 0x26352d63, 0x1efbc0a0, 0xf0781bc8);
    NextRound(block, 42);
    assert Rounds(H0, block, 43) ==
           Working(0x17aa0dfe, 0xdf46652f, 0xd6670766, 0x79ea687a, 0xdecd4715, 0x838b2711, 0x26352d63, 0x1efbc0a0);
    NextRound(block, 43);
    assert Rounds(H0, block, 44) ==
           Working(0x9d4baf93, 0x17aa0dfe, 0xdf46652f, 0xd6670766, 0xfda24c2e, 0xdecd4715, 0x838b2711, 0x26352d63);
    NextRound(block, 44);
    assert Rounds(H0, block, 45) ==
           Working(0x26628815, 0x9d4baf93, 0x17aa0dfe, 0xdf46652f, 0xa80f11f0, 0xfda24c2e, 0xdecd4715, 0x838b2711);
    NextRound(block, 45);
    assert Rounds(H0, block, 46) ==
           Working(0x72ab4b91, 0x26628815, 0x9d4baf93, 0x17aa0dfe, 0xb7755da1, 0xa80f11f0, 0xfda24c2e, 0xdecd4715);
    NextRound(block, 46);
    assert Rounds(H0, block, 47) ==
           Working(0xa14c14b0, 0x72ab4b91, 0x26628815, 0x9d4baf93, 0xd57b94a9, 0xb7755da1, 0xa80f11f0, 0xfda24c2e);
    NextRound(block, 47);
  }

  lemma RoundsTo56(block: seq<byte>)
    requires |block| == 64 && StartsAsAbc(block)
    ensures Rounds(H0, block, 56) ==
            Working(0x38cc9913, 0x3ec45cdb, 0xf5702fdb, 0x101fd28f, 0x54cb266b, 0xe50e1b4f, 0x9f4787c3, 0x529e7d00)
  {
    hide Rounds, W, StartsAsAbc;
    RoundsTo48(block);
    Words48To63(block);
    NextRound(block, 48);
    assert Rounds(H0, block, 49) ==
           Working(0x05757ceb, 0x4172328d, 0xa14c14b0, 0x72ab4b91, 0xbd714038, 0xfecf0bc6, 0xd57b94a9, 0xb7755da1);
    NextRound(block, 49);
    assert Rounds(H0, block, 50) ==
           Working(0xf11bfaa8, 0x05757ceb, 0x4172328d, 0xa14c14b0, 0x6e5c390c, 0xbd714038, 0xfecf0bc6, 0xd57b94a9);
    NextRound(block, 50);
    assert Rounds(H0, block, 51) ==
           Working(0x7a0508a1, 0xf11bfaa8, 0x05757ceb, 0x4172328d, 0x52f1ccf7, 0x6e5c390c, 0xbd714038, 0xfecf0bc6);
    NextRound(block, 51);
    assert Rounds(H0, block, 52) ==
           Working(0x886e7a22, 0x7a0508a1, 0xf11bfaa8, 0x05757ceb, 0x49231c1e, 0x52f1ccf7, 0x6e5c390c, 0xbd714038);
    NextRound(block, 52);
    assert Rounds(H0, block, 53) ==
           Working(0x101fd28f, 0x886e7a22, 0x7a0508a1, 0xf11bfaa8, 0x529e7d00, 0x49231c1e, 0x52f1ccf7, 0x6e5c390c);
    NextRound(block, 53);
    assert Rounds(H0, block, 54) ==
           Working(0xf5702fdb, 0x101fd28f, 0x886e7a22, 0x7a0508a1, 0x9f4787c3, 0x529e7d00, 0x49231c1e, 0x52f1ccf7);
    NextRound(block, 54);
    assert Rounds(H0, block, 55) ==
           Working(0x3ec45cdb, 0xf5702fdb, 0x101fd28f, 0x886e7a22, 0xe50e1b4f, 0x9f4787c3, 0x529e7d00, 0x49231c1e);
    NextRound(block, 55);
  }

  lemma RoundsTo64(block: seq<byte>)
    requires |block| == 64 && StartsAsAbc(block)
    ensures Rounds(H0, block, 64) ==
            Working(0x506e3058, 0xd39a2165, 0x04d24d6c, 0xb85e2ce9, 0x5ef50f24, 0xfb121210, 0x948d25b6, 0x961f4894)
  {
    hide Rounds, W, StartsAsAbc;
    RoundsTo56(block);
    Words48To63(block);
    NextRound(block, 56);
    assert Rounds(H0, block, 57) ==
           Working(0xfcd1887b, 0x38cc9913, 0x3ec45cdb, 0xf5702fdb, 0x9b5e906c, 0x54cb266b, 0xe50e1b4f, 0x9f4787c3);
    NextRound(block, 57);
    assert Rounds(H0, block, 58) ==
           Working(0xc062d46f, 0xfcd1887b, 0x38cc9913, 0x3ec45cdb, 0x7e44008e, 0x9b5e906c, 0x54cb266b, 0xe50e1b4f);
    NextRound(block, 58);
    assert Rounds(H0, block, 59) ==
           Working(0xffb70472, 0xc062d46f, 0xfcd1887b, 0x38cc9913, 0x6d83bfc6, 0x7e44008e, 0x9b5e906c, 0x54cb266b);
    NextRound(block, 59);
    assert Rounds(H0, block, 60) ==
           Working(0xb6ae8fff, 0xffb70472, 0xc062d46f, 0xfcd1887b, 0xb21bad3d, 0x6d83bfc6, 0x7e44008e, 0x9b5e906c);
    NextRound(block, 60);
    assert Rounds(H0, block, 61) ==
           Working(0xb85e2ce9, 0xb6ae8fff, 0xffb70472, 0xc062d46f, 0x961f4894, 0xb21bad3d, 0x6d83bfc6, 0x7e44008e);
    NextRound(block, 61);
    assert Rounds(H0, block, 62) ==
           Working(0x04d24d6c, 0xb85e2ce9, 0xb6ae8fff, 0xffb70472, 0x948d25b6, 0x961f4894, 0xb21bad3d, 0x6d83bfc6);
    NextRound(block, 62);
    assert Rounds(H0, block, 63) ==
           Working(0xd39a2165, 0x04d24d6c, 0xb85e2ce9, 0xb6ae8fff, 0xfb121210, 0x948d25b6, 0x961f4894, 0xb21bad3d);
    NextRound(block, 63);
  }

  lemma FinalHash(block: seq<byte>)
    requires |block| == 64 && StartsAsAbc(block)
    ensures NextHash(H0, block) ==
            [0xba7816bf, 0x8f01cfea, 0x414140de, 0x5dae2223, 0xb00361a3, 0x96177a9c, 0xb410ff61, 0xf20015ad]
  {
    hide Rounds, StartsAsAbc;
    RoundsTo64(block);
  }

  lemma FinalBytes(hash: seq<word>)
    requires hash ==
             [0xba7816bf, 0x8f01cfea, 0x414140de, 0x5dae2223, 0xb00361a3, 0x96177a9c, 0xb410ff61, 0xf20015ad]
    ensures WordBytes(hash) ==
            [0xba, 0x78, 0x16, 0xbf, 0x8f, 0x01, 0xcf, 0xea, 0x41, 0x41, 0x40, 0xde, 0x5d, 0xae, 0x22, 0x23,
             0xb0, 0x03, 0x61, 0xa3, 0x96, 0x17, 0x7a, 0x9c, 0xb4, 0x10, 0xff, 0x61, 0xf2, 0x00, 0x15, 0xad]
  {
    hide WordBytes, Be32, ValueOf, FourWords;
    LastWords(hash);
    LastWords(hash[..4]);
    NoWords(hash[..4][..0]);
    FirstHalf(hash);
    SecondHalf(hash);
  }

  function FourWords(hash: seq<word>, n: nat): (bytes: seq<byte>)
    requires n + 4 <= |hash|
    ensures |bytes| == 16
  {
    Be32(ValueOf(hash[n])) + Be32(ValueOf(hash[n + 1])) + Be32(ValueOf(hash[n + 2])) + Be32(ValueOf(hash[n + 3]))
  }

  lemma FirstHalf(hash: seq<word>)
    requires |hash| == 8 && hash[0..4] == [0xba7816bf, 0x8f01cfea, 0x414140de, 0x5dae2223]
    ensures FourWords(hash[..4], 0) ==
            [0xba, 0x78, 0x16, 0xbf, 0x8f, 0x01, 0xcf, 0xea, 0x41, 0x41, 0x40, 0xde, 0x5d, 0xae, 0x22, 0x23]
  {
    hide Be32, ValueOf;
    FinalValues();
    FinalWords();
  }

  lemma SecondHalf(hash: seq<word>)
    requires |hash| == 8 && hash[4..8] == [0xb00361a3, 0x96177a9c, 0xb410ff61, 0xf20015ad]
    ensures FourWords(hash, 4) ==
            [0xb0, 0x03, 0x61, 0xa3, 0x96, 0x17, 0x7a, 0x9c, 0xb4, 0x10, 0xff, 0x61, 0xf2, 0x00, 0x15, 0xad]
  {
    hide Be32, ValueOf;
    FinalValues();
    FinalWords();
  }

  lemma FinalValues()
    ensures ValueOf(0xba7816bf) == 0xba7816bf
    ensures ValueOf(0x8f01cfea) == 0x8f01cfea
    ensures ValueOf(0x414140de) == 0x414140de
    ensures ValueOf(0x5dae2223) == 0x5dae2223
    ensures ValueOf(0xb00361a3) == 0xb00361a3
    ensures ValueOf(0x96177a9c) == 0x96177a9c
    ensures ValueOf(0xb410ff61) == 0xb410ff61
    ensures ValueOf(0xf20015ad) == 0xf20015ad
  {
  }

  lemma FinalWords()
    ensures Be32(0xba7816bf) == [0xba, 0x78, 0x16, 0xbf]
    ensures Be32(0x8f01cfea) == [0x8f, 0x01, 0xcf, 0xea]
    ensures Be32(0x414140de) == [0x41, 0x41, 0x40, 0xde]
    ensures Be32(0x5dae2223) == [0x5d, 0xae, 0x22, 0x23]
    ensures Be32(0xb00361a3) == [0xb0, 0x03, 0x61, 0xa3]
    ensures Be32(0x96177a9c) == [0x96, 0x17, 0x7a, 0x9c]
    ensures Be32(0xb410ff61) == [0xb4, 0x10, 0xff, 0x61]
    ensures Be32(0xf20015ad) == [0xf2, 0x00, 0x15, 0xad]
  {
    hide Be32;
    StoredWord(0xba, 0x78, 0x16, 0xbf);
    StoredWord(0x8f, 0x01, 0xcf, 0xea);
    StoredWord(0x41, 0x41, 0x40, 0xde);
    StoredWord(0x5d, 0xae, 0x22, 0x23);
    StoredWord(0xb0, 0x03, 0x61, 0xa3);
    StoredWord(0x96, 0x17, 0x7a, 0x9c);
    StoredWord(0xb4, 0x10, 0xff, 0x61);
    StoredWord(0xf2, 0x00, 0x15, 0xad);
  }

  lemma NoWords(hash: seq<word>)
    requires |hash| == 0
    ensures WordBytes(hash) == []
  {
  }

  lemma LastWords(hash: seq<word>)
    requires |hash| >= 4
    ensures WordBytes(hash) == WordBytes(hash[..|hash| - 4]) + FourWords(hash, |hash| - 4)
  {
    hide WordBytes, Be32, ValueOf;
    var n := |hash| - 4;
    LastWord(hash);
    assert hash[..n + 3][..n + 2] == hash[..n + 2];
    LastWord(hash[..n + 3]);
    assert hash[..n + 2][..n + 1] == hash[..n + 1];
    LastWord(hash[..n + 2]);
    assert hash[..n + 1][..n] == hash[..n];
    LastWord(hash[..n + 1]);
    Regroup(WordBytes(hash[..n]), Be32(ValueOf(hash[n])), Be32(ValueOf(hash[n + 1])),
            Be32(ValueOf(hash[n + 2])), Be32(ValueOf(hash[n + 3])));
  }

  lemma Regroup(p: seq<byte>, a: seq<byte>, b: seq<byte>, c: seq<byte>, d: seq<byte>)
    ensures p + a + b + c + d == p + (a + b + c + d)
  {
    assert p + a + b + c == p + (a + b + c) by {
      assert p + a + b == p + (a + b);
    }
  }

  lemma LastWord(hash: seq<word>)
    requires |hash| > 0
    ensures WordBytes(hash) == WordBytes(hash[..|hash| - 1]) + Be32(ValueOf(hash[|hash| - 1]))
  {
  }

  /** The digest of "abc" is the published one. */
  lemma DigestOfAbc()
    ensures DigestOf(ABC) ==
            [0xba, 0x78, 0x16, 0xbf, 0x8f, 0x01, 0xcf, 0xea, 0x41, 0x41, 0x40, 0xde, 0x5d, 0xae, 0x22, 0x23,
             0xb0, 0x03, 0x61, 0xa3, 0x96, 0x17, 0x7a, 0x9c, 0xb4, 0x10, 0xff, 0x61, 0xf2, 0x00, 0x15, 0xad]
  {
    hide NextHash, WordBytes, Padded, AbcBlock, StartsAsAbc;
    BlockIsPadded();
    var block := AbcBlock();
    AbcBlockStarts(block);
    FinalHash(block);
    FinalBytes(NextHash(H0, block));
    assert block[..0] == [] && block[0..] == block;
    assert HashBlocks(block) == NextHash(H0, block);
  }
}
