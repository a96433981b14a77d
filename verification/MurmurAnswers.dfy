/** Published answers of the 32-bit MurmurHash3, which fix its constants, shifts and rotations. */
module MurmurAnswers {
  import opened Bits
  import opened Bytes
  import opened Words
  import opened Murmur

  // ---- Steps ----

  lemma ShrIs(a: nat, n: nat, p: nat)
    requires (n == 13 && p == 0x2000) || (n == 16 && p == 0x1_0000)
    ensures Shr(a, n) == a / p
  {
    SmallPowers();
    assert Pow2(16) == 2 * Pow2(15);
    ShrDiv(a, n, p);
  }

  lemma SmallShift(h: nat)
    requires h < 0x1_0000
    ensures XorShift(h, 16) == h
  {
    hide Xor, Shr;
    ShrIs(h, 16, 0x1_0000);
    XorZero(h);
  }

  lemma OneSecondDigits()
    ensures Xor(0xb, 0xe) == 5 && Xor(6, 5) == 3 && Xor(0xa, 0xf) == 5 && Xor(0xc, 2) == 0xe && Xor(0xb, 4) == 0xf
  {
    hide Xor;
    TwoBits();
    XorHalf(2, 3, 3, 2);
    XorHalf(1, 1, 2, 1);
    XorHalf(2, 3, 2, 3);
    XorHalf(3, 0, 0, 2);
    XorHalf(2, 1, 3, 0);
  }

  lemma OneSecond()
    ensures XorShift(0x85ebca6b, 13) == 0x85efe535
  {
    hide Xor, Shr;
    ShrIs(0x85ebca6b, 13, 0x2000);
    OneSecondDigits();
    XorDigit(0x85ebca6, 0x42f5, 0xb, 0xe);
    XorDigit(0x85ebca, 0x42f, 6, 5);
    XorDigit(0x85ebc, 0x42, 0xa, 0xf);
    XorDigit(0x85eb, 4, 0xc, 2);
    XorDigit(0x85e, 0, 0xb, 4);
    XorZero(0x85e);
  }

  lemma OneThirdDigits()
    ensures Xor(9, 0xe) == 7 && Xor(0xf, 4) == 0xb && Xor(9, 1) == 8 && Xor(7, 5) == 2
  {
    hide Xor;
    TwoBits();
    XorHalf(2, 3, 1, 2);
    XorHalf(3, 1, 3, 0);
    XorHalf(2, 0, 1, 1);
    XorHalf(1, 1, 3, 1);
  }

  lemma OneThird()
    ensures XorShift(0x514e79f9, 16) == 0x514e28b7
  {
    hide Xor, Shr;
    ShrIs(0x514e79f9, 16, 0x1_0000);
    OneThirdDigits();
    XorDigit(0x514e79f, 0x514, 9, 0xe);
    XorDigit(0x514e79, 0x51, 0xf, 4);
    XorDigit(0x514e7, 5, 9, 1);
    XorDigit(0x514e, 0, 7, 5);
    XorZero(0x514e);
  }

  lemma OneFmix()
    ensures Fmix(1) == 0x514e28b7
  {
    hide XorShift;
    SmallShift(1);
    assert Scale(1, 0x85ebca6b) == 0x85ebca6b;
    OneSecond();
    assert Scale(0x85efe535, 0xc2b2ae35) == 0x514e79f9;
    OneThird();
  }

  lemma ZeroLengthDigits()
    ensures Xor(4, 4) == 0
  {
    hide Xor;
    TwoBits();
    XorHalf(1, 1, 0, 0);
  }

  lemma ZeroLength()
    ensures Xor(0xe6546b64, 4) == 0xe6546b60
  {
    hide Xor, Shr;
    ZeroLengthDigits();
    XorDigit(0xe6546b6, 0, 4, 4);
    XorZero(0xe6546b6);
  }

  lemma ZeroFirstDigits()
    ensures Xor(6, 5) == 3 && Xor(0xb, 6) == 0xd && Xor(6, 0xe) == 8
  {
    hide Xor;
    TwoBits();
    XorHalf(1, 1, 2, 1);
    XorHalf(2, 1, 3, 2);
    XorHalf(1, 3, 2, 2);
  }

  lemma ZeroFirst()
    ensures XorShift(0xe6546b60, 16) == 0xe6548d34
  {
    hide Xor, Shr;
    ShrIs(0xe6546b60, 16, 0x1_0000);
    ZeroFirstDigits();
    XorDigit(0xe6546b6, 0xe65, 0, 4);
    XorDigit(0xe6546b, 0xe6, 6, 5);
    XorDigit(0xe6546, 0xe, 0xb, 6);
    XorDigit(0xe654, 0, 6, 0xe);
    XorZero(4);
    XorZero(0xe654);
  }

  lemma ZeroSecondDigits()
    ensures Xor(0xb, 0xf) == 4 && Xor(0xc, 0xb) == 7 && Xor(0xe, 4) == 0xa
  {
    hide Xor;
    TwoBits();
    XorHalf(2, 3, 3, 3);
    XorHalf(3, 2, 0, 3);
    XorHalf(3, 1, 2, 0);
  }

  lemma ZeroSecond()
    ensures XorShift(0x9f7e0cbc, 13) == 0x9f7af74c
  {
    hide Xor, Shr;
    ShrIs(0x9f7e0cbc, 13, 0x2000);
    ZeroSecondDigits();
    XorDigit(0x9f7e0cb, 0x4fbf, 0xc, 0);
    XorDigit(0x9f7e0c, 0x4fb, 0xb, 0xf);
    XorDigit(0x9f7e0, 0x4f, 0xc, 0xb);
    XorDigit(0x9f7e, 4, 0, 0xf);
    XorDigit(0x9f7, 0, 0xe, 4);
    XorZero(0xc);
    XorZero(0xf);
    XorZero(0x9f7);
  }

  lemma ZeroThirdDigits()
    ensures Xor(0xc, 2) == 0xe && Xor(0xb, 6) == 0xd && Xor(0xa, 3) == 9 && Xor(0xd, 2) == 0xf
  {
    hide Xor;
    TwoBits();
    XorHalf(3, 0, 0, 2);
    XorHalf(2, 1, 3, 2);
    XorHalf(2, 0, 2, 3);
    XorHalf(3, 0, 1, 2);
  }

  lemma ZeroThird()
    ensures XorShift(0x2362dabc, 16) == 0x2362f9de
  {
    hide Xor, Shr;
    ShrIs(0x2362dabc, 16, 0x1_0000);
    ZeroThirdDigits();
    XorDigit(0x2362dab, 0x236, 0xc, 2);
    XorDigit(0x2362da, 0x23, 0xb, 6);
    XorDigit(0x2362d, 2, 0xa, 3);
    XorDigit(0x2362, 0, 0xd, 2);
    XorZero(0x2362);
  }

  lemma ZeroFmix()
    ensures Fmix(0xe6546b60) == 0x2362f9de
  {
    hide XorShift;
    ZeroFirst();
    assert Scale(0xe6548d34, 0x85ebca6b) == 0x9f7e0cbc;
    ZeroSecond();
    assert Scale(0x9f7af74c, 0xc2b2ae35) == 0x2362dabc;
    ZeroThird();
  }

  lemma WordLengthDigits()
    ensures Xor(4, 4) == 0
  {
    hide Xor;
    TwoBits();
    XorHalf(1, 1, 0, 0);
  }

  lemma WordLength()
    ensures Xor(0xbb095db4, 4) == 0xbb095db0
  {
    hide Xor, Shr;
    WordLengthDigits();
    XorDigit(0xbb095db, 0, 4, 4);
    XorZero(0xbb095db);
  }

  lemma WordFirstDigits()
    ensures Xor(0xd, 0xb) == 6 && Xor(5, 0xb) == 0xe
  {
    hide Xor;
    TwoBits();
    XorHalf(3, 2, 1, 3);
    XorHalf(1, 2, 1, 3);
  }

  lemma WordFirst()
    ensures XorShift(0xbb095db0, 16) == 0xbb09e6b9
  {
    hide Xor, Shr;
    ShrIs(0xbb095db0, 16, 0x1_0000);
    WordFirstDigits();
    XorDigit(0xbb095db, 0xbb0, 0, 9);
    XorDigit(0xbb095d, 0xbb, 0xb, 0);
    XorDigit(0xbb095, 0xb, 0xd, 0xb);
    XorDigit(0xbb09, 0, 5, 0xb);
    XorZero(9);
    XorZero(0xb);
    XorZero(0xbb09);
  }

  lemma WordSecondDigits()
    ensures Xor(3, 3) == 0 && Xor(5, 2) == 7 && Xor(6, 3) == 5 && Xor(4, 7) == 3
  {
    hide Xor;
    TwoBits();
    XorHalf(0, 0, 3, 3);
    XorHalf(1, 0, 1, 2);
    XorHalf(1, 0, 2, 3);
    XorHalf(1, 1, 0, 3);
  }

  lemma WordSecond()
    ensures XorShift(0xe6046953, 13) == 0xe6035970
  {
    hide Xor, Shr;
    ShrIs(0xe6046953, 13, 0x2000);
    WordSecondDigits();
    XorDigit(0xe604695, 0x7302, 3, 3);
    XorDigit(0xe60469, 0x730, 5, 2);
    XorDigit(0xe6046, 0x73, 9, 0);
    XorDigit(0xe604, 7, 6, 3);
    XorDigit(0xe60, 0, 4, 7);
    XorZero(9);
    XorZero(0xe60);
  }

  lemma WordThirdDigits()
    ensures Xor(3, 5) == 6 && Xor(4, 5) == 1 && Xor(0xa, 0xf) == 5
  {
    hide Xor;
    TwoBits();
    XorHalf(0, 1, 3, 1);
    XorHalf(1, 1, 0, 1);
    XorHalf(2, 3, 2, 3);
  }

  lemma WordThird()
    ensures XorShift(0xf55ba430, 16) == 0xf55b516b
  {
    hide Xor, Shr;
    ShrIs(0xf55ba430, 16, 0x1_0000);
    WordThirdDigits();
    XorDigit(0xf55ba43, 0xf55, 0, 0xb);
    XorDigit(0xf55ba4, 0xf5, 3, 5);
    XorDigit(0xf55ba, 0xf, 4, 5);
    XorDigit(0xf55b, 0, 0xa, 0xf);
    XorZero(0xb);
    XorZero(0xf55b);
  }

  lemma WordFmix()
    ensures Fmix(0xbb095db0) == 0xf55b516b
  {
    hide XorShift;
    WordFirst();
    assert Scale(0xbb09e6b9, 0x85ebca6b) == 0xe6046953;
    WordSecond();
    assert Scale(0xe6035970, 0xc2b2ae35) == 0xf55ba430;
    WordThird();
  }

  // ---- Answers ----

  lemma EmptyHash(seed: word)
    ensures Hash([], seed) == Fmix(seed)
  {
    hide Fmix, Xor;
    XorZero(seed);
    XorComm(seed, 0);
  }

  lemma OneBlockHash(b: seq<byte>)
    requires |b| == 4
    ensures Hash(b, 0) == Fmix(Xor(Times5(Rotl13(Mix(Block(b)))), 4))
  {
    hide Fmix, Xor, Mix, Block, Rotl13, Times5;
    XorZero(Mix(Block(b)));
    assert b[..4] == b && b[4..] == [];
    assert Body(Absorb(0, Block(b)), b[4..]) == Absorb(0, Block(b));
  }

  /** No bytes and seed 1, four zeros, and the word 0x87654321. */
  lemma KnownAnswers()
    ensures Hash([], 1) == 0x514e28b7
    ensures Hash([0, 0, 0, 0], 0) == 0x2362f9de
    ensures Hash([0x21, 0x43, 0x65, 0x87], 0) == 0xf55b516b
  {
    hide Hash, Fmix, Xor, Block;
    EmptyHash(1);
    OneFmix();
    OneBlockHash([0, 0, 0, 0]);
    ZeroBlock();
    ZeroLength();
    ZeroFmix();
    OneBlockHash([0x21, 0x43, 0x65, 0x87]);
    WordBlock();
    WordLength();
    WordFmix();
  }

  lemma ZeroBlock()
    ensures Times5(Rotl13(Mix(Block([0, 0, 0, 0])))) == 0xe6546b64
  {
    LeZeros([0, 0, 0, 0]);
  }

  lemma WordValue(b: seq<byte>)
    requires |b| == 4 && b[0] == 0x21 && b[1] == 0x43 && b[2] == 0x65 && b[3] == 0x87
    ensures Block(b) == 0x87654321
  {
    hide LeValue;
    LeFour(b);
  }

  lemma WordScales()
    ensures Scale(0x87654321, 0xcc9e2d51) == 0x5e350a71 && Scale(0x8538af1a, 0x1b873593) == 0x5082edee
  {
    DivUnique(0x87654321 * 0xcc9e2d51, WORD, 0x6c3859f5, 0x5e350a71);
    DivUnique(0x8538af1a * 0x1b873593, WORD, 0xe53573d, 0x5082edee);
  }

  lemma WordTurns()
    ensures Rotl15(0x5e350a71) == 0x8538af1a && Rotl13(0x5082edee) == 0x5dbdca10
    ensures Times5(0x5dbdca10) == 0xbb095db4
  {
    DivUnique(0x5e350a71, 0x2_0000, 0x2f1a, 0x10a71);
    DivUnique(0x5e350a71 * 0x8000 + 0x2f1a, WORD, 0x2f1a, 0x8538af1a);
    DivUnique(0x5082edee, 0x8_0000, 0xa10, 0x2edee);
    DivUnique(0x5082edee * 0x2000 + 0xa10, WORD, 0xa10, 0x5dbdca10);
    DivUnique(0x5dbdca10 * 5 + 0xe6546b64, WORD, 2, 0xbb095db4);
  }

  lemma WordBlock()
    ensures Times5(Rotl13(Mix(Block([0x21, 0x43, 0x65, 0x87])))) == 0xbb095db4
  {
    hide Block, Scale, Rotl15, Rotl13, Times5;
    WordValue([0x21, 0x43, 0x65, 0x87]);
    WordScales();
    WordTurns();
  }
}
