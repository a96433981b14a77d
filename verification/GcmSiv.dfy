/** AES-GCM-SIV (sections 4 and 5 of RFC 8452) over an arbitrary block cipher. */
module GcmSiv {
  import opened Bits
  import opened Bytes
  import opened Field
  import opened PolyvalHash
  import opened Words

  type Block = b: seq<byte> | |b| == 16 witness Zeros(16)

  /** Key and block to block; AES is a parameter. */
  type Cipher = (seq<byte>, Block) -> Block

  const LIMIT := 0x10_0000_0000

  datatype Siv = Siv(aes: Cipher, authKey: Block, encKey: seq<byte>, nonce: seq<byte>) {
    ghost predicate Valid() {
      |nonce| == 12
    }
  }

  /** Key derivation: one half-block of key for each counter value. */
  function New(aes: Cipher, key: seq<byte>, nonce: seq<byte>): (siv: Siv)
    requires |nonce| == 12
    ensures siv.Valid()
    ensures |siv.encKey| == if |key| == 32 then 32 else 16
  {
    Siv(aes, Half(aes, key, nonce, 0) + Half(aes, key, nonce, 1),
        Half(aes, key, nonce, 2) + Half(aes, key, nonce, 3) +
        if |key| == 32 then Half(aes, key, nonce, 4) + Half(aes, key, nonce, 5) else [],
        nonce)
  }

  function Half(aes: Cipher, key: seq<byte>, nonce: seq<byte>, i: nat): (h: seq<byte>)
    requires |nonce| == 12
    ensures |h| == 8
  {
    aes(key, LeBytes(i, 4) + nonce)[..8]
  }

  // ---- Counter mode ----

  /** Block number j: a 32-bit counter that wraps, in the first four bytes. */
  function CounterBlock(iv: Block, j: nat): Block {
    LeBytes((LeValue(iv[..4]) + j) % WORD, 4) + iv[4..]
  }

  function Ctr(siv: Siv, iv: Block, inp: seq<byte>): (out: seq<byte>)
    ensures |out| == |inp|
  {
    seq(|inp|, n requires 0 <= n < |inp| => ByteXor(KeyByte(siv, iv, n), inp[n]))
  }

  function KeyByte(siv: Siv, iv: Block, n: nat): byte {
    siv.aes(siv.encKey, CounterBlock(iv, n / 16))[n % 16]
  }

  lemma CtrInvolution(siv: Siv, iv: Block, inp: seq<byte>)
    ensures Ctr(siv, iv, Ctr(siv, iv, inp)) == inp
  {
    hide Xor;
    forall n | 0 <= n < |inp|
      ensures Ctr(siv, iv, Ctr(siv, iv, inp))[n] == inp[n]
    {
      var k := KeyByte(siv, iv, n);
      XorComm(k, inp[n]);
      XorComm(k, Xor(inp[n], k));
      XorCancel(inp[n], k);
    }
  }

  lemma CounterStart(iv: Block)
    ensures CounterBlock(iv, 0) == iv
  {
    hide LeValue, LeBytes, Pow2;
    Pow2Word();
    LeValueBound(iv[..4]);
    LeBytesOfValue(iv[..4]);
    assert iv[..4] + iv[4..] == iv;
  }

  lemma CounterValue(iv: Block, j: nat)
    ensures CounterBlock(iv, j)[4..] == iv[4..]
    ensures LeValue(CounterBlock(iv, j)[..4]) == (LeValue(iv[..4]) + j) % WORD
  {
    hide LeValue, LeBytes, Pow2;
    Pow2Word();
    LeValueOfBytes((LeValue(iv[..4]) + j) % WORD, 4);
    assert CounterBlock(iv, j)[..4] == LeBytes((LeValue(iv[..4]) + j) % WORD, 4);
  }

  /** Two blocks of one message share a counter block only 2^32 blocks apart, so none do within the limit. */
  lemma CounterBlocksRepeat(iv: Block, i: nat, j: nat)
    requires i <= j
    ensures CounterBlock(iv, i) == CounterBlock(iv, j) <==> (j - i) % WORD == 0
    ensures i < j && 16 * j < LIMIT ==> CounterBlock(iv, i) != CounterBlock(iv, j)
  {
    hide LeValue, LeBytes;
    CounterValue(iv, i);
    CounterValue(iv, j);
    var c := LeValue(iv[..4]);
    assert (c + i) % WORD == (c + j) % WORD ==> CounterBlock(iv, i) == CounterBlock(iv, j);
    SameResidue(c + i, c + j);
  }

  lemma SameResidue(x: nat, y: nat)
    requires x <= y
    ensures x % WORD == y % WORD <==> (y - x) % WORD == 0
  {
  }

  lemma CounterNext(iv: Block, j: nat)
    ensures var block := CounterBlock(iv, j);
            LeBytes((LeValue(block[..4]) + 1) % WORD, 4) + block[4..] == CounterBlock(iv, j + 1)
  {
    hide LeValue, LeBytes;
    CounterValue(iv, j);
  }

  method XorBlock(keystream: Block, inp: seq<byte>, todo: nat) returns (out: seq<byte>)
    requires todo <= 16 && todo <= |inp|
    ensures |out| == todo
    ensures forall k :: 0 <= k < todo ==> out[k] == ByteXor(keystream[k], inp[k])
  {
    hide ByteXor;
    out := [];
    for k := 0 to todo
      invariant |out| == k
      invariant forall i :: 0 <= i < k ==> out[i] == ByteXor(keystream[i], inp[i])
    {
      out := out + [ByteXor(keystream[k], inp[k])];
    }
  }

  lemma CtrChunk(siv: Siv, iv: Block, inp: seq<byte>, j: nat, n: nat, out: seq<byte>)
    requires n <= 16 && 16 * j + n <= |inp| && |out| == n
    requires forall k :: 0 <= k < n ==>
      out[k] == ByteXor(siv.aes(siv.encKey, CounterBlock(iv, j))[k], inp[16 * j..][k])
    ensures Ctr(siv, iv, inp)[..16 * j + n] == Ctr(siv, iv, inp)[..16 * j] + out
  {
    hide CounterBlock, ByteXor;
    forall k | 0 <= k < n
      ensures Ctr(siv, iv, inp)[16 * j + k] == out[k]
    {
      assert (16 * j + k) / 16 == j && (16 * j + k) % 16 == k;
      assert inp[16 * j..][k] == inp[16 * j + k];
    }
  }

  method AesCtr(siv: Siv, iv: Block, inp0: seq<byte>) returns (output: seq<byte>)
    ensures output == Ctr(siv, iv, inp0)
  {
    hide LeValue, LeBytes, Xor, ByteXor, Ctr, CounterBlock;
    var inp, block := inp0, iv;
    output := [];
    ghost var j := 0;
    CounterStart(iv);
    while |inp| > 0
      invariant block == CounterBlock(iv, j)
      invariant |output| <= |inp0| && inp == inp0[|output|..]
      invariant inp != [] ==> |output| == 16 * j
      invariant output == Ctr(siv, iv, inp0)[..|output|]
      decreases |inp|
    {
      var keystream := siv.aes(siv.encKey, block);
      CounterNext(iv, j);
      block := LeBytes((LeValue(block[..4]) + 1) % WORD, 4) + block[4..];
      var todo := if |inp| < 16 then |inp| else 16;
      var out := XorBlock(keystream, inp, todo);
      CtrChunk(siv, iv, inp0, j, todo, out);
      output := output + out;
      inp := inp[todo..];
      j := j + 1;
    }
  }

  // ---- Tags ----

  function LengthBlock(ad: nat, plain: nat): Block {
    LeBytes(8 * ad, 8) + LeBytes(8 * plain, 8)
  }

  /** The one-shot form: POLYVAL over padded data, padded plaintext and the two lengths. */
  function Sum(siv: Siv, plain: seq<byte>, ad: seq<byte>): nat {
    Polyval(LeValue(siv.authKey), Blocks(ad) + Blocks(plain) + [LeValue(LengthBlock(|ad|, |plain|))])
  }

  function Tag(siv: Siv, plain: seq<byte>, ad: seq<byte>): Block
    requires siv.Valid()
  {
    siv.aes(siv.encKey, Digest(Sum(siv, plain, ad), siv.nonce))
  }

  lemma BlocksOfOne(b: Block)
    ensures Blocks(b) == [LeValue(b)]
  {
    hide LeValue;
    assert Pad16(b) == b;
    assert b[..16] == b && b[16..] == [];
    assert Elements(b[16..]) == [];
  }

  /** Three incremental updates give the digest of the one-shot sum. */
  method PolyvalCalc(siv: Siv, plain: seq<byte>, ad: seq<byte>) returns (d: Block)
    requires siv.Valid()
    ensures d == Digest(Sum(siv, plain, ad), siv.nonce)
  {
    hide LeValue, LeBytes, Blocks, PolyvalFrom, Digest, LengthBlock, Low, Pow2;
    BlockReduced(siv.authKey);
    Small(LeValue(siv.authKey), 128);
    var pvh := new PolyvalIuf(siv.authKey, siv.nonce);
    pvh.Update(ad);
    pvh.Update(plain);
    var length := LengthBlock(|ad|, |plain|);
    pvh.Update(length);
    BlocksOfOne(length);
    PolyvalConcat(0, pvh.h, Blocks(ad), Blocks(plain));
    PolyvalConcat(0, pvh.h, Blocks(ad) + Blocks(plain), [LeValue(length)]);
    var r := pvh.GetDigest();
    d := r.value;
  }

  /** The tag with its top bit set starts the counter. */
  function InitialCounter(tag: Block): Block {
    Shift8(0);
    OrBound(tag[15], 0x80, 8);
    tag[15 := Or(tag[15], 0x80)]
  }

  lemma {:induction false} OrBound(a: nat, b: nat, n: nat)
    requires a < Pow2(n) && b < Pow2(n)
    ensures Or(a, b) < Pow2(n)
  {
    if n > 0 { OrBound(a / 2, b / 2, n - 1); }
  }

  lemma {:induction false} OrEqualZero(a: nat, b: nat)
    ensures Or(a, b) == 0 <==> a == 0 && b == 0
    decreases a + b
  {
    if a + b > 0 { OrEqualZero(a / 2, b / 2); }
  }

  // ---- What these blocks are as numbers ----

  /** Key and IV blocks under a cipher that does nothing: the counter of each half of each key, and the nonce. */
  lemma KeysByIdentity(key: seq<byte>, nonce: seq<byte>)
    requires |nonce| == 12
    ensures var siv := New((_, b) => b, key, nonce);
            && siv.authKey == LeBytes(0, 4) + nonce[..4] + LeBytes(1, 4) + nonce[..4]
            && siv.nonce == nonce
            && siv.encKey == LeBytes(2, 4) + nonce[..4] + LeBytes(3, 4) + nonce[..4] +
                             if |key| == 32 then LeBytes(4, 4) + nonce[..4] + LeBytes(5, 4) + nonce[..4] else []
  {
    hide LeBytes;
    var aes: Cipher := (_, b) => b;
    HalfByIdentity(aes, key, nonce, 0);
    HalfByIdentity(aes, key, nonce, 1);
    HalfByIdentity(aes, key, nonce, 2);
    HalfByIdentity(aes, key, nonce, 3);
    HalfByIdentity(aes, key, nonce, 4);
    HalfByIdentity(aes, key, nonce, 5);
  }

  lemma HalfByIdentity(aes: Cipher, key: seq<byte>, nonce: seq<byte>, i: nat)
    requires |nonce| == 12 && forall b: Block :: aes(key, b) == b
    ensures Half(aes, key, nonce, i) == LeBytes(i, 4) + nonce[..4]
  {
    hide LeBytes;
    assert (LeBytes(i, 4) + nonce)[..8] == LeBytes(i, 4) + nonce[..4];
  }

  /** The counter of a block is added within the low 32 bits of the starting block. */
  lemma CounterBlockIs(iv: Block, j: nat)
    ensures LeValue(CounterBlock(iv, j)) == LeValue(iv) - LeValue(iv) % WORD + (LeValue(iv) + j) % WORD
  {
    hide LeValue, LeBytes, Pow2, CounterBlock;
    CounterValue(iv, j);
    Pow2Word();
    var c := CounterBlock(iv, j);
    LeConcat(iv[..4], iv[4..]);
    LeConcat(c[..4], c[4..]);
    assert iv == iv[..4] + iv[4..] && c == c[..4] + c[4..];
    LeValueBound(iv[..4]);
    LowPart(LeValue(iv[..4]), LeValue(iv[4..]), j);
  }

  lemma LowPart(c: nat, h: nat, j: nat)
    requires c < WORD
    ensures var v := c + WORD * h; v % WORD == c && (v + j) % WORD == (c + j) % WORD
  {
    DivUnique(c + WORD * h, WORD, h, c);
    var q, r := (c + j) / WORD, (c + j) % WORD;
    DivUnique(c + WORD * h + j, WORD, h + q, r);
  }

  /** The last block: the number of bits of the additional data, and in its upper half that of the plaintext. */
  lemma LengthBlockIs(ad: nat, plain: nat)
    requires ad <= LIMIT && plain <= LIMIT
    ensures LeValue(LengthBlock(ad, plain)) == 8 * ad + Pow2(64) * (8 * plain)
  {
    hide LeValue, LeBytes, Pow2;
    assert Pow2(64) == WORD * WORD by { Pow2Word(); Pow2Twice(); }
    LeValueOfBytes(8 * ad, 8);
    LeValueOfBytes(8 * plain, 8);
    LeConcat(LeBytes(8 * ad, 8), LeBytes(8 * plain, 8));
  }

  lemma Pow2Twice()
    ensures Pow2(64) == Pow2(32) * Pow2(32)
  {
    hide Pow2;
    Pow2Word();
    Pow2Byte(32);
    Pow2Byte(40);
    Pow2Byte(48);
    Pow2Byte(56);
  }

  /** The starting block is the tag with bit 127 set. */
  lemma InitialCounterIs(tag: Block)
    ensures LeValue(InitialCounter(tag)) == LeValue(tag) % Pow2(127) + Pow2(127)
  {
    hide LeValue, Or, Pow2;
    TopBitSet(tag[15]);
    Pow2Top();
    TopBitCleared(tag);
    var low: nat := tag[15] % 128;
    LeAppend(tag[..15], low);
    LeAppend(tag[..15], low + 128);
    assert tag[15 := low] == tag[..15] + [low] && InitialCounter(tag) == tag[..15] + [low + 128];
    assert (low + 128) * Pow2(120) == low * Pow2(120) + 128 * Pow2(120);
  }

  lemma TopBitSet(t: byte)
    ensures Or(t, 0x80) == t % 128 + 128
  {
    hide Or, Shr, Low, Shl;
    assert Pow2(7) == 128 by { assert Pow2(3) == 8; assert Pow2(5) == 32; }
    OrShr(t, 0x80, 7);
    OrLow(t, 0x80, 7);
    Parts7(t);
    Parts7(0x80);
    Parts7(Or(t, 0x80));
    OrZero(t % 128);
    assert Or(t / 128, 1) == 1 by { OrOne(t / 128); }
  }

  lemma OrOne(x: nat)
    requires x < 2
    ensures Or(x, 1) == 1
  {
    assert Or(0, 0) == 0;
  }

  lemma Parts7(x: nat)
    ensures Shr(x, 7) == x / 128 && Low(x, 7) == x % 128
  {
    assert Pow2(7) == 128 by { assert Pow2(3) == 8; assert Pow2(5) == 32; }
    ShrDiv(x, 7, 128);
  }

  // ---- Encryption and decryption ----

  function Encrypted(siv: Siv, plain: seq<byte>, ad: seq<byte>): Result<seq<byte>>
    requires siv.Valid()
  {
    if |plain| > LIMIT then Err("plaintext too large")
    else if |ad| > LIMIT then Err("additional_data too large")
    else
      var tag := Tag(siv, plain, ad);
      Ok(Ctr(siv, InitialCounter(tag), plain) + tag)
  }

  function Decrypted(siv: Siv, sealed: seq<byte>, ad: seq<byte>): Result<seq<byte>>
    requires siv.Valid()
  {
    if |sealed| < 16 || |sealed| > LIMIT + 16 then Err("ciphertext too small or too large")
    else if |ad| > LIMIT then Err("additional_data too large")
    else
      var n := |sealed| - 16;
      var tag: Block := sealed[n..];
      var plain := Ctr(siv, InitialCounter(tag), sealed[..n]);
      if Tag(siv, plain, ad) == tag then Ok(plain) else Err("auth fail")
  }

  /** Decryption accepts exactly what encryption produces, and inverts it. */
  lemma DecryptInvertsEncrypt(siv: Siv, plain: seq<byte>, sealed: seq<byte>, ad: seq<byte>)
    requires siv.Valid()
    ensures Decrypted(siv, sealed, ad) == Ok(plain) <==> Encrypted(siv, plain, ad) == Ok(sealed)
  {
    hide Tag, Ctr, InitialCounter;
    if Encrypted(siv, plain, ad) == Ok(sealed) {
      var tag := Tag(siv, plain, ad);
      var n := |sealed| - 16;
      assert sealed[n..] == tag && sealed[..n] == Ctr(siv, InitialCounter(tag), plain);
      CtrInvolution(siv, InitialCounter(tag), plain);
    }
    if Decrypted(siv, sealed, ad) == Ok(plain) {
      var n := |sealed| - 16;
      var tag: Block := sealed[n..];
      CtrInvolution(siv, InitialCounter(tag), sealed[..n]);
      assert sealed[..n] + sealed[n..] == sealed;
    }
  }

  /** Under every key and nonce encryption fails only on oversized input, and decryption recovers all else. */
  lemma RoundTrip(aes: Cipher, key: seq<byte>, nonce: seq<byte>, plain: seq<byte>, ad: seq<byte>)
    requires |nonce| == 12
    ensures var r := Encrypted(New(aes, key, nonce), plain, ad);
            && (r.Ok? <==> |plain| <= 16 * WORD && |ad| <= 16 * WORD)
            && (r.Ok? ==> |r.value| == |plain| + 16 && Decrypted(New(aes, key, nonce), r.value, ad) == Ok(plain))
  {
    hide New;
    var r := Encrypted(New(aes, key, nonce), plain, ad);
    if r.Ok? { DecryptInvertsEncrypt(New(aes, key, nonce), plain, r.value, ad); }
  }

  // ---- A message worked out ----

  /** A cipher that does nothing under the key [9], and x^129 as the hash key, under which dot doubles. */
  function PlainSiv(): Siv {
    Siv((k, b) => if k == [9] then b else Zeros(16), [3] + Zeros(14) + [0x46], [9], [64] + Zeros(11))
  }

  lemma PlainKey()
    ensures LeValue(PlainSiv().authKey) == X129()
  {
    hide LeValue, Pow2;
    assert Pow2(121) == 2 * Pow2(120) by { Pow2Next(120); }
    LeLowFirst([3] + Zeros(14));
    LeAppend([3] + Zeros(14), 0x46);
  }

  lemma Pow2Next(n: nat)
    ensures Pow2(n + 1) == 2 * Pow2(n)
  {
  }

  /** Doubled, added and doubled again: the blocks 2 and 5, and the lengths 16 and 8. */
  lemma PlainSum()
    ensures Sum(PlainSiv(), [5], [2, 0]) == 36 + 16 * Pow2(64)
  {
    hide LeValue, Pow2, Dot, Xor, X129, LengthBlock;
    PlainKey();
    LengthBlockIs(2, 1);
    assert Blocks([2, 0]) == [2] by { ShortBlock([2, 0]); LeLowFirst(Pad16([2, 0])); }
    assert Blocks([5]) == [5] by { ShortBlock([5]); LeLowFirst(Pad16([5])); }
    var h, l := X129(), 16 + Pow2(64) * 8;
    assert Blocks([2, 0]) + Blocks([5]) + [LeValue(LengthBlock(2, 1))] == [2, 5, l];
    Pow2Mono(6, 127);
    assert Pow2(6) == 64 by { Pow2Next(5); SmallPowers(); }
    assert 2 * (18 + Pow2(64) * 8) == 36 + 16 * Pow2(64);
    assert 18 + Pow2(64) * 8 < Pow2(127) by { BigEnough(); }
    XorZero(2);
    DotDoubles(2);
    assert Xor(4, 5) == 1 by { TwoBits(); XorHalf(1, 1, 0, 1); }
    DotDoubles(1);
    assert Xor(2, l) == 18 + Pow2(64) * 8 by { BigXor(); }
    DotDoubles(18 + Pow2(64) * 8);
    ThreeSteps(h, 2, 5, l);
  }

  lemma ThreeSteps(h: nat, a: nat, b: nat, c: nat)
    ensures Polyval(h, [a, b, c]) == Dot(Xor(Dot(Xor(Dot(Xor(0, a), h), b), h), c), h)
  {
    hide Dot, Xor;
    var s1 := Dot(Xor(0, a), h);
    assert [a, b, c][1..] == [b, c] && [b, c][1..] == [c] && [c][1..] == [];
    assert PolyvalFrom(0, h, [a, b, c]) == PolyvalFrom(s1, h, [b, c]);
    assert PolyvalFrom(s1, h, [b, c]) == PolyvalFrom(Dot(Xor(s1, b), h), h, [c]);
    var s2 := Dot(Xor(s1, b), h);
    assert PolyvalFrom(s2, h, [c]) == PolyvalFrom(Dot(Xor(s2, c), h), h, []);
  }

  lemma ShortBlock(s: seq<byte>)
    requires 0 < |s| < 16
    ensures Blocks(s) == [LeValue(Pad16(s))] && |Pad16(s)| == 16
    ensures Pad16(s)[0] == s[0] && forall i :: |s| <= i < 16 ==> Pad16(s)[i] == 0
  {
    hide LeValue;
    PadCountFits(|s|);
    var p := Pad16(s);
    assert p[..16] == p && p[16..] == [];
    assert Elements(p[16..]) == [];
  }

  lemma BigEnough()
    ensures 18 + Pow2(64) * 8 < Pow2(127)
  {
    hide Pow2;
    Pow2Mono(5, 67);
    Pow2Mono(68, 127);
    assert Pow2(67) == 8 * Pow2(64) && Pow2(68) == 2 * Pow2(67) by {
      Pow2Next(64);
      Pow2Next(65);
      Pow2Next(66);
      Pow2Next(67);
    }
    SmallPowers();
  }

  lemma BigXor()
    ensures Xor(2, 16 + Pow2(64) * 8) == 18 + Pow2(64) * 8
  {
    hide Pow2, Xor;
    var v := 4 + Pow2(64) * 2;
    XorZero(v);
    XorHalf(0, v, 2, 0);
    TwoBits();
  }

  /** Worked out by hand: data [2, 0] and message [5] under the nonce [64, 0, ...]. */
  lemma WorkedExample()
    ensures Encrypted(PlainSiv(), [5], [2, 0]) == Ok([97, 100, 0, 0, 0, 0, 0, 0, 0, 16, 0, 0, 0, 0, 0, 0, 0])
  {
    hide Tag, Ctr, Or, PlainSiv;
    var tag: Block := [100, 0, 0, 0, 0, 0, 0, 0, 16, 0, 0, 0, 0, 0, 0, 0];
    PlainTag(tag);
    PlainCtr(InitialCounter(tag));
    assert [97] + tag == [97, 100, 0, 0, 0, 0, 0, 0, 0, 16, 0, 0, 0, 0, 0, 0, 0];
  }

  lemma PlainCtr(iv: Block)
    requires iv[0] == 100
    ensures Ctr(PlainSiv(), iv, [5]) == [97]
  {
    hide LeValue, LeBytes, Xor, CounterBlock;
    CounterStart(iv);
    assert ByteXor(100, 5) == 97 by {
      TwoBits();
      XorHalf(1, 1, 0, 1);
      XorZero(6);
      XorComm(6, 0);
      XorDigit(6, 0, 4, 5);
    }
    assert PlainSiv().aes([9], iv) == iv;
  }

  lemma PlainTag(tag: Block)
    requires tag == [100, 0, 0, 0, 0, 0, 0, 0, 16, 0, 0, 0, 0, 0, 0, 0]
    ensures Tag(PlainSiv(), [5], [2, 0]) == tag
  {
    hide LeValue, LeBytes, Xor, Sum, Pow2;
    PlainSum();
    var b: seq<byte> := [36, 0, 0, 0, 0, 0, 0, 0] + [16, 0, 0, 0, 0, 0, 0, 0];
    LeConcat([36, 0, 0, 0, 0, 0, 0, 0], [16, 0, 0, 0, 0, 0, 0, 0]);
    LeLowFirst([36, 0, 0, 0, 0, 0, 0, 0]);
    LeLowFirst([16, 0, 0, 0, 0, 0, 0, 0]);
    LeBytesOfValue(b);
    assert ByteXor(36, 64) == 100 by {
      TwoBits();
      XorHalf(0, 1, 2, 0);
      XorZero(4);
      XorComm(4, 0);
      XorDigit(2, 4, 4, 0);
    }
    ByteXorZero();
    assert Digest(36 + 16 * Pow2(64), PlainSiv().nonce) == tag;
  }

  method Encrypt(siv: Siv, plain: seq<byte>, ad: seq<byte>) returns (r: Result<seq<byte>>)
    requires siv.Valid()
    ensures r == Encrypted(siv, plain, ad)
  {
    hide Sum, Ctr, Digest, InitialCounter;
    if |plain| > LIMIT { return Err("plaintext too large"); }
    if |ad| > LIMIT { return Err("additional_data too large"); }
    var s := PolyvalCalc(siv, plain, ad);
    var tag := siv.aes(siv.encKey, s);
    var body := AesCtr(siv, InitialCounter(tag), plain);
    r := Ok(body + tag);
  }

  method Decrypt(siv: Siv, sealed: seq<byte>, ad: seq<byte>) returns (r: Result<seq<byte>>)
    requires siv.Valid()
    ensures r == Decrypted(siv, sealed, ad)
  {
    hide Sum, Ctr, Digest, InitialCounter, Or, Xor;
    if |sealed| < 16 || |sealed| > LIMIT + 16 { return Err("ciphertext too small or too large"); }
    if |ad| > LIMIT { return Err("additional_data too large"); }
    var n := |sealed| - 16;
    var body, tag: Block := sealed[..n], sealed[n..];
    var plain := AesCtr(siv, InitialCounter(tag), body);
    var s := PolyvalCalc(siv, plain, ad);
    var expected := siv.aes(siv.encKey, s);
    var xorSum := 0;
    for i := 0 to 16
      invariant xorSum == 0 <==> expected[..i] == tag[..i]
    {
      OrEqualZero(xorSum, Xor(expected[i], tag[i]));
      XorEqualZero(expected[i], tag[i]);
      assert expected[..i + 1] == expected[..i] + [expected[i]];
      assert tag[..i + 1] == tag[..i] + [tag[i]];
      xorSum := Or(xorSum, Xor(expected[i], tag[i]));
    }
    assert expected[..16] == expected && tag[..16] == tag;
    if xorSum != 0 { return Err("auth fail"); }
    r := Ok(plain);
  }
}
