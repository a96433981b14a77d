/** The 32-bit MurmurHash3 that guards page-table entries, space updates and key data. */
module Murmur {
  import opened Bits
  import opened Bytes
  import opened Words

  function Scale(x: nat, c: nat): word {
    x * c % WORD
  }

  /** Rotations: the two halves fall on disjoint bits, so `|` is `+`. */
  function Rotl15(x: word): word {
    (x * 0x8000 + x / 0x2_0000) % WORD
  }

  function Rotl13(x: word): word {
    (x * 0x2000 + x / 0x8_0000) % WORD
  }

  function XorShift(h: nat, n: nat): nat {
    Xor(h, Shr(h, n))
  }

  /** Scrambling of one block. */
  function Mix(k: nat): word {
    Scale(Rotl15(Scale(k, 0xcc9e2d51)), 0x1b873593)
  }

  function Absorb(h: word, k: word): word {
    Times5(Rotl13(Xor32(h, Mix(k))))
  }

  function Times5(x: word): word {
    (x * 5 + 0xe6546b64) % WORD
  }

  function Fmix(h: nat): nat {
    var a := Scale(XorShift(h, 16), 0x85ebca6b);
    var b := Scale(XorShift(a, 13), 0xc2b2ae35);
    XorShift(b, 16)
  }

  lemma BlockIsWord(b: seq<byte>)
    requires |b| <= 4
    ensures LeValue(b) < WORD
  {
    hide LeValue, Pow2;
    Pow2Word();
    LeValueBound(b);
    Pow2Mono(8 * |b|, 32);
  }

  function Block(b: seq<byte>): word
    requires |b| <= 4
  {
    BlockIsWord(b);
    LeValue(b)
  }

  /** All whole blocks. */
  function Body(h: word, key: seq<byte>): word
    decreases |key|
  {
    if |key| < 4 then h else Body(Absorb(h, Block(key[..4])), key[4..])
  }

  function Tail(h: word, tail: seq<byte>): word
    requires |tail| < 4
  {
    if tail == [] then h else Xor32(h, Mix(Block(tail)))
  }

  function Hash(key: seq<byte>, seed: word): nat {
    var cut := |key| / 4 * 4;
    Fmix(Xor(Tail(Body(seed, key), key[cut..]), |key|))
  }

  // ---- Each stage is injective ----

  lemma ScaleMod(a: nat, b: nat)
    ensures (a % WORD * b) % WORD == (a * b) % WORD
  {
    var q, r := a / WORD, a % WORD;
    assert a * b == WORD * (q * b) + r * b;
  }

  /** An odd factor has an inverse modulo 2^32. */
  lemma ScaleInjective(x: nat, y: nat, c: nat, inverse: nat)
    requires c * inverse % WORD == 1 && Scale(x, c) == Scale(y, c)
    ensures x % WORD == y % WORD
  {
    Unscale(x, c, inverse);
    Unscale(y, c, inverse);
  }

  lemma Unscale(x: nat, c: nat, inverse: nat)
    requires c * inverse % WORD == 1
    ensures Scale(Scale(x, c), inverse) == x % WORD
  {
    ScaleMod(x * c, inverse);
    assert x * c * inverse == (c * inverse) * x;
    ScaleMod(c * inverse, x);
  }

  lemma Rotl15Injective(x: word, y: word)
    requires Rotl15(x) == Rotl15(y)
    ensures x == y
  {
    Rotl15Parts(x);
    Rotl15Parts(y);
  }

  lemma Rotl15Parts(x: word)
    ensures Rotl15(x) == x % 0x2_0000 * 0x8000 + x / 0x2_0000
  {
    var q, r := x / 0x2_0000, x % 0x2_0000;
    assert x * 0x8000 + q == WORD * q + (r * 0x8000 + q);
    DivUnique(x * 0x8000 + q, WORD, q, r * 0x8000 + q);
  }

  lemma Rotl13Injective(x: word, y: word)
    requires Rotl13(x) == Rotl13(y)
    ensures x == y
  {
    Rotl13Parts(x);
    Rotl13Parts(y);
  }

  lemma Rotl13Parts(x: word)
    ensures Rotl13(x) == x % 0x8_0000 * 0x2000 + x / 0x8_0000
  {
    var q, r := x / 0x8_0000, x % 0x8_0000;
    assert x * 0x2000 + q == WORD * q + (r * 0x2000 + q);
  }

  lemma MixInjective(x: word, y: word)
    ensures Mix(x) == Mix(y) ==> x == y
  {
    hide Scale, Rotl15;
    if Mix(x) != Mix(y) { return; }
    ScaleInjective(Rotl15(Scale(x, 0xcc9e2d51)), Rotl15(Scale(y, 0xcc9e2d51)), 0x1b873593, 0x56ed309b);
    Rotl15Injective(Scale(x, 0xcc9e2d51), Scale(y, 0xcc9e2d51));
    ScaleInjective(x, y, 0xcc9e2d51, 0xdee13bb1);
  }

  lemma SumInjective(a: nat, b: nat, c: nat)
    requires (a + c) % WORD == (b + c) % WORD
    ensures a % WORD == b % WORD
  {
    var k := (a + c) / WORD - (b + c) / WORD;
    assert a == b + WORD * k;
  }

  lemma Times5Injective(x: word, y: word)
    requires Times5(x) == Times5(y)
    ensures x == y
  {
    var a: nat, b: nat := x, y;
    SumInjective(5 * a, 5 * b, 0xe6546b64);
    ScaleInjective(a, b, 5, 0xcccc_cccd);
  }

  lemma AbsorbXor(h: word, k: word, h': word, k': word)
    ensures Absorb(h, k) == Absorb(h', k') ==> Xor32(h, Mix(k)) == Xor32(h', Mix(k'))
  {
    hide Mix, Rotl13, Xor32, Times5;
    if Absorb(h, k) != Absorb(h', k') { return; }
    Times5Injective(Rotl13(Xor32(h, Mix(k))), Rotl13(Xor32(h', Mix(k'))));
    Rotl13Injective(Xor32(h, Mix(k)), Xor32(h', Mix(k')));
  }

  lemma Xor32Injective(a: word, b: word, y: word)
    ensures Xor32(a, y) == Xor32(b, y) ==> a == b
    ensures Xor32(y, a) == Xor32(y, b) ==> a == b
  {
    hide Xor;
    XorComm(y, a);
    XorComm(y, b);
    if Xor(a, y) == Xor(b, y) { XorInjective(a, b, y); }
  }

  lemma {:induction false} ShrLess(x: nat, n: nat)
    ensures Shr(x, n) <= x
    ensures x > 0 && n > 0 ==> Shr(x, n) < x
  {
    if n > 0 { ShrLess(x / 2, n - 1); }
  }

  lemma {:induction false} XorShiftInjective(x: nat, y: nat, n: nat)
    requires n > 0 && XorShift(x, n) == XorShift(y, n)
    ensures x == y
    decreases x + y
  {
    hide Xor, Shr;
    if x + y > 0 {
      var x', y' := Shr(x, n), Shr(y, n);
      ShrLess(x, n);
      ShrLess(y, n);
      XorShr(x, x', n);
      XorShr(y, y', n);
      XorShiftInjective(x', y', n);
      XorInjective(x, y, x');
    }
  }

  lemma XorShiftBound(h: word, n: nat)
    ensures XorShift(h, n) < WORD
  {
    hide Xor, Shr;
    ShrLess(h, n);
    XorWordBound(h, Shr(h, n));
  }

  /** Finalization is injective among numbers with the same bits above the word. */
  lemma FmixInjective(x: nat, y: nat)
    requires Shr(x, 32) == Shr(y, 32)
    ensures Fmix(x) == Fmix(y) ==> x == y
  {
    hide Scale, XorShift;
    if Fmix(x) != Fmix(y) { return; }
    var a, a' := Scale(XorShift(x, 16), 0x85ebca6b), Scale(XorShift(y, 16), 0x85ebca6b);
    var b, b' := Scale(XorShift(a, 13), 0xc2b2ae35), Scale(XorShift(a', 13), 0xc2b2ae35);
    XorShiftInjective(b, b', 16);
    ScaleInjective(XorShift(a, 13), XorShift(a', 13), 0xc2b2ae35, 0x7ed1b41d);
    XorShiftBound(a, 13);
    XorShiftBound(a', 13);
    XorShiftInjective(a, a', 13);
    ScaleInjective(XorShift(x, 16), XorShift(y, 16), 0x85ebca6b, 0xa5cb9243);
    FirstShift(x, y);
    XorShiftInjective(x, y, 16);
  }

  lemma FirstShift(x: nat, y: nat)
    requires Shr(x, 32) == Shr(y, 32) && XorShift(x, 16) % WORD == XorShift(y, 16) % WORD
    ensures XorShift(x, 16) == XorShift(y, 16)
  {
    hide Xor, Shr, Low, Shl;
    var u, v := XorShift(x, 16), XorShift(y, 16);
    XorShr(x, Shr(x, 16), 32);
    XorShr(y, Shr(y, 16), 32);
    ShrShr(x, 16, 32);
    ShrShr(x, 32, 16);
    ShrShr(y, 16, 32);
    ShrShr(y, 32, 16);
    LowWord(u);
    LowWord(v);
    Split(u, 32);
    Split(v, 32);
  }

  lemma HashIsWord(key: seq<byte>, seed: word)
    ensures Hash(key, seed) < Pow2(32)
  {
    hide Xor, Scale, Body, Tail, Pow2, XorShift;
    Pow2Word();
    var h := Xor(Tail(Body(seed, key), key[|key| / 4 * 4..]), |key|);
    XorShiftBound(Scale(XorShift(Scale(XorShift(h, 16), 0x85ebca6b), 13), 0xc2b2ae35), 16);
  }

  // ---- The hash is injective in each part of its input ----

  lemma {:induction false} BodyConcat(h: word, pre: seq<byte>, rest: seq<byte>)
    requires |pre| % 4 == 0
    ensures Body(h, pre + rest) == Body(Body(h, pre), rest)
    decreases |pre|
  {
    hide Absorb;
    if pre == [] {
      assert pre + rest == rest;
    } else {
      BodyConcat(Absorb(h, Block(pre[..4])), pre[4..], rest);
      assert (pre + rest)[..4] == pre[..4] && (pre + rest)[4..] == pre[4..] + rest;
    }
  }

  lemma {:induction false} BodyInjective(h: word, h': word, key: seq<byte>)
    requires Body(h, key) == Body(h', key)
    ensures h == h'
    decreases |key|
  {
    hide Absorb, Xor32;
    if |key| >= 4 {
      var k := Block(key[..4]);
      BodyInjective(Absorb(h, k), Absorb(h', k), key[4..]);
      AbsorbXor(h, k, h', k);
      Xor32Injective(h, h', Mix(k));
    }
  }

  lemma FinishInjective(x: word, y: word, length: nat)
    ensures Fmix(Xor(x, length)) == Fmix(Xor(y, length)) ==> x == y
  {
    hide Fmix, Xor, Shr, Pow2;
    Pow2Word();
    Small(x, 32);
    Small(y, 32);
    XorShr(x, length, 32);
    XorShr(y, length, 32);
    FmixInjective(Xor(x, length), Xor(y, length));
    if Xor(x, length) == Xor(y, length) { XorInjective(x, y, length); }
  }

  /** With the tail fixed, the state before it decides the hash. */
  lemma TailStep(x: word, y: word, tail: seq<byte>, length: nat)
    requires |tail| < 4
    ensures Fmix(Xor(Tail(x, tail), length)) == Fmix(Xor(Tail(y, tail), length)) ==> x == y
  {
    hide Fmix, Xor32, Mix, Block;
    FinishInjective(Tail(x, tail), Tail(y, tail), length);
    if tail != [] { Xor32Injective(x, y, Mix(Block(tail))); }
  }

  lemma SeedInjective(key: seq<byte>, seed: word, seed': word)
    ensures Hash(key, seed) == Hash(key, seed') ==> seed == seed'
  {
    hide Fmix, Tail, Body;
    var tail := key[|key| / 4 * 4..];
    TailStep(Body(seed, key), Body(seed', key), tail, |key|);
    if Body(seed, key) == Body(seed', key) { BodyInjective(seed, seed', key); }
  }

  /** Changing one aligned block, and nothing else, changes the hash. */
  lemma BlockInjective(pre: seq<byte>, b: seq<byte>, b': seq<byte>, post: seq<byte>, seed: word)
    requires |pre| % 4 == 0 && |b| == 4 && |b'| == 4
    ensures Hash(pre + b + post, seed) == Hash(pre + b' + post, seed) ==> b == b'
  {
    hide Fmix, Tail, Body, Block, Xor;
    var k, k' := pre + b + post, pre + b' + post;
    var cut := |k| / 4 * 4;
    assert k[cut..] == k'[cut..];
    TailStep(Body(seed, k), Body(seed, k'), k[cut..], |k|);
    assert k == pre + (b + post) && k' == pre + (b' + post);
    BodyConcat(seed, pre, b + post);
    BodyConcat(seed, pre, b' + post);
    SameBlock(Body(seed, pre), b, b', post);
  }

  lemma SameBlock(h: word, b: seq<byte>, b': seq<byte>, post: seq<byte>)
    requires |b| == 4 && |b'| == 4
    ensures Body(h, b + post) == Body(h, b' + post) ==> b == b'
  {
    hide Xor32, Mix, Body, Absorb;
    if Body(h, b + post) != Body(h, b' + post) { return; }
    OneBlock(h, b, post);
    OneBlock(h, b', post);
    BodyInjective(Absorb(h, Block(b)), Absorb(h, Block(b')), post);
    AbsorbXor(h, Block(b), h, Block(b'));
    Xor32Injective(Mix(Block(b)), Mix(Block(b')), h);
    MixInjective(Block(b), Block(b'));
    LeBytesOfValue(b);
    LeBytesOfValue(b');
  }

  lemma OneBlock(h: word, b: seq<byte>, post: seq<byte>)
    requires |b| == 4
    ensures Body(h, b + post) == Body(Absorb(h, Block(b)), post)
  {
    hide Absorb, Block;
    assert (b + post)[..4] == b && (b + post)[4..] == post;
  }

  lemma TailInjective(pre: seq<byte>, t: seq<byte>, t': seq<byte>, seed: word)
    requires |pre| % 4 == 0 && |t| == |t'| < 4
    ensures Hash(pre + t, seed) == Hash(pre + t', seed) ==> t == t'
  {
    hide Fmix, Tail, Body, Xor;
    var k, k' := pre + t, pre + t';
    var cut := |pre|;
    assert cut == |k| / 4 * 4;
    assert k[cut..] == t && k'[cut..] == t';
    BodyConcat(seed, pre, t);
    BodyConcat(seed, pre, t');
    var h := Body(seed, pre);
    ShortBody(h, t);
    ShortBody(h, t');
    SameTail(h, t, t', |k|);
  }

  lemma SameTail(h: word, t: seq<byte>, t': seq<byte>, length: nat)
    requires |t| == |t'| < 4
    ensures Fmix(Xor(Tail(h, t), length)) == Fmix(Xor(Tail(h, t'), length)) ==> t == t'
  {
    hide Fmix, Xor32, Mix, Xor;
    FinishInjective(Tail(h, t), Tail(h, t'), length);
    if t != [] && Tail(h, t) == Tail(h, t') {
      Xor32Injective(Mix(Block(t)), Mix(Block(t')), h);
      MixInjective(Block(t), Block(t'));
      LeBytesOfValue(t);
      LeBytesOfValue(t');
    }
  }

  lemma ShortBody(h: word, t: seq<byte>)
    requires |t| < 4
    ensures Body(h, t) == h
  {
  }

  /** Zeros short of a block leave no trace but their number. */
  lemma ZeroTail(n: nat, seed: word)
    requires n < 4
    ensures Hash(seq(n, _ => 0), seed) == Hash([], Xor32(seed, n))
  {
    hide Fmix, Xor;
    var key: seq<byte> := seq(n, _ => 0);
    assert key[0..] == key;
    LeZeros(key);
    XorZero(seed);
    XorComm(seed, 0);
    XorZero(Xor(seed, n));
    XorComm(Xor(seed, n), 0);
  }

  // ---- The loop ----

  /** `(x << 15 | x >> 17) & 0xFFFFFFFF` */
  lemma Rotl15IsOr(x: word)
    ensures Rotl15(x) == Or(Shl(x, 15), Shr(x, 17)) % WORD
  {
    hide Or, Shl, Shr, Low;
    SplitAt(x, 17);
    OrDisjoint(x, Shr(x, 17), 15);
    ShlMul(x, 15);
    SmallPowers();
  }

  /** `(x << 13 | x >> 19) & 0xFFFFFFFF` */
  lemma Rotl13IsOr(x: word)
    ensures Rotl13(x) == Or(Shl(x, 13), Shr(x, 19)) % WORD
  {
    hide Or, Shl, Shr, Low;
    SplitAt(x, 19);
    OrDisjoint(x, Shr(x, 19), 13);
    ShlMul(x, 13);
    SmallPowers();
  }

  lemma SplitAt(x: word, n: nat)
    requires n == 17 || n == 19
    ensures Shr(x, n) == x / Pow2(n) && Shr(x, n) < Pow2(32 - n)
  {
    hide Shr, Low, Shl;
    SmallPowers();
    Split(x, n);
    ShlMul(Shr(x, n), n);
  }

  /** Up to four bytes joined by shifts, the last one first. */
  method Join4(b: seq<byte>) returns (k: word)
    requires |b| <= 4
    ensures k == Block(b)
  {
    hide Or, Shl, LeValue;
    var v: nat, i := 0, |b|;
    LeValueStep(b[|b|..]);
    while i > 0
      invariant 0 <= i <= |b|
      invariant v == LeValue(b[i..])
    {
      i := i - 1;
      AppendByte(v, b[i]);
      LeValueStep(b[i..]);
      assert b[i..][1..] == b[i + 1..];
      v := Or(Shl(v, 8), b[i]);
    }
    BlockIsWord(b);
    k := v;
  }

  method MixLoop(k: word) returns (r: word)
    ensures r == Mix(k)
  {
    hide Or, Shl, Shr, Rotl15;
    var k1 := k * 0xcc9e2d51 % WORD;
    Rotl15IsOr(k1);
    k1 := Or(Shl(k1, 15), Shr(k1, 17)) % WORD;
    r := k1 * 0x1b873593 % WORD;
  }

  method Mm3Hash(key: seq<byte>, seed: word) returns (hash: nat)
    ensures hash == Hash(key, seed)
  {
    hide Fmix, Rotl13, Mix, Xor, LeValue, Or, Shl, Shr;
    var h1: word := seed;
    var nblocks := |key| / 4;
    var start := 0;
    assert key[0..] == key;
    while start < nblocks * 4
      invariant 0 <= start <= nblocks * 4 && start % 4 == 0
      invariant Body(h1, key[start..]) == Body(seed, key)
    {
      assert key[start..][..4] == key[start..start + 4] && key[start..][4..] == key[start + 4..];
      var k1 := Join4(key[start..start + 4]);
      k1 := MixLoop(k1);
      h1 := Xor32(h1, k1);
      Rotl13IsOr(h1);
      h1 := Or(Shl(h1, 13), Shr(h1, 19)) % WORD;
      h1 := (h1 * 5 + 0xe6546b64) % WORD;
      start := start + 4;
    }
    var tail := key[nblocks * 4..];
    var k1 := Join4(tail);
    if |tail| > 0 {
      k1 := MixLoop(k1);
      h1 := Xor32(h1, k1);
    }
    hash := Fmix(Xor(h1, |key|));
  }

  // ---- Records guarded by the hash ----

  /** A page-table entry: address and flags, nonce, checksum seeded by the nonce. */
  predicate PteValid(b: seq<byte>)
    requires |b| == 16
  {
    LeValue(b[12..]) == Hash(b[..12], Block(b[8..12]))
  }

  /** A space update: nonce, page word, checksum seeded by the nonce's second half read the other way round. */
  predicate SpaceUpdateValid(b: seq<byte>)
    requires |b| == 16
  {
    LeValue(b[12..]) == Hash(b[..12], BigEndianWord(b[4..8]))
  }

  function BigEndianWord(b: seq<byte>): word
    requires |b| == 4
  {
    Pow2Word();
    BeValueBound(b);
    BeValue(b)
  }

  predicate AgreeOutside(p: seq<byte>, q: seq<byte>, w: nat)
    requires |p| == |q| == 16 && w < 4
  {
    p[..4 * w] == q[..4 * w] && p[4 * w + 4..] == q[4 * w + 4..]
  }

  /** Two valid entries cannot differ in one word only, unless it is the nonce. */
  lemma PteDetectsWord(p: seq<byte>, q: seq<byte>, w: nat)
    requires |p| == 16 && |q| == 16 && w < 4 && w != 2 && AgreeOutside(p, q, w)
    ensures PteValid(p) && PteValid(q) ==> p == q
  {
    hide Hash, LeValue;
    RecordWords(p);
    RecordWords(q);
    SameWords(p, q, w);
    if w == 3 {
      if PteValid(p) && PteValid(q) { SameChecksum(p, q); }
    } else {
      WordInHash(p, q, w, Block(p[8..12]));
    }
  }

  lemma SpaceUpdateDetectsWord(p: seq<byte>, q: seq<byte>, w: nat)
    requires |p| == 16 && |q| == 16 && w < 4 && w != 1 && AgreeOutside(p, q, w)
    ensures SpaceUpdateValid(p) && SpaceUpdateValid(q) ==> p == q
  {
    hide Hash, LeValue, BeValue;
    RecordWords(p);
    RecordWords(q);
    SameWords(p, q, w);
    if w == 3 {
      if SpaceUpdateValid(p) && SpaceUpdateValid(q) { SameChecksum(p, q); }
    } else {
      WordInHash(p, q, w, BigEndianWord(p[4..8]));
    }
  }

  lemma RecordWords(p: seq<byte>)
    requires |p| == 16
    ensures p == p[..4] + p[4..8] + p[8..12] + p[12..]
    ensures p[..12] == p[..4] + p[4..8] + p[8..12]
  {
  }

  /** The words other than w agree. */
  lemma SameWords(p: seq<byte>, q: seq<byte>, w: nat)
    requires |p| == 16 && |q| == 16 && w < 4 && AgreeOutside(p, q, w)
    ensures w != 0 ==> p[..4] == q[..4]
    ensures w != 1 ==> p[4..8] == q[4..8]
    ensures w != 2 ==> p[8..12] == q[8..12]
    ensures w != 3 ==> p[12..] == q[12..]
  {
    forall i | 0 <= i < 16 && i / 4 != w
      ensures p[i] == q[i]
    {
      if i < 4 * w {
        assert p[..4 * w][i] == q[..4 * w][i];
      } else {
        assert p[4 * w + 4..][i - 4 * w - 4] == q[4 * w + 4..][i - 4 * w - 4];
      }
    }
  }

  lemma SameChecksum(p: seq<byte>, q: seq<byte>)
    requires |p| == 16 && |q| == 16 && LeValue(p[12..]) == LeValue(q[12..])
    ensures p[12..] == q[12..]
  {
    LeBytesOfValue(p[12..]);
    LeBytesOfValue(q[12..]);
  }

  lemma WordInHash(p: seq<byte>, q: seq<byte>, w: nat, seed: word)
    requires |p| == 16 && |q| == 16 && w < 3 && AgreeOutside(p, q, w)
    ensures Hash(p[..12], seed) == Hash(q[..12], seed) ==> p == q
  {
    hide Hash;
    RecordWords(p);
    RecordWords(q);
    SameWords(p, q, w);
    HashDetectsBlock(p[..12], q[..12], 4 * w, seed);
  }

  /** Inputs of equal length and hash cannot differ in one aligned block only. */
  lemma HashDetectsBlock(p: seq<byte>, q: seq<byte>, k: nat, seed: word)
    requires |p| == |q| && k % 4 == 0 && k + 4 <= |p|
    requires p[..k] == q[..k] && p[k + 4..] == q[k + 4..]
    ensures Hash(p, seed) == Hash(q, seed) ==> p == q
  {
    hide Hash;
    assert p == p[..k] + p[k..k + 4] + p[k + 4..];
    assert q == p[..k] + q[k..k + 4] + p[k + 4..];
    BlockInjective(p[..k], p[k..k + 4], q[k..k + 4], p[k + 4..], seed);
  }
}
