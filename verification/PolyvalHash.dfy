/** POLYVAL: the one-shot iteration of RFC 8452 and its incremental form. */
module PolyvalHash {
  import opened Bits
  import opened Bytes
  import opened Field

  /** S_j = dot(S_{j-1} + X_j, H), from a given S_0. */
  function PolyvalFrom(s: nat, h: nat, xs: seq<nat>): nat
    decreases |xs|
  {
    if xs == [] then s else PolyvalFrom(Dot(Xor(s, xs[0]), h), h, xs[1..])
  }

  function Polyval(h: nat, xs: seq<nat>): nat {
    PolyvalFrom(0, h, xs)
  }

  /** H^n under dot. */
  function Power(h: nat, n: nat): nat
    requires n > 0
  {
    if n == 1 then h else Dot(h, Power(h, n - 1))
  }

  /** X_1 H^s + X_2 H^(s-1) + ... + X_s H, products under dot. */
  function WeightedSum(h: nat, xs: seq<nat>): nat
    decreases |xs|
  {
    if xs == [] then 0 else Xor(Dot(xs[0], Power(h, |xs|)), WeightedSum(h, xs[1..]))
  }

  lemma {:induction false} IterationIsSum(s: nat, h: nat, xs: seq<nat>)
    requires xs != []
    ensures PolyvalFrom(s, h, xs) == Xor(Dot(s, Power(h, |xs|)), WeightedSum(h, xs))
    decreases |xs|
  {
    hide Dot, Xor;
    var x, rest := xs[0], xs[1..];
    var y := Dot(Xor(s, x), h);
    if rest == [] {
      DotDistributes(s, x, h);
      XorZero(Dot(x, h));
      assert WeightedSum(h, rest) == 0;
    } else {
      IterationIsSum(y, h, rest);
      DotAssociates(Xor(s, x), h, Power(h, |rest|));
      DotDistributes(s, x, Power(h, |xs|));
      XorAssoc(Dot(s, Power(h, |xs|)), Dot(x, Power(h, |xs|)), WeightedSum(h, rest));
    }
  }

  lemma PolyvalIsSum(h: nat, xs: seq<nat>)
    ensures Polyval(h, xs) == WeightedSum(h, xs)
  {
    if xs != [] {
      IterationIsSum(0, h, xs);
      hide Dot, Xor, PolyvalFrom, WeightedSum;
      XorSelf(0);
      var p := Dot(0, Power(h, |xs|));
      DotDistributes(0, 0, Power(h, |xs|));
      XorSelf(p);
      XorZero(WeightedSum(h, xs));
    }
  }

  lemma {:induction false} PolyvalConcat(s: nat, h: nat, xs: seq<nat>, ys: seq<nat>)
    ensures PolyvalFrom(s, h, xs + ys) == PolyvalFrom(PolyvalFrom(s, h, xs), h, ys)
    decreases |xs|
  {
    hide Dot, Xor;
    if xs == [] {
      assert xs + ys == ys;
    } else {
      PolyvalConcat(Dot(Xor(s, xs[0]), h), h, xs[1..], ys);
      assert (xs + ys)[1..] == xs[1..] + ys;
    }
  }

  lemma {:induction false} PolyvalReduced(s: nat, h: nat, xs: seq<nat>)
    requires Reduced(s)
    ensures Reduced(PolyvalFrom(s, h, xs))
    decreases |xs|
  {
    hide Dot, Xor, Reduced;
    if xs != [] {
      DotReduced(Xor(s, xs[0]), h);
      PolyvalReduced(Dot(Xor(s, xs[0]), h), h, xs[1..]);
    }
  }

  method PolyvalLoop(h: nat, xs: seq<nat>) returns (s: nat)
    ensures s == Polyval(Low(h, 128), xs)
    ensures Reduced(h) ==> s == Polyval(h, xs)
  {
    hide Dot, Xor, Low, Pow2;
    s := 0;
    for i := 0 to |xs|
      invariant PolyvalFrom(s, Low(h, 128), xs[i..]) == Polyval(Low(h, 128), xs)
    {
      assert xs[i..][1..] == xs[i + 1..];
      s := DotLoop(Xor(s, xs[i]), h);
    }
    if Reduced(h) { Small(h, 128); }
  }

  // ---- Bytes to field elements ----

  function Zeros(n: nat): (z: seq<byte>)
    ensures |z| == n
    ensures forall i :: 0 <= i < n ==> z[i] == 0
  {
    seq(n, _ => 0)
  }

  /** Padded with zeros to a multiple of 16 bytes. */
  function Pad16(s: seq<byte>): (p: seq<byte>)
    ensures |p| % 16 == 0 && |s| <= |p| < |s| + 16
    ensures p[..|s|] == s
  {
    PadCountFits(|s|);
    s + Zeros(PadCount(|s|))
  }

  function PadCount(n: nat): (k: nat)
    ensures k < 16
  {
    (16 - n % 16) % 16
  }

  lemma PadCountFits(n: nat)
    ensures (n + PadCount(n)) % 16 == 0
    ensures n >= 16 ==> PadCount(n - 16) == PadCount(n)
    ensures 0 < n < 16 ==> n + PadCount(n) == 16
    ensures PadCount(0) == 0
  {
    var q, r := n / 16, n % 16;
    assert n == 16 * q + r;
    if r > 0 { assert n + PadCount(n) == 16 * (q + 1); }
  }

  lemma PadNotYet(n: nat, k: nat)
    ensures k < PadCount(n) ==> (n + k) % 16 != 0
  {
    var q, r := n / 16, n % 16;
    assert n + k == 16 * q + (r + k);
  }

  /** A padded string as field elements, 16 bytes each. */
  function Elements(s: seq<byte>): seq<nat>
    requires |s| % 16 == 0
  {
    if s == [] then [] else [LeValue(s[..16])] + Elements(s[16..])
  }

  function Blocks(s: seq<byte>): seq<nat> {
    Elements(Pad16(s))
  }

  lemma BlocksStep(s: seq<byte>)
    requires s != []
    ensures var n := if |s| < 16 then |s| else 16;
            Blocks(s) == [LeValue(Pad16(s[..n]))] + Blocks(s[n..])
  {
    var n := if |s| < 16 then |s| else 16;
    hide PadCount, LeValue;
    PadCountFits(|s|);
    PadCountFits(n);
    PadCountFits(|s| - n);
    var p := Pad16(s);
    assert p[..16] == Pad16(s[..n]);
    assert p[16..] == Pad16(s[n..]);
  }

  method RightPadTo16(s: seq<byte>) returns (b: seq<byte>)
    ensures b == Pad16(s)
  {
    hide PadCount;
    PadCountFits(|s|);
    b := s;
    ghost var k := 0;
    while |b| % 16 != 0
      invariant 0 <= k <= PadCount(|s|)
      invariant b == s + Zeros(k)
      decreases PadCount(|s|) - k
    {
      b := b + [0];
      k := k + 1;
    }
    PadNotYet(|s|, k);
  }

  /** Little-endian bytes to an integer, most significant byte first. */
  method BytesToInt(s: seq<byte>) returns (res: nat)
    ensures res == LeValue(s)
  {
    hide Or, Shl;
    res := 0;
    var i := |s|;
    while i > 0
      invariant 0 <= i <= |s|
      invariant res == LeValue(s[i..])
    {
      i := i - 1;
      AppendByte(res, s[i]);
      assert s[i..][1..] == s[i + 1..];
      res := Or(Shl(res, 8), s[i]);
    }
  }

  lemma BlockReduced(s: seq<byte>)
    requires |s| == 16
    ensures Reduced(LeValue(s))
  {
    hide LeValue, Pow2;
    LeValueBound(s);
  }

  /** The digest: S_s xored with the nonce, top bit cleared (section 4 of RFC 8452). */
  function Digest(s: nat, nonce: seq<byte>): (d: seq<byte>)
    requires |nonce| >= 12
    ensures |d| == 16
  {
    var b := LeBytes(s, 16);
    seq(16, i requires 0 <= i < 16 =>
      if i < 12 then ByteXor(b[i], nonce[i])
      else if i < 15 then b[i]
      else b[i] % 128)
  }

  /** POLYVAL fed piecewise; each update pads its own last block. */
  // ---- What blocks and digest are as numbers ----

  /** Field elements as the digits of a number, least significant first. */
  function Base128(xs: seq<nat>): nat {
    if xs == [] then 0 else xs[0] + Pow2(128) * Base128(xs[1..])
  }

  lemma {:induction false} ElementsAreDigits(s: seq<byte>, n: nat)
    requires |s| == 16 * n
    ensures |Elements(s)| == n && Base128(Elements(s)) == LeValue(s)
    ensures forall x :: x in Elements(s) ==> Reduced(x)
    decreases n
  {
    hide LeValue, Reduced, Pow2;
    if n == 0 {
      LeZeros(s);
    } else {
      ElementsAreDigits(s[16..], n - 1);
      BlockReduced(s[..16]);
      LeConcat(s[..16], s[16..]);
      assert s == s[..16] + s[16..];
      assert Elements(s)[1..] == Elements(s[16..]);
    }
  }

  /** The blocks are the digits of the little-endian value to the base 2^128, one for every 16 bytes begun. */
  lemma BlocksAreDigits(s: seq<byte>)
    ensures |Blocks(s)| == (|s| + 15) / 16 && Base128(Blocks(s)) == LeValue(s)
    ensures forall x :: x in Blocks(s) ==> Reduced(x)
  {
    hide LeValue, Reduced, Elements, PadCount, Pow2, Base128;
    var p := Pad16(s);
    var n := |p| / 16;
    assert |p| == 16 * n;
    ElementsAreDigits(p, n);
    PadCountFits(|s|);
    LeConcat(s, Zeros(PadCount(|s|)));
    LeZeros(Zeros(PadCount(|s|)));
    DivUnique(|s| + 15, 16, n, |s| + 15 - 16 * n);
  }

  lemma {:induction false} LeBytesXor(a: nat, b: nat, n: nat, i: nat)
    requires i < n
    ensures LeBytes(Xor(a, b), n)[i] == ByteXor(LeBytes(a, n)[i], LeBytes(b, n)[i])
  {
    hide Xor;
    XorBytesParts(a, b);
    if i > 0 { LeBytesXor(a / 256, b / 256, n - 1, i - 1); }
  }

  lemma XorBytesParts(a: nat, b: nat)
    ensures Xor(a, b) / 256 == Xor(a / 256, b / 256) && Xor(a, b) % 256 == Xor(a % 256, b % 256)
  {
    hide Xor;
    Shift8(0);
    XorCut(a / 256, b / 256, a % 256, b % 256, 8, 256);
    XorByte(a % 256, b % 256);
    DivUnique(Xor(a, b), 256, Xor(a / 256, b / 256), Xor(a % 256, b % 256));
  }

  /** As a number, the digest is the sum xored with the nonce, modulo 2^127. */
  lemma DigestIs(s: nat, nonce: seq<byte>)
    requires Reduced(s) && |nonce| >= 12
    ensures LeValue(Digest(s, nonce)) == Xor(s, LeValue(nonce[..12])) % Pow2(127)
  {
    hide LeValue, LeBytes, Xor, Pow2;
    var n := nonce[..12] + [0, 0, 0, 0];
    var x := Xor(s, LeValue(nonce[..12]));
    LeConcat(nonce[..12], [0, 0, 0, 0]);
    LeZeros([0, 0, 0, 0]);
    LeBytesOfValue(n);
    var b := LeBytes(x, 16);
    forall i | 0 <= i < 16
      ensures b[i] == ByteXor(LeBytes(s, 16)[i], n[i])
    {
      LeBytesXor(s, LeValue(n), 16, i);
    }
    assert forall i :: 12 <= i < 16 ==> b[i] == LeBytes(s, 16)[i] by { ByteXorZero(); }
    assert Digest(s, nonce) == b[15 := b[15] % 128];
    LeValueBound(n);
    XorBound(s, LeValue(n), 128);
    LeValueOfBytes(x, 16);
    TopBitCleared(b);
  }

  lemma ByteXorZero()
    ensures forall b: byte :: ByteXor(b, 0) == b
  {
    hide Xor;
    forall b: byte
      ensures ByteXor(b, 0) == b
    {
      XorZero(b);
      XorComm(b, 0);
    }
  }

  lemma Pow2Top()
    ensures Pow2(127) == 128 * Pow2(120)
  {
    assert Pow2(122) == 4 * Pow2(120);
    assert Pow2(124) == 16 * Pow2(120);
    assert Pow2(126) == 64 * Pow2(120);
  }

  lemma TopBitCleared(b: seq<byte>)
    requires |b| == 16
    ensures LeValue(b[15 := b[15] % 128]) == LeValue(b) % Pow2(127)
  {
    hide LeValue, Pow2;
    Pow2Top();
    LeValueBound(b[..15]);
    var t: nat, p := b[15], Pow2(120);
    var q, low := t / 128, t % 128;
    LeAppend(b[..15], b[15]);
    LeAppend(b[..15], low);
    assert b == b[..15] + [b[15]] && b[15 := low] == b[..15] + [low];
    assert t == 128 * q + low;
    TopBit(LeValue(b[..15]), q, low, p);
  }

  lemma TopBit(r: nat, q: nat, low: nat, p: nat)
    requires r < p && low < 128
    ensures (r + (128 * q + low) * p) % (128 * p) == r + low * p
  {
    MulMono(low, 127, p);
    Distribute(128 * q, low, p);
    assert 128 * q * p == 128 * p * q;
    DivUnique(r + 128 * p * q + low * p, 128 * p, q, r + low * p);
  }

  lemma Distribute(a: nat, b: nat, p: nat)
    ensures (a + b) * p == a * p + b * p
  {
  }

  class PolyvalIuf {
    var s: nat
    const h: nat
    const nonce: seq<byte>

    ghost predicate Valid()
      reads this
    {
      Reduced(s)
    }

    constructor (key: seq<byte>, nonce: seq<byte>)
      ensures Valid() && s == 0 && h == LeValue(key) && this.nonce == nonce
    {
      s := 0;
      var k := BytesToInt(key);
      h := k;
      this.nonce := nonce;
      new;
      assert 0 < Pow2(128);
    }

    method Update16(block: seq<byte>)
      requires Valid() && |block| == 16
      modifies this
      ensures Valid() && s == Dot(Xor(old(s), LeValue(block)), Low(h, 128))
    {
      hide Dot, Xor, LeValue, Reduced, Low;
      var x := BytesToInt(block);
      s := DotLoop(Xor(s, x), h);
    }

    method Update(inp: seq<byte>)
      requires Valid()
      modifies this
      ensures Valid() && s == PolyvalFrom(old(s), Low(h, 128), Blocks(inp))
    {
      hide Dot, Xor, LeValue, Reduced, Pad16, Elements, Low;
      var i := 0;
      while i < |inp|
        invariant Valid()
        invariant 0 <= i <= |inp|
        invariant PolyvalFrom(s, Low(h, 128), Blocks(inp[i..])) == PolyvalFrom(old(s), Low(h, 128), Blocks(inp))
      {
        var n := if |inp| - i < 16 then |inp| - i else 16;
        BlocksStep(inp[i..]);
        assert inp[i..][..n] == inp[i..i + n] && inp[i..][n..] == inp[i + n..];
        var block := RightPadTo16(inp[i..i + n]);
        Update16(block);
        i := i + n;
      }
      BlocksOfNothing();
    }

    method GetDigest() returns (r: Result<seq<byte>>)
      requires Valid()
      ensures r == if |nonce| < 12 then Err("index out of range") else Ok(Digest(s, nonce))
    {
      hide Xor, LeBytes, Reduced;
      if |nonce| < 12 { return Err("index out of range"); }
      var b := LeBytes(s, 16);
      var d := b;
      for i := 0 to 12
        invariant |d| == 16
        invariant forall j :: 0 <= j < i ==> d[j] == ByteXor(b[j], nonce[j])
        invariant forall j :: i <= j < 16 ==> d[j] == b[j]
      {
        d := d[i := ByteXor(d[i], nonce[i])];
      }
      d := d[15 := d[15] % 128];
      assert d == Digest(s, nonce);
      r := Ok(d);
    }
  }

  lemma BlocksOfNothing()
    ensures Blocks([]) == []
  {
  }
}
