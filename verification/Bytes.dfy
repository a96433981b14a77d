/** Byte strings and their little- and big-endian values. */
module Bytes {
  import opened Bits

  type byte = b: nat | b < 256

  datatype Result<+T> = Ok(value: T) | Err(error: string)

  datatype Option<+T> = None | Some(value: T)

  /** Python's s[from:to], which clips to the string. */
  function Slice(s: seq<byte>, from: nat, to: nat): seq<byte>
    requires from <= to
  {
    if from >= |s| then [] else if to >= |s| then s[from..] else s[from..to]
  }

  /** Python's s[n:], which may be past the end. */
  function Rest(s: seq<byte>, n: nat): seq<byte> {
    if n < |s| then s[n..] else []
  }

  /** s[from:from + step], s[from + step:from + 2 * step], ... while the start is below `to`. */
  function Chunks(s: seq<byte>, from: nat, to: nat, step: nat): seq<seq<byte>>
    requires step > 0
    decreases if from < to then to - from else 0
  {
    if from >= to then [] else [Slice(s, from, from + step)] + Chunks(s, from + step, to, step)
  }

  /** Where each chunk is. */
  lemma {:induction false} ChunksAt(s: seq<byte>, from: nat, n: nat, step: nat, k: nat)
    requires step > 0 && k < n
    ensures |Chunks(s, from, from + step * n, step)| == n
    ensures var at := from + step * k;
            at >= 0 && Chunks(s, from, from + step * n, step)[k] == Slice(s, at, at + step)
    decreases n
  {
    hide Slice;
    assert step * n == step + step * (n - 1);
    var all := Chunks(s, from, from + step * n, step);
    assert all == [Slice(s, from, from + step)] + Chunks(s, from + step, from + step + step * (n - 1), step);
    if k > 0 {
      assert step * k == step + step * (k - 1);
      ChunksAt(s, from + step, n - 1, step, k - 1);
    } else if n > 1 {
      ChunksAt(s, from + step, n - 1, step, 0);
    } else {
      assert Chunks(s, from + step, from + step, step) == [];
    }
  }

  lemma ChunksStep(s: seq<byte>, from: nat, step: nat)
    requires step > 0
    ensures Chunks(s, from, |s|, step) ==
            if from >= |s| then [] else [Slice(s, from, from + step)] + Chunks(s, from + step, |s|, step)
  {
  }

  function Flatten(parts: seq<seq<byte>>): seq<byte> {
    if parts == [] then [] else parts[0] + Flatten(parts[1..])
  }

  /** Cutting up what was put together. */
  lemma {:induction false} ChunksOfFlat(s: seq<byte>, from: nat, parts: seq<seq<byte>>, step: nat)
    requires step > 0 && from <= |s| && s[from..] == Flatten(parts)
    requires forall i :: 0 <= i < |parts| ==> |parts[i]| == step
    ensures Chunks(s, from, |s|, step) == parts
    decreases |parts|
  {
    if parts != [] {
      FirstPart(s, from, parts[0], Flatten(parts[1..]));
      ChunksOfFlat(s, from + step, parts[1..], step);
      assert parts == [parts[0]] + parts[1..];
    }
  }

  lemma FirstPart(s: seq<byte>, from: nat, part: seq<byte>, rest: seq<byte>)
    requires from <= |s| && s[from..] == part + rest
    ensures from + |part| <= |s| && Slice(s, from, from + |part|) == part && s[from + |part|..] == rest
  {
    var whole, n := s[from..], |part|;
    assert |s| == from + |part| + |rest|;
    assert whole[..n] == part && whole[n..] == rest;
    assert s[from..from + n] == whole[..n] && s[from + n..] == whole[n..];
  }

  function LeValue(s: seq<byte>): nat {
    if s == [] then 0 else s[0] + 256 * LeValue(s[1..])
  }

  /** The low n bytes of v, least significant first. */
  function LeBytes(v: nat, n: nat): (s: seq<byte>)
    ensures |s| == n
  {
    if n == 0 then [] else [v % 256] + LeBytes(v / 256, n - 1)
  }

  function BeValue(s: seq<byte>): nat {
    if s == [] then 0 else 256 * BeValue(s[..|s| - 1]) + s[|s| - 1]
  }

  /** The low n bytes of v, most significant first. */
  function BeBytes(v: nat, n: nat): (s: seq<byte>)
    ensures |s| == n
  {
    if n == 0 then [] else BeBytes(v / 256, n - 1) + [v % 256]
  }

  lemma Pow2Byte(n: nat)
    ensures Pow2(n + 8) == 256 * Pow2(n)
  {
    assert Pow2(n + 2) == 4 * Pow2(n);
    assert Pow2(n + 4) == 16 * Pow2(n);
    assert Pow2(n + 6) == 64 * Pow2(n);
  }

  lemma LeValueStep(s: seq<byte>)
    ensures LeValue(s) == if s == [] then 0 else s[0] + 256 * LeValue(s[1..])
  {
  }

  lemma LeFour(t: seq<byte>)
    requires |t| == 4
    ensures LeValue(t) == t[0] as int + 0x100 * t[1] as int + 0x1_0000 * t[2] as int + 0x100_0000 * t[3] as int
  {
    hide LeValue;
    LeValueStep(t);
    LeValueStep(t[1..]);
    LeValueStep(t[2..]);
    LeValueStep(t[3..]);
    LeValueStep(t[4..]);
    assert t[1..][1..] == t[2..] && t[2..][1..] == t[3..] && t[3..][1..] == t[4..];
  }

  lemma {:induction false} LeZeros(s: seq<byte>)
    requires forall i :: 0 <= i < |s| ==> s[i] == 0
    ensures LeValue(s) == 0
  {
    if s != [] { LeZeros(s[1..]); }
  }

  lemma LeLowFirst(s: seq<byte>)
    requires s != [] && forall i :: 1 <= i < |s| ==> s[i] == 0
    ensures LeValue(s) == s[0]
  {
    LeZeros(s[1..]);
  }

  lemma {:induction false} LeValueBound(s: seq<byte>)
    ensures LeValue(s) < Pow2(8 * |s|)
  {
    if s != [] {
      hide Pow2;
      LeValueBound(s[1..]);
      Pow2Byte(8 * |s| - 8);
    }
  }

  lemma {:induction false} LeBytesOfValue(s: seq<byte>)
    ensures LeBytes(LeValue(s), |s|) == s
  {
    if s != [] {
      var v := LeValue(s[1..]);
      LeBytesOfValue(s[1..]);
      DivUnique(s[0] + 256 * v, 256, v, s[0]);
      assert LeBytes(LeValue(s), |s|) == [s[0]] + LeBytes(v, |s| - 1);
      assert s == [s[0]] + s[1..];
    }
  }

  lemma {:induction false} LeValueOfBytes(v: nat, n: nat)
    requires v < Pow2(8 * n)
    ensures LeValue(LeBytes(v, n)) == v
  {
    if n > 0 {
      hide Pow2;
      Pow2Byte(8 * n - 8);
      LeValueOfBytes(v / 256, n - 1);
      assert LeBytes(v, n)[1..] == LeBytes(v / 256, n - 1);
    }
  }

  lemma Times256(v: nat, p: nat, q: nat)
    requires q == 256 * p
    ensures v * q == 256 * (v * p)
  {
  }

  lemma {:induction false} LeAppend(s: seq<byte>, b: byte)
    ensures LeValue(s + [b]) == LeValue(s) + b * Pow2(8 * |s|)
  {
    if s == [] {
      assert s + [b] == [b] && [b][1..] == [];
    } else {
      hide Pow2, LeValue;
      var p: nat, q: nat, v: nat := Pow2(8 * |s| - 8), Pow2(8 * |s|), b;
      LeAppend(s[1..], b);
      Pow2Byte(8 * |s| - 8);
      assert (s + [b])[1..] == s[1..] + [b];
      LeValueStep(s);
      LeValueStep(s + [b]);
      Times256(v, p, q);
    }
  }

  lemma Horner(x: nat, l: nat, p: nat, q: nat, v: nat)
    requires q == 256 * p
    ensures x + 256 * (l + p * v) == x + 256 * l + q * v
  {
    assert q * v == 256 * (p * v);
  }

  lemma {:induction false} LeConcat(a: seq<byte>, b: seq<byte>)
    ensures LeValue(a + b) == LeValue(a) + Pow2(8 * |a|) * LeValue(b)
  {
    if a == [] {
      assert a + b == b;
    } else {
      hide Pow2, LeValue;
      LeConcat(a[1..], b);
      Pow2Byte(8 * |a| - 8);
      assert (a + b)[1..] == a[1..] + b && (a + b)[0] == a[0];
      LeValueStep(a);
      LeValueStep(a + b);
      Horner(a[0], LeValue(a[1..]), Pow2(8 * |a| - 8), Pow2(8 * |a|), LeValue(b));
    }
  }

  lemma {:induction false} BeValueBound(s: seq<byte>)
    ensures BeValue(s) < Pow2(8 * |s|)
  {
    if s != [] {
      hide Pow2;
      BeValueBound(s[..|s| - 1]);
      Pow2Byte(8 * |s| - 8);
    }
  }

  lemma {:induction false} BeBytesOfValue(s: seq<byte>)
    ensures BeBytes(BeValue(s), |s|) == s
  {
    if s != [] {
      var n := |s| - 1;
      var v := BeValue(s[..n]);
      BeBytesOfValue(s[..n]);
      DivUnique(256 * v + s[n], 256, v, s[n]);
      assert BeBytes(BeValue(s), |s|) == BeBytes(v, n) + [s[n]];
      assert s == s[..n] + [s[n]];
    }
  }

  lemma {:induction false} BeValueOfBytes(v: nat, n: nat)
    requires v < Pow2(8 * n)
    ensures BeValue(BeBytes(v, n)) == v
  {
    if n > 0 {
      hide Pow2;
      Pow2Byte(8 * n - 8);
      BeValueOfBytes(v / 256, n - 1);
      assert BeBytes(v, n)[..n - 1] == BeBytes(v / 256, n - 1);
    }
  }

  lemma Shift8(a: nat)
    ensures Shl(a, 8) == 256 * a && Shr(a, 8) == a / 256 && Low(a, 8) == a % 256
    ensures Pow2(8) == 256
  {
    hide Shl, Shr, Low;
    Pow2Byte(0);
    Split(a, 8);
    ShlMul(a, 8);
    ShlMul(Shr(a, 8), 8);
  }

  lemma SmallPowers()
    ensures Pow2(1) == 2 && Pow2(5) == 32
    ensures Pow2(13) == 0x2000 && Pow2(15) == 0x8000 && Pow2(17) == 0x2_0000 && Pow2(19) == 0x8_0000
  {
    assert Pow2(3) == 8;
    Shift8(0);
    assert Pow2(10) == 0x400;
    assert Pow2(12) == 0x1000;
    assert Pow2(14) == 0x4000;
    assert Pow2(16) == 0x1_0000;
    assert Pow2(18) == 0x4_0000;
  }

  /** `(a << 8) | b` */
  lemma AppendByte(a: nat, b: byte)
    ensures Or(Shl(a, 8), b) == 256 * a + b
  {
    hide Or, Shl, Shr, Low, Pow2;
    Shift8(a);
    OrDisjoint(a, b, 8);
  }

  lemma XorByte(a: byte, b: byte)
    ensures Xor(a, b) < 256
  {
    hide Xor, Shl, Shr, Low, Pow2;
    Shift8(0);
    XorBound(a, b, 8);
  }

  function ByteXor(a: byte, b: byte): byte {
    XorByte(a, b);
    Xor(a, b)
  }

  /** Bytes read so far before those of the rest, if the rest succeeds. */
  function Prepend(a: seq<byte>, r: Result<seq<byte>>): Result<seq<byte>> {
    match r
    case Err(e) => Err(e)
    case Ok(b) => Ok(a + b)
  }

  lemma PrependNothing(r: Result<seq<byte>>)
    ensures Prepend([], r) == r
  {
    if r.Ok? { assert [] + r.value == r.value; }
  }

  lemma PrependTwice(a: seq<byte>, b: seq<byte>, r: Result<seq<byte>>)
    ensures Prepend(a, Prepend(b, r)) == Prepend(a + b, r)
  {
    if r.Ok? { assert a + (b + r.value) == a + b + r.value; }
  }
}
