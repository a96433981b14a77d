/** Gateware images: the 32-bit bit reversal, the search for IV and ciphertext, and re-encryption. */
module Bitstream {
  import opened Bits
  import opened Bytes
  import opened Words

  // ---- Bit reversal ----

  type bit = b: nat | b < 2

  /** x in n binary digits, most significant first. */
  function ToBinary(x: nat, n: nat): (s: seq<bit>)
    ensures |s| == n
  {
    if n == 0 then [] else ToBinary(x / 2, n - 1) + [x % 2]
  }

  function FromBinary(s: seq<bit>): nat {
    if s == [] then 0 else 2 * FromBinary(s[..|s| - 1]) + s[|s| - 1]
  }

  function Backwards(s: seq<bit>): (r: seq<bit>)
    ensures |r| == |s|
    ensures forall i :: 0 <= i < |s| ==> r[i] == s[|s| - 1 - i]
  {
    if s == [] then [] else [s[|s| - 1]] + Backwards(s[..|s| - 1])
  }

  lemma {:induction false} BinaryBound(s: seq<bit>)
    ensures FromBinary(s) < Pow2(|s|)
  {
    if s != [] { BinaryBound(s[..|s| - 1]); }
  }

  lemma {:induction false} BinaryOfValue(s: seq<bit>)
    ensures ToBinary(FromBinary(s), |s|) == s
  {
    if s != [] { BinaryOfValue(s[..|s| - 1]); }
  }

  lemma {:induction false} ValueOfBinary(x: nat, n: nat)
    requires x < Pow2(n)
    ensures FromBinary(ToBinary(x, n)) == x
  {
    if n > 0 {
      ValueOfBinary(x / 2, n - 1);
      assert ToBinary(x, n)[..n - 1] == ToBinary(x / 2, n - 1);
    }
  }

  function FlipWord(x: nat): word {
    BinaryBound(Backwards(ToBinary(x, 32)));
    Pow2Word();
    FromBinary(Backwards(ToBinary(x, 32)))
  }

  lemma FlipWordTwice(x: word)
    ensures FlipWord(FlipWord(x)) == x
  {
    hide ToBinary, FromBinary, Backwards, Pow2;
    Pow2Word();
    var s := ToBinary(x, 32);
    BinaryOfValue(Backwards(s));
    assert Backwards(Backwards(s)) == s;
    ValueOfBinary(x, 32);
  }

  lemma {:induction false} BinaryDigit(x: nat, n: nat, k: nat)
    requires k < n
    ensures ToBinary(x, n)[k] == Shr(x, n - 1 - k) % 2
  {
    if k < n - 1 { BinaryDigit(x / 2, n - 1, k); }
  }

  /** Bit i of the reversed word is bit 31 - i of the word. */
  lemma FlipBit(x: nat, i: nat)
    requires i < 32
    ensures Shr(FlipWord(x), i) % 2 == Shr(x, 31 - i) % 2
  {
    hide ToBinary, FromBinary, Backwards, Shr;
    var s := Backwards(ToBinary(x, 32));
    BinaryOfValue(s);
    BinaryDigit(FlipWord(x), 32, 31 - i);
    BinaryDigit(x, 32, i);
  }

  /** One word, or the last part of one, reversed. */
  function FlipGroup(w: seq<byte>): (f: seq<byte>)
    ensures |f| == 4
  {
    BeBytes(FlipWord(BeValue(w)), 4)
  }

  lemma FlipGroupTwice(w: seq<byte>)
    requires |w| == 4
    ensures FlipGroup(FlipGroup(w)) == w
  {
    hide FlipWord, BeBytes, BeValue;
    WordValue(w);
    FlipWordTwice(BeValue(w));
    WordBytes(FlipWord(BeValue(w)));
    BeBytesOfValue(w);
  }

  /** The first bit of the first byte is the last of the last, and the other way round. */
  lemma FlipEnds(w: seq<byte>)
    requires |w| == 4
    ensures FlipGroup(w)[0] >= 128 <==> w[3] % 2 == 1
    ensures FlipGroup(w)[3] % 2 == 1 <==> w[0] >= 128
  {
    hide FlipWord, BeValue, BeBytes, Shr, Pow2;
    var v := BeValue(w);
    var f := FlipWord(v);
    WordValue(w);
    Pow2Word();
    assert Pow2(31) == 0x8000_0000 by { assert Pow2(32) == 2 * Pow2(31) by { Pow2Half(31); } }
    FlipBit(v, 31);
    FlipBit(v, 0);
    ShrDiv(f, 31, 0x8000_0000);
    ShrDiv(v, 31, 0x8000_0000);
    assert Shr(f, 0) == f && Shr(v, 0) == v by { ShrNone(f); ShrNone(v); }
    WordOctets(f);
    WordOctets(v);
    BeBytesOfValue(w);
    EndBits(f);
    EndBits(v);
  }

  lemma Pow2Half(n: nat)
    ensures Pow2(n + 1) == 2 * Pow2(n)
  {
  }

  lemma ShrNone(x: nat)
    ensures Shr(x, 0) == x
  {
  }

  lemma EndBits(x: word)
    ensures x / 0x100_0000 % 256 >= 128 <==> x / 0x8000_0000 % 2 == 1
    ensures x % 256 % 2 == x % 2
  {
    var top, rest: nat := x / 0x100_0000, x % 0x100_0000;
    TopBitOf(x, top / 128, top % 128, rest);
    LowBitOf(x, x / 256, x % 256);
  }

  lemma TopBitOf(x: word, q: nat, m: nat, rest: nat)
    requires x == (128 * q + m) * 0x100_0000 + rest && m < 128 && rest < 0x100_0000
    ensures x / 0x8000_0000 == q
  {
    DivUnique(x, 0x8000_0000, q, m * 0x100_0000 + rest);
  }

  lemma LowBitOf(x: nat, q: nat, r: nat)
    requires x == 256 * q + r
    ensures x % 2 == r % 2
  {
    DivUnique(x, 2, 128 * q + r / 2, r % 2);
  }

  /** Word by word; a last part of a word grows to a whole one. */
  function Bitflip(d: seq<byte>): seq<byte> {
    if d == [] then [] else
    var n := if |d| < 4 then |d| else 4;
    FlipGroup(d[..n]) + Bitflip(d[n..])
  }

  lemma {:induction false} BitflipLength(d: seq<byte>)
    ensures |Bitflip(d)| == (|d| + 3) / 4 * 4
  {
    hide FlipGroup;
    if |d| >= 4 { BitflipLength(d[4..]); }
  }

  lemma BitflipStep(w: seq<byte>, rest: seq<byte>)
    requires |w| == 4
    ensures Bitflip(w + rest) == FlipGroup(w) + Bitflip(rest)
  {
    hide FlipGroup;
    assert (w + rest)[..4] == w && (w + rest)[4..] == rest;
  }

  lemma BitflipConcat(a: seq<byte>, b: seq<byte>)
    requires |a| % 4 == 0
    ensures Bitflip(a + b) == Bitflip(a) + Bitflip(b)
  {
    hide Bitflip;
    WordsConcat(a, b, |a| / 4);
  }

  lemma {:induction false} WordsConcat(a: seq<byte>, b: seq<byte>, k: nat)
    requires |a| == 4 * k
    ensures Bitflip(a + b) == Bitflip(a) + Bitflip(b)
    decreases k
  {
    hide FlipGroup, Bitflip;
    if k == 0 {
      BitflipNothing();
      assert a == [] && a + b == b && [] + Bitflip(b) == Bitflip(b);
    } else {
      var w, rest := a[..4], a[4..];
      WordsConcat(rest, b, k - 1);
      assert a == w + rest && a + b == w + (rest + b);
      BitflipStep(w, rest);
      BitflipStep(w, rest + b);
    }
  }

  /** On whole words the reversal undoes itself, and only there. */
  lemma BitflipInvolution(d: seq<byte>)
    ensures Bitflip(Bitflip(d)) == d <==> |d| % 4 == 0
  {
    hide Bitflip;
    if |d| % 4 == 0 {
      WordsTwice(d, |d| / 4);
    } else {
      BitflipLength(Bitflip(d));
    }
  }

  lemma {:induction false} WordsTwice(d: seq<byte>, k: nat)
    requires |d| == 4 * k
    ensures Bitflip(Bitflip(d)) == d
    decreases k
  {
    hide FlipGroup, Bitflip;
    if k == 0 {
      BitflipNothing();
    } else {
      var w, rest := d[..4], d[4..];
      WordsTwice(rest, k - 1);
      assert d == w + rest;
      BitflipStep(w, rest);
      BitflipStep(FlipGroup(w), Bitflip(rest));
      FlipGroupTwice(w);
    }
  }

  lemma WordValue(w: seq<byte>)
    requires |w| == 4
    ensures BeValue(w) < WORD
  {
    Pow2Word();
    BeValueBound(w);
  }

  lemma WordBytes(x: word)
    ensures BeValue(BeBytes(x, 4)) == x
  {
    hide BeValue, BeBytes, Pow2;
    Pow2Word();
    BeValueOfBytes(x, 4);
  }

  lemma BitflipRest(d: seq<byte>, i: nat)
    ensures Rest(d, 0) == d
    ensures Bitflip(Rest(d, i)) ==
            if i >= |d| then [] else FlipGroup(Slice(d, i, i + 4)) + Bitflip(Rest(d, i + 4))
  {
    hide FlipGroup;
    if i < |d| {
      var r := d[i..];
      if |r| > 4 {
        assert r[..4] == d[i..i + 4] && r[4..] == d[i + 4..];
      } else {
        assert r[..|r|] == r && r[|r|..] == [];
      }
    }
  }

  method BitflipLoop(d: seq<byte>) returns (f: seq<byte>)
    ensures f == Bitflip(d)
  {
    hide FlipGroup, Bitflip;
    f := [];
    var i := 0;
    BitflipRest(d, 0);
    assert [] + Bitflip(d) == Bitflip(d);
    while i < |d|
      invariant 0 <= i
      invariant f + Bitflip(Rest(d, i)) == Bitflip(d)
      decreases |d| - i
    {
      BitflipRest(d, i);
      var w := FlipGroup(Slice(d, i, i + 4));
      assert f + (w + Bitflip(Rest(d, i + 4))) == f + w + Bitflip(Rest(d, i + 4));
      f := f + w;
      i := i + 4;
    }
    BitflipRest(d, i);
    assert f + [] == f;
  }

  // ---- Finding IV and ciphertext ----

  const IV_MARK := 0x3001_6004
  const CT_MARK := 0x3003_4001
  const IV_MARK_BYTES: seq<byte> := [0x30, 0x01, 0x60, 0x04]
  const CT_MARK_BYTES: seq<byte> := [0x30, 0x03, 0x40, 0x01]

  function WordAt(f: seq<byte>, p: nat): nat {
    BeValue(Slice(f, p, p + 4))
  }

  /** First place at or after p with the ciphertext marker, the end if there is none. */
  function FirstCt(f: seq<byte>, p: nat): (q: nat)
    requires p <= |f|
    ensures p <= q <= |f|
    decreases |f| - p
  {
    if p == |f| || WordAt(f, p) == CT_MARK then p else FirstCt(f, p + 1)
  }

  /** Just past the last IV marker below n, 0 if there is none. */
  function IvPos(f: seq<byte>, n: nat): nat {
    if n == 0 then 0 else if WordAt(f, n - 1) == IV_MARK then n + 3 else IvPos(f, n - 1)
  }

  datatype Parsed = Parsed(iv: seq<byte>, active: seq<byte>, postamble: seq<byte>)

  function Parse(f: seq<byte>): Parsed {
    var at := FirstCt(f, 0);
    var len := 4 * WordAt(f, at + 4);
    Parsed(Bitflip(Slice(f, IvPos(f, at), IvPos(f, at) + 16)),
           Slice(f, at + 8, at + 8 + len),
           Slice(f, at + 8 + len, at + 8 + len + |f|))
  }

  method Search(f: seq<byte>) returns (position: nat, ivPos: nat)
    ensures position == FirstCt(f, 0) && ivPos == IvPos(f, position)
  {
    hide WordAt;
    position, ivPos := 0, 0;
    while position < |f|
      invariant position <= |f|
      invariant FirstCt(f, 0) == FirstCt(f, position)
      invariant ivPos == IvPos(f, position)
    {
      var cwd := WordAt(f, position);
      if cwd == IV_MARK {
        ivPos := position + 4;
      }
      if cwd == CT_MARK {
        break;
      }
      position := position + 1;
    }
  }

  // ---- Writing an image ----

  /** Everything before the ciphertext length: header, IV, marker. */
  function Prefix(header: seq<byte>, iv: seq<byte>): seq<byte> {
    header + Bitflip(iv) + CT_MARK_BYTES
  }

  function Written(header: seq<byte>, iv: seq<byte>, words: word, active: seq<byte>, postamble: seq<byte>): seq<byte> {
    Prefix(header, iv) + BeBytes(words, 4) + active + postamble
  }

  /** The markers occur where they were written and at no later place that would be taken for them. */
  ghost predicate Unambiguous(header: seq<byte>, iv: seq<byte>) {
    && (forall q :: 0 <= q < |header| + 16 ==> WordAt(Prefix(header, iv), q) != CT_MARK)
    && (forall q: nat :: |header| - 4 < q < |header| + 16 ==> WordAt(Prefix(header, iv), q) != IV_MARK)
  }

  ghost predicate IsHeader(header: seq<byte>) {
    |header| >= 4 && header[|header| - 4..] == IV_MARK_BYTES
  }

  lemma {:induction false} FirstCtFrom(f: seq<byte>, p: nat, n: nat)
    requires p <= n < |f| && WordAt(f, n) == CT_MARK
    ensures FirstCt(f, p) == n <==> forall q :: p <= q < n ==> WordAt(f, q) != CT_MARK
    decreases n - p
  {
    hide WordAt;
    if p < n { FirstCtFrom(f, p + 1, n); }
  }

  lemma {:induction false} IvPosAt(f: seq<byte>, m: nat, n: nat)
    requires m < n && WordAt(f, m) == IV_MARK
    ensures IvPos(f, n) == m + 4 <==> forall q :: m < q < n ==> WordAt(f, q) != IV_MARK
    ensures IvPos(f, n) >= m + 4
    decreases n
  {
    hide WordAt;
    if m < n - 1 { IvPosAt(f, m, n - 1); }
  }

  lemma MarkValues()
    ensures BeValue(IV_MARK_BYTES) == IV_MARK && BeValue(CT_MARK_BYTES) == CT_MARK
  {
    FourBytes(IV_MARK_BYTES);
    FourBytes(CT_MARK_BYTES);
  }

  lemma FourBytes(b: seq<byte>)
    requires |b| == 4
    ensures BeValue(b) == b[0] as int * 0x100_0000 + b[1] as int * 0x1_0000 + b[2] as int * 0x100 + b[3] as int
  {
    assert b[..3][..2] == b[..2] && b[..2][..1] == b[..1];
    assert BeValue(b[..1]) == b[0];
    assert BeValue(b[..2]) == 256 * (b[0] as int) + b[1] as int;
    assert BeValue(b[..3]) == 256 * BeValue(b[..2]) + b[2] as int;
  }

  /** Words within the prefix are those of the whole image. */
  lemma WordInPrefix(pre: seq<byte>, rest: seq<byte>, q: nat)
    requires q + 4 <= |pre|
    ensures WordAt(pre + rest, q) == WordAt(pre, q)
  {
    assert Slice(pre + rest, q, q + 4) == Slice(pre, q, q + 4);
  }

  /** The search stops where the writer put things if and only if the header and IV hold no stray marker. */
  lemma SearchFindsIff(header: seq<byte>, iv: seq<byte>, rest: seq<byte>)
    requires IsHeader(header) && |iv| == 16
    ensures var f, n := Prefix(header, iv) + rest, |header| + 16;
            FirstCt(f, 0) == n && IvPos(f, n) == |header| <==> Unambiguous(header, iv)
  {
    var pre, n, h := Prefix(header, iv), |header| + 16, |header| - 4;
    var f := pre + rest;
    hide BeValue, Bitflip;
    BitflipLength(iv);
    MarkValues();
    assert Slice(pre, n, n + 4) == CT_MARK_BYTES;
    assert Slice(pre, h, h + 4) == header[h..] == IV_MARK_BYTES;
    forall q: nat | q <= n
      ensures WordAt(f, q) == WordAt(pre, q)
    {
      WordInPrefix(pre, rest, q);
    }
    hide WordAt, FirstCt, IvPos;
    FirstCtFrom(f, 0, n);
    IvPosAt(f, h, n);
  }

  // ---- The header of the device ----

  const ROW0: seq<byte> := [0xff, 0xff, 0xff, 0xff, 0xff, 0xff, 0xff, 0xff]
  const ROW1: seq<byte> := [0xaa, 0x99, 0x55, 0x66, 0x20, 0, 0, 0, 0x30, 0x03, 0xe0, 0x01, 0, 0, 0, 0x0b]
  const ROW2: seq<byte> := [0x30, 0, 0x80, 0x01, 0, 0, 0, 0x12, 0x20, 0, 0, 0, 0x30, 0, 0xc0, 0x01]
  const ROW3: seq<byte> := [0x80, 0, 0, 0x40, 0x30, 0, 0xa0, 0x01, 0x80, 0, 0, 0x40, 0x30, 0x01, 0xc0, 0x01]
  const ROW4: seq<byte> := [0, 0, 0, 0, 0x20, 0, 0, 0, 0x20, 0, 0, 0, 0x20, 0, 0, 0]
  const ROW5: seq<byte> := [0x20, 0, 0, 0, 0x20, 0, 0, 0, 0x20, 0, 0, 0, 0x20, 0, 0, 0]
  const ROW7: seq<byte> := [0x20, 0, 0, 0, 0x20, 0, 0, 0, 0x20, 0, 0, 0, 0x30, 0x01, 0x60, 0x04]

  /** The header written for the device. */
  const DEVICE_HEADER: seq<byte> := ROW0 + ROW1 + ROW2 + ROW3 + ROW4 + ROW5 + ROW5 + ROW7

  lemma HeaderRows(q: nat)
    requires q < 120
    ensures DEVICE_HEADER[q] ==
            if q < 8 then ROW0[q] else if q < 24 then ROW1[q - 8] else if q < 40 then ROW2[q - 24]
            else if q < 56 then ROW3[q - 40] else if q < 72 then ROW4[q - 56] else if q < 88 then ROW5[q - 72]
            else if q < 104 then ROW5[q - 88] else ROW7[q - 104]
  {
  }

  lemma RowStarts()
    ensures forall i :: 0 <= i < 8 ==> ROW0[i] != 0x30
    ensures forall i :: 0 <= i < 16 && ROW1[i] == 0x30 ==> i == 8
    ensures forall i :: 0 <= i < 16 && ROW2[i] == 0x30 ==> i == 0 || i == 12
    ensures forall i :: 0 <= i < 16 && ROW3[i] == 0x30 ==> i == 4 || i == 12
    ensures forall i :: 0 <= i < 16 ==> ROW4[i] != 0x30 && ROW5[i] != 0x30
    ensures forall i :: 0 <= i < 16 && ROW7[i] == 0x30 ==> i == 12
  {
  }

  /** Where the first byte of either marker occurs. */
  lemma HeaderStarts(q: nat)
    requires q < 120
    ensures DEVICE_HEADER[q] == 0x30 ==> q in {16, 24, 36, 44, 52, 116}
  {
    HeaderRows(q);
    RowStarts();
    hide *;
  }

  lemma HeaderFacts()
    ensures |DEVICE_HEADER| == 120 && IsHeader(DEVICE_HEADER)
    ensures DEVICE_HEADER[18] == 0xe0 && DEVICE_HEADER[26] == 0x80 && DEVICE_HEADER[38] == 0xc0
    ensures DEVICE_HEADER[46] == 0xa0 && DEVICE_HEADER[54] == 0xc0
  {
    assert DEVICE_HEADER[18] == ROW1[10] && DEVICE_HEADER[26] == ROW2[2] && DEVICE_HEADER[38] == ROW2[14];
    assert DEVICE_HEADER[46] == ROW3[6] && DEVICE_HEADER[54] == ROW3[14];
    assert DEVICE_HEADER[116..] == IV_MARK_BYTES;
  }

  lemma MarkAt(f: seq<byte>, q: nat)
    requires q + 4 <= |f|
    ensures WordAt(f, q) == CT_MARK <==> f[q..q + 4] == CT_MARK_BYTES
    ensures WordAt(f, q) == IV_MARK <==> f[q..q + 4] == IV_MARK_BYTES
  {
    hide BeValue;
    MarkValues();
    assert Slice(f, q, q + 4) == f[q..q + 4];
    BeBytesOfValue(f[q..q + 4]);
    BeBytesOfValue(CT_MARK_BYTES);
    BeBytesOfValue(IV_MARK_BYTES);
  }

  /** Neither marker occurs at k. */
  predicate Free(s: seq<byte>, k: nat)
    requires k + 4 <= |s|
  {
    s[k..k + 4] != CT_MARK_BYTES && s[k..k + 4] != IV_MARK_BYTES
  }

  /** The markers start with 0x30, which does not recur in them, and have 0x40 or 0x60 third. */
  lemma FreeIf(s: seq<byte>, k: nat)
    requires k + 4 <= |s|
    ensures s[k] != 0x30 || s[k + 1] == 0x30 || s[k + 2] !in {0x40, 0x60} || s[k + 3] == 0x30 ==> Free(s, k)
  {
    var w := s[k..k + 4];
    assert w[0] == s[k] && w[1] == s[k + 1] && w[2] == s[k + 2] && w[3] == s[k + 3];
  }

  lemma HeaderIsFree(iv: seq<byte>, q: nat)
    requires |Bitflip(iv)| == 16 && q < 120 && q != 116
    ensures |Prefix(DEVICE_HEADER, iv)| == 140 && Free(Prefix(DEVICE_HEADER, iv), q)
  {
    HeaderFacts();
    hide Bitflip, Free, IsHeader;
    var f := Prefix(DEVICE_HEADER, iv);
    assert forall i :: 0 <= i < 120 ==> f[i] == DEVICE_HEADER[i];
    HeaderStarts(q);
    FreeIf(f, q);
  }

  lemma IvPart(iv: seq<byte>, k: nat)
    requires |Bitflip(iv)| == 16 && k < 16
    ensures |Prefix(DEVICE_HEADER, iv)| == 140
    ensures Free(Prefix(DEVICE_HEADER, iv), 120 + k) <==> k > 12 || Free(Bitflip(iv), k)
  {
    HeaderFacts();
    hide Bitflip, IsHeader;
    var f, b := Prefix(DEVICE_HEADER, iv), Bitflip(iv);
    assert forall i :: 0 <= i < 16 ==> f[120 + i] == b[i];
    assert forall i :: 0 <= i < 4 ==> f[136 + i] == CT_MARK_BYTES[i];
    if k <= 12 {
      assert f[120 + k..124 + k] == b[k..k + 4];
    } else {
      FreeIf(f, 120 + k);
    }
  }

  /** With the device's header, only an IV that holds a marker can mislead the search. */
  lemma DeviceUnambiguousIff(iv: seq<byte>)
    requires |iv| == 16
    ensures |Bitflip(iv)| == 16
    ensures Unambiguous(DEVICE_HEADER, iv) <==> forall k :: 0 <= k <= 12 ==> Free(Bitflip(iv), k)
  {
    hide Bitflip, WordAt, Free, Prefix;
    BitflipLength(iv);
    HeaderFacts();
    var f, b := Prefix(DEVICE_HEADER, iv), Bitflip(iv);
    HeaderIsFree(iv, 0);
    forall q: nat | q < 136
      ensures WordAt(f, q) == CT_MARK || (WordAt(f, q) == IV_MARK && q != 116) ==> q >= 120 && !Free(f, q)
      ensures q >= 120 && !Free(f, q) ==> WordAt(f, q) == CT_MARK || WordAt(f, q) == IV_MARK
      ensures q >= 120 ==> (Free(f, q) <==> q > 132 || Free(b, q - 120))
    {
      MarkedIffNotFree(f, q);
      if q < 120 {
        if q != 116 { HeaderIsFree(iv, q); } else { AtTheMarker(iv); }
      } else {
        IvPart(iv, q - 120);
      }
    }
    if Unambiguous(DEVICE_HEADER, iv) {
      forall k | 0 <= k <= 12
        ensures Free(b, k)
      {
        assert WordAt(f, 120 + k) != CT_MARK;
      }
    }
  }

  /** An IV that holds the ciphertext marker, in an image for the device: the search stops within the IV. */
  lemma SearchCanStray(rest: seq<byte>)
    ensures var iv := Bitflip(CT_MARK_BYTES + seq(12, _ => 0));
            && |iv| == 16 && !Unambiguous(DEVICE_HEADER, iv)
            && FirstCt(Prefix(DEVICE_HEADER, iv) + rest, 0) == |DEVICE_HEADER|
  {
    hide Bitflip, BeValue, WordAt, FirstCt, Free;
    var stray := CT_MARK_BYTES + seq(12, _ => 0);
    var iv := Bitflip(stray);
    BitflipLength(stray);
    BitflipInvolution(stray);
    HeaderFacts();
    assert Bitflip(iv)[0..4] == CT_MARK_BYTES;
    assert !Free(Bitflip(iv), 0) by { MarkedThere(Bitflip(iv)); }
    DeviceUnambiguousIff(iv);
    StopsInIv(iv, rest);
  }

  lemma MarkedThere(b: seq<byte>)
    requires |b| >= 4 && b[0..4] == CT_MARK_BYTES
    ensures !Free(b, 0)
  {
  }

  lemma StopsInIv(iv: seq<byte>, rest: seq<byte>)
    requires |Bitflip(iv)| == 16 && Bitflip(iv)[0..4] == CT_MARK_BYTES
    ensures FirstCt(Prefix(DEVICE_HEADER, iv) + rest, 0) == 120
  {
    HeaderFacts();
    hide Bitflip, WordAt, FirstCt, Free, IsHeader;
    var pre := Prefix(DEVICE_HEADER, iv);
    var f := pre + rest;
    assert pre[120..124] == Bitflip(iv)[0..4];
    MarkAt(pre, 120);
    WordInPrefix(pre, rest, 120);
    forall q | 0 <= q < 120
      ensures WordAt(f, q) != CT_MARK
    {
      WordInPrefix(pre, rest, q);
      MarkedIffNotFree(pre, q);
      if q != 116 { HeaderIsFree(iv, q); } else { AtTheMarker(iv); }
    }
    FirstCtFrom(f, 0, 120);
  }

  lemma MarkedIffNotFree(f: seq<byte>, q: nat)
    requires q + 4 <= |f|
    ensures !Free(f, q) <==> WordAt(f, q) == CT_MARK || WordAt(f, q) == IV_MARK
  {
    hide WordAt;
    MarkAt(f, q);
  }

  lemma AtTheMarker(iv: seq<byte>)
    requires |Bitflip(iv)| == 16
    ensures WordAt(Prefix(DEVICE_HEADER, iv), 116) == IV_MARK
  {
    HeaderFacts();
    hide Bitflip, WordAt;
    var f := Prefix(DEVICE_HEADER, iv);
    assert f[116..120] == DEVICE_HEADER[116..];
    MarkAt(f, 116);
  }

  /** Reading back an image whose length word is right recovers IV, ciphertext and postamble. */
  lemma ParseWritten(header: seq<byte>, iv: seq<byte>, words: word, active: seq<byte>, postamble: seq<byte>)
    requires IsHeader(header) && |iv| == 16 && Unambiguous(header, iv) && |active| == 4 * words
    ensures Parse(Written(header, iv, words, active, postamble)) == Parsed(iv, active, postamble)
  {
    hide FirstCt, IvPos, Bitflip, BeBytes, BeValue, Unambiguous, IsHeader;
    var pre, n := Prefix(header, iv), |header| + 16;
    var rest := BeBytes(words, 4) + active + postamble;
    var f := Written(header, iv, words, active, postamble);
    assert f == pre + rest;
    BitflipLength(iv);
    SearchFindsIff(header, iv, rest);
    WordBytes(words);
    assert Slice(f, n + 4, n + 8) == BeBytes(words, 4);
    assert Slice(f, n + 8, n + 8 + |active|) == active;
    assert Slice(f, n + 8 + |active|, n + 8 + |active| + |f|) == postamble;
    assert Slice(f, |header|, |header| + 16) == Bitflip(iv);
    BitflipInvolution(iv);
  }

  // ---- Re-encryption ----

  /** CBC under a key and an IV, and SHA-256. */
  datatype Crypto = Crypto(enc: (seq<byte>, seq<byte>, seq<byte>) -> seq<byte>,
                           dec: (seq<byte>, seq<byte>, seq<byte>) -> seq<byte>,
                           sha: seq<byte> -> seq<byte>)

  ghost predicate Sound(c: Crypto) {
    && (forall k, iv, p :: |p| % 16 == 0 ==> |c.enc(k, iv, p)| == |p| && c.dec(k, iv, c.enc(k, iv, p)) == p)
    && (forall k, iv, p :: |p| % 16 == 0 ==> |c.dec(k, iv, p)| == |p|)
    && (forall m :: |c.sha(m)| == 32)
  }

  function Repeated(b: byte): (s: seq<byte>)
    ensures |s| == 32
  {
    seq(32, _ => b)
  }

  function XorBytes(a: seq<byte>, b: seq<byte>): (r: seq<byte>)
    requires |a| <= |b|
    ensures |r| == |a|
    ensures forall i :: 0 <= i < |a| ==> r[i] == ByteXor(a[i], b[i])
  {
    if a == [] then [] else XorBytes(a[..|a| - 1], b) + [ByteXor(a[|a| - 1], b[|a| - 1])]
  }

  const HASH_PAD: seq<byte> :=
    [0x00, 0x00, 0x00, 0x01, 0x00, 0x00, 0x00, 0x00, 0x00, 0x00, 0x00, 0x00, 0x00, 0x00, 0x00, 0x00,
     0x00, 0x00, 0x00, 0x00, 0x00, 0x00, 0x00, 0x00, 0x00, 0x00, 0x00, 0x00, 0x00, 0xc0, 0x00, 0x00]

  /** The first hash covers whole 16-byte pieces that start more than 320 bytes before the end. */
  function Covered(n: nat): nat {
    if n <= 320 then 0 else (n - 320 + 15) / 16 * 16
  }

  lemma CoveredIsShort(n: nat)
    requires n % 16 == 0 && n >= 320
    ensures Covered(n) == n - 320
  {
  }

  /** Keyed header, body, keyed footer, and the hash over both. */
  function Plaintext(c: Crypto, hmac: seq<byte>, body: seq<byte>): seq<byte>
    requires |hmac| == 32
  {
    var front := XorBytes(Repeated(0x6C), hmac) + Repeated(0x6C) + body;
    var keyedFooter := XorBytes(Repeated(0x3A), hmac);
    var h1 := c.sha(Bitflip(Slice(front, 0, Covered(|front|))));
    var h2 := c.sha(Bitflip(keyedFooter) + Bitflip(Repeated(0x3A)) + h1);
    front + keyedFooter + Repeated(0x3A) + Repeated(0) + HASH_PAD + Bitflip(h2)
  }

  /** All but the 64 bytes in front and the 160 at the end. */
  function Body(plain: seq<byte>): seq<byte> {
    if |plain| < 224 then [] else plain[64..|plain| - 160]
  }

  /** The length is kept, and so is the body. */
  lemma PlaintextKeeps(c: Crypto, hmac: seq<byte>, plain: seq<byte>)
    requires Sound(c) && |hmac| == 32 && |plain| >= 224
    ensures |Plaintext(c, hmac, Body(plain))| == |plain|
    ensures Body(Plaintext(c, hmac, Body(plain))) == Body(plain)
  {
    hide Bitflip, Slice, XorBytes, Repeated;
    var front := XorBytes(Repeated(0x6C), hmac) + Repeated(0x6C) + Body(plain);
    var h1 := c.sha(Bitflip(Slice(front, 0, Covered(|front|))));
    BitflipLength(c.sha(Bitflip(XorBytes(Repeated(0x3A), hmac)) + Bitflip(Repeated(0x3A)) + h1));
  }

  /**
   A plaintext that authenticates under the key hmac: the key is in its front and in its footer, and its last 32
   bytes are the hash of the footer and of the hash of all that comes before it, 160 bytes short of the end.
   */
  ghost predicate Authentic(c: Crypto, p: seq<byte>, hmac: seq<byte>) {
    && |p| >= 224 && |hmac| == 32
    && var n := |p|;
    && XorBytes(p[..32], Repeated(0x6C)) == hmac && p[32..64] == Repeated(0x6C)
    && XorBytes(p[n - 160..n - 128], Repeated(0x3A)) == hmac && p[n - 128..n - 96] == Repeated(0x3A)
    && p[n - 96..n - 64] == Repeated(0) && p[n - 64..n - 32] == HASH_PAD
    && Bitflip(p[n - 32..]) ==
       c.sha(Bitflip(p[n - 160..n - 96]) + c.sha(Bitflip(Slice(p[..n - 160], 0, Covered(n - 160)))))
  }

  lemma XorBytesTwice(a: seq<byte>, b: seq<byte>)
    requires |a| == |b|
    ensures XorBytes(XorBytes(a, b), a) == b
  {
    hide Xor;
    forall i | 0 <= i < |a|
      ensures ByteXor(ByteXor(a[i], b[i]), a[i]) == b[i]
    {
      XorComm(a[i], b[i]);
      XorCancel(b[i], a[i]);
    }
  }

  /** Whatever the body, the plaintext built around it authenticates. */
  lemma PlaintextAuthentic(c: Crypto, hmac: seq<byte>, body: seq<byte>)
    requires Sound(c) && |hmac| == 32
    ensures Authentic(c, Plaintext(c, hmac, body), hmac)
  {
    hide Bitflip, Slice, XorBytes, Repeated, Covered;
    var header, footer := XorBytes(Repeated(0x6C), hmac), XorBytes(Repeated(0x3A), hmac);
    var front := header + Repeated(0x6C) + body;
    var h1 := c.sha(Bitflip(Slice(front, 0, Covered(|front|))));
    var h2 := c.sha(Bitflip(footer) + Bitflip(Repeated(0x3A)) + h1);
    XorBytesTwice(Repeated(0x6C), hmac);
    XorBytesTwice(Repeated(0x3A), hmac);
    BitflipConcat(footer, Repeated(0x3A));
    BitflipInvolution(h2);
    BitflipLength(h2);
    var p := Plaintext(c, hmac, body);
    var n := |p|;
    assert n == |front| + 160;
    Layout(p, front, footer, h2);
    assert p[..32] == front[..32] == header && p[32..64] == front[32..64] == Repeated(0x6C);
  }

  lemma Layout(p: seq<byte>, front: seq<byte>, footer: seq<byte>, h2: seq<byte>)
    requires |footer| == 32 && |Bitflip(h2)| == 32
    requires p == front + footer + Repeated(0x3A) + Repeated(0) + HASH_PAD + Bitflip(h2)
    ensures var n := |p|;
            && n == |front| + 160 && p[..n - 160] == front
            && p[n - 160..n - 128] == footer && p[n - 128..n - 96] == Repeated(0x3A)
            && p[n - 160..n - 96] == footer + Repeated(0x3A)
            && p[n - 96..n - 64] == Repeated(0) && p[n - 64..n - 32] == HASH_PAD && p[n - 32..] == Bitflip(h2)
  {
    hide Bitflip, Repeated;
  }

  const CT_WORDS: word := 0x8_5b98

  datatype Job = Job(header: seq<byte>, oldKey: seq<byte>, newKey: seq<byte>, iv: seq<byte>, hmac: seq<byte>)

  predicate Wellformed(j: Job) {
    |j.iv| == 16 && |j.hmac| == 32
  }

  function Decrypted(c: Crypto, key: seq<byte>, f: seq<byte>): seq<byte> {
    c.dec(key, Parse(f).iv, Bitflip(Parse(f).active))
  }

  /** The re-encrypted image. */
  function Reencrypted(c: Crypto, j: Job, f: seq<byte>): seq<byte>
    requires Wellformed(j)
  {
    var plain := Plaintext(c, j.hmac, Body(Decrypted(c, j.oldKey, f)));
    Written(j.header, j.iv, CT_WORDS, Bitflip(c.enc(j.newKey, j.iv, plain)), Parse(f).postamble)
  }

  /**
   From an image with a ciphertext of the fixed length: the new image reads back with the new IV, a
   ciphertext of the same length, the same postamble, and under the new key the same body, and it authenticates.
   */
  lemma ReencryptionKeepsBody(c: Crypto, j: Job, f: seq<byte>)
    requires Sound(c) && Wellformed(j) && IsHeader(j.header) && Unambiguous(j.header, j.iv)
    requires |Parse(f).active| == 4 * CT_WORDS
    ensures var g := Reencrypted(c, j, f);
            && Parse(g).iv == j.iv
            && |Parse(g).active| == |Parse(f).active|
            && Parse(g).postamble == Parse(f).postamble
            && Body(Decrypted(c, j.newKey, g)) == Body(Decrypted(c, j.oldKey, f))
            && Authentic(c, Decrypted(c, j.newKey, g), j.hmac)
  {
    hide Parse, Bitflip, Plaintext, Body, Written, Unambiguous, IsHeader, Authentic;
    var before := Decrypted(c, j.oldKey, f);
    BitflipLength(Parse(f).active);
    assert |Bitflip(Parse(f).active)| == 4 * CT_WORDS && 4 * CT_WORDS % 16 == 0;
    PlaintextKeeps(c, j.hmac, before);
    PlaintextAuthentic(c, j.hmac, Body(before));
    var plain := Plaintext(c, j.hmac, Body(before));
    var ct := c.enc(j.newKey, j.iv, plain);
    BitflipInvolution(ct);
    BitflipLength(ct);
    ParseWritten(j.header, j.iv, CT_WORDS, Bitflip(ct), Parse(f).postamble);
  }

  // ---- The loops ----

  method XorBytesLoop(a: seq<byte>, b: seq<byte>) returns (y: seq<byte>)
    requires |a| <= |b|
    ensures y == XorBytes(a, b)
  {
    hide ByteXor;
    var i := 0;
    y := [];
    while i < |a|
      invariant 0 <= i <= |a| && |y| == i
      invariant forall k :: 0 <= k < i ==> y[k] == ByteXor(a[k], b[k])
    {
      y := y + [ByteXor(a[i], b[i])];
      i := i + 1;
    }
  }

  /** What the first hash is fed, 16 bytes at a time. */
  method HashedInPieces(p: seq<byte>) returns (m: seq<byte>)
    ensures m == Bitflip(Slice(p, 0, Covered(|p|)))
  {
    hide Bitflip, Slice;
    m := [];
    var k, n := 0, 0;
    BitflipNothing();
    SliceNothing(p);
    while k < |p| - 320
      invariant k == 16 * n && n >= 0
      invariant k < |p| - 320 + 16 || k == 0
      invariant m == Bitflip(Slice(p, 0, k))
    {
      var flipped := BitflipLoop(Slice(p, k, k + 16));
      SlicePiece(p, k);
      WordsConcat(Slice(p, 0, k), Slice(p, k, k + 16), 4 * n);
      m := m + flipped;
      k, n := k + 16, n + 1;
    }
    CoveredIs(|p|, k, n);
  }

  lemma SliceNothing(p: seq<byte>)
    ensures Slice(p, 0, 0) == []
  {
  }

  lemma SlicePiece(p: seq<byte>, k: nat)
    requires k < |p|
    ensures |Slice(p, 0, k)| == k && Slice(p, 0, k) + Slice(p, k, k + 16) == Slice(p, 0, k + 16)
  {
  }

  lemma CoveredIs(len: nat, k: nat, n: nat)
    requires k == 16 * n && k >= len - 320 && (k < len - 320 + 16 || k == 0)
    ensures Covered(len) == k
  {
  }

  lemma BitflipNothing()
    ensures Bitflip([]) == []
  {
  }

  /** Bytes there are to be taken for the IV. */
  function IvRoom(f: seq<byte>): nat {
    |Slice(f, IvPos(f, FirstCt(f, 0)), IvPos(f, FirstCt(f, 0)) + 16)|
  }

  /** n rounded up to whole words. */
  function Whole(n: nat): nat {
    (n + 3) / 4 * 4
  }

  /** How long everything is depends on lengths alone. */
  lemma LengthsOnly(c: Crypto, j: Job, f: seq<byte>)
    requires Sound(c) && Wellformed(j)
    ensures |Parse(f).iv| != 16 <==> IvRoom(f) <= 12
    ensures |Bitflip(Parse(f).active)| == Whole(|Parse(f).active|)
    ensures Whole(|Parse(f).active|) % 16 == 0 ==>
              var n := if Whole(|Parse(f).active|) < 224 then 224 else Whole(|Parse(f).active|);
              && |Plaintext(c, j.hmac, Body(Decrypted(c, j.oldKey, f)))| == n && n % 16 == 0
              && |Reencrypted(c, j, f)| == |j.header| + 24 + n + |Parse(f).postamble|
  {
    hide Bitflip, Parse, IvRoom, Plaintext, Body, Decrypted, Reencrypted;
    IvLength(f);
    BitflipLength(Parse(f).active);
    if Whole(|Parse(f).active|) % 16 == 0 {
      DecryptedLength(c, j, f);
      var body := Body(Decrypted(c, j.oldKey, f));
      PlaintextLength(c, j.hmac, body);
      NewLength(c, j, f);
    }
  }

  lemma IvLength(f: seq<byte>)
    ensures |Parse(f).iv| != 16 <==> IvRoom(f) <= 12
  {
    hide Bitflip, FirstCt, IvPos, WordAt;
    var at := FirstCt(f, 0);
    BitflipLength(Slice(f, IvPos(f, at), IvPos(f, at) + 16));
  }

  lemma DecryptedLength(c: Crypto, j: Job, f: seq<byte>)
    requires Sound(c) && Whole(|Parse(f).active|) % 16 == 0
    ensures var n := Whole(|Parse(f).active|);
            |Body(Decrypted(c, j.oldKey, f))| == (if n < 224 then 224 else n) - 224
  {
    hide Bitflip, Parse;
    BitflipLength(Parse(f).active);
  }

  lemma NewLength(c: Crypto, j: Job, f: seq<byte>)
    requires Sound(c) && Wellformed(j)
    ensures var n := |Plaintext(c, j.hmac, Body(Decrypted(c, j.oldKey, f)))|;
            n % 16 == 0 ==> |Reencrypted(c, j, f)| == |j.header| + 24 + n + |Parse(f).postamble|
  {
    hide Bitflip, Parse, Plaintext, Body, Decrypted, Reencrypted, Sound, Whole;
    var plain := Plaintext(c, j.hmac, Body(Decrypted(c, j.oldKey, f)));
    var ct := c.enc(j.newKey, j.iv, plain);
    ReencryptedIs(c, j, f, plain, Bitflip(ct));
    EncryptedLength(c, j, plain);
    FlippedLength(j.iv);
    FlippedLength(ct);
  }

  lemma EncryptedLength(c: Crypto, j: Job, plain: seq<byte>)
    requires Sound(c)
    ensures |plain| % 16 == 0 ==> |c.enc(j.newKey, j.iv, plain)| == |plain|
  {
  }

  lemma FlippedLength(d: seq<byte>)
    ensures |d| % 16 == 0 ==> |Bitflip(d)| == |d|
  {
    hide Bitflip;
    BitflipLength(d);
    if |d| % 16 == 0 {
      var k := |d| / 16;
      assert |d| == 16 * k;
      DivUnique(|d| + 3, 4, 4 * k, 3);
    }
  }

  lemma PlaintextLength(c: Crypto, hmac: seq<byte>, body: seq<byte>)
    requires Sound(c) && |hmac| == 32
    ensures |Plaintext(c, hmac, body)| == 224 + |body|
  {
    hide Bitflip, Slice, XorBytes, Repeated;
    var front := XorBytes(Repeated(0x6C), hmac) + Repeated(0x6C) + body;
    var h1 := c.sha(Bitflip(Slice(front, 0, Covered(|front|))));
    BitflipLength(c.sha(Bitflip(XorBytes(Repeated(0x3A), hmac)) + Bitflip(Repeated(0x3A)) + h1));
  }

  lemma ReencryptedIs(c: Crypto, j: Job, f: seq<byte>, plaintext: seq<byte>, ct: seq<byte>)
    requires Wellformed(j) && plaintext == Plaintext(c, j.hmac, Body(Decrypted(c, j.oldKey, f)))
    requires ct == Bitflip(c.enc(j.newKey, j.iv, plaintext))
    ensures Reencrypted(c, j, f) ==
            j.header + Bitflip(j.iv) + CT_MARK_BYTES + BeBytes(CT_WORDS, 4) + ct + Parse(f).postamble
  {
    hide Bitflip, Plaintext, Parse, BeBytes;
  }

  /** encrypt_to_efuse */
  method EncryptToEfuse(c: Crypto, j: Job, f: seq<byte>) returns (r: Result<seq<byte>>)
    requires Sound(c) && Wellformed(j)
    ensures r.Ok? ==> r.value == Reencrypted(c, j, f) && |r.value| == 2621440
    ensures r.Err? <==>
            var p := Parse(f);
            || IvRoom(f) <= 12 || Whole(|p.active|) % 16 != 0
            || |j.header| + 24 + (if Whole(|p.active|) < 224 then 224 else Whole(|p.active|)) + |p.postamble| != 2621440
  {
    hide Whole, IvRoom, Reencrypted, Bitflip, FirstCt, IvPos, Sound, WordAt;
    LengthsOnly(c, j, f);
    var position, ivPos := Search(f);
    var len := 4 * WordAt(f, position + 4);
    var active := Slice(f, position + 8, position + 8 + len);
    var postamble := Slice(f, position + 8 + len, position + 8 + len + |f|);
    var iv := BitflipLoop(Slice(f, ivPos, ivPos + 16));
    assert Parse(f) == Parsed(iv, active, postamble);
    hide Parse;
    if |iv| != 16 { return Err("IV must be 16 bytes"); }
    var flipped := BitflipLoop(active);
    if |flipped| % 16 != 0 { return Err("data must be aligned to block boundary"); }
    var plain := c.dec(j.oldKey, iv, flipped);
    var header, footer := Repeated(0x6C), Repeated(0x3A);
    var keyedHeader := XorBytesLoop(header, j.hmac);
    var keyedFooter := XorBytesLoop(footer, j.hmac);
    var front := keyedHeader + header + Body(plain);
    var m1 := HashedInPieces(front);
    var h1 := c.sha(m1);
    var f1 := BitflipLoop(keyedFooter);
    var f2 := BitflipLoop(footer);
    var h2 := BitflipLoop(c.sha(f1 + f2 + h1));
    var plaintext := front + keyedFooter + footer + Repeated(0) + HASH_PAD + h2;
    assert plaintext == Plaintext(c, j.hmac, Body(plain));
    hide Plaintext, Body;
    if |plaintext| % 16 != 0 { return Err("data must be aligned to block boundary"); }
    var ct := BitflipLoop(c.enc(j.newKey, j.iv, plaintext));
    var flippedIv := BitflipLoop(j.iv);
    var out := j.header + flippedIv + CT_MARK_BYTES + BeBytes(CT_WORDS, 4) + ct + postamble;
    ReencryptedIs(c, j, f, plaintext, ct);
    if |out| != 2621440 { return Err("Encryption length is incorrect; aborting!"); }
    r := Ok(out);
  }
}
