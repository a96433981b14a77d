/** bcrypt's own base64: its alphabet, no padding, and a decoder that a foreign character stops or breaks. */
module BcryptBase64 {
  import opened Bytes

  /** Six bits to a character. */
  function Code(i: nat): char
    requires i < 64
  {
    if i == 0 then '.'
    else if i == 1 then '/'
    else if i < 28 then ('A' as int + i - 2) as char
    else if i < 54 then ('a' as int + i - 28) as char
    else ('0' as int + i - 54) as char
  }

  /** A character to six bits, -1 outside the alphabet; the range test lets 128 slip past the table's end. */
  function Char64(c: char): Result<int> {
    var x := c as int;
    if x > 128 then Ok(-1)
    else if x == 128 then Err("index out of range")
    else if c == '.' then Ok(0)
    else if c == '/' then Ok(1)
    else if 'A' <= c <= 'Z' then Ok(2 + x - 'A' as int)
    else if 'a' <= c <= 'z' then Ok(28 + x - 'a' as int)
    else if '0' <= c <= '9' then Ok(54 + x - '0' as int)
    else Ok(-1)
  }

  const UPPER := "ABCDEFGHIJKLMNOPQRSTUVWXYZ"
  const LOWER := "abcdefghijklmnopqrstuvwxyz"
  const ALPHABET := "./" + UPPER + LOWER + "0123456789"

  lemma Letters(i: nat)
    requires i < 26
    ensures UPPER[i] == ('A' as int + i) as char && LOWER[i] == ('a' as int + i) as char
  {
    if i < 13 {
      assert i in {0, 1, 2, 3, 4, 5, 6, 7, 8, 9, 10, 11, 12};
    } else {
      assert i in {13, 14, 15, 16, 17, 18, 19, 20, 21, 22, 23, 24, 25};
    }
  }

  /** The code of i is character i of the alphabet. */
  lemma CodeIsAlphabet(i: nat)
    requires i < 64
    ensures |ALPHABET| == 64 && Code(i) == ALPHABET[i]
  {
    if 2 <= i < 28 {
      Letters(i - 2);
    } else if 28 <= i < 54 {
      Letters(i - 28);
    }
  }

  lemma CodeChar64(i: nat)
    requires i < 64
    ensures Char64(Code(i)) == Ok(i)
  {
  }

  lemma Char64Code(c: char)
    ensures Char64(c).Ok? && Char64(c).value != -1 ==> 0 <= Char64(c).value < 64 && Code(Char64(c).value) == c
  {
  }

  /** Up to three bytes as up to four characters. */
  function Group(d: seq<byte>): (g: string)
    requires 0 < |d| <= 3
    ensures |g| == |d| + 1
  {
    if |d| == 1 then [Code(d[0] / 4), Code(d[0] % 4 * 16)]
    else if |d| == 2 then [Code(d[0] / 4), Code(d[0] % 4 * 16 + d[1] / 16), Code(d[1] % 16 * 4)]
    else [Code(d[0] / 4), Code(d[0] % 4 * 16 + d[1] / 16), Code(d[1] % 16 * 4 + d[2] / 64), Code(d[2] % 64)]
  }

  /** The characters as digits to the base 64. */
  function Radix64(g: string): nat {
    if g == [] then 0 else
    var digit := Char64(g[|g| - 1]);
    64 * Radix64(g[..|g| - 1]) + if digit.Ok? && digit.value >= 0 then digit.value else 0
  }

  lemma RadixNext(g: string, i: nat)
    requires i < 64
    ensures Radix64(g + [Code(i)]) == 64 * Radix64(g) + i
  {
    hide Char64, Code;
    CodeChar64(i);
    assert (g + [Code(i)])[..|g|] == g;
  }

  /** A group is the big-endian value of its bytes to the base 64, with zero bits to fill up the last digit. */
  lemma GroupIsRadix64(d: seq<byte>)
    requires 0 < |d| <= 3
    ensures Radix64(Group(d)) == BeValue(d) * if |d| == 1 then 16 else if |d| == 2 then 4 else 1
  {
    hide Code, Radix64, BeValue;
    if |d| == 1 {
      assert d == [d[0]];
      Radix1(d[0]);
    } else if |d| == 2 {
      assert d == [d[0], d[1]];
      Radix2(d[0], d[1]);
    } else {
      assert d == [d[0], d[1], d[2]];
      Radix3(d[0], d[1], d[2]);
    }
  }

  lemma Radix1(a: byte)
    ensures Radix64(Group([a])) == BeValue([a]) * 16
  {
    hide Code, Radix64, BeValue;
    RadixNothing();
    BeNext([], a);
    assert [] + [a] == [a];
    FirstDigits(a, a % 4 * 16);
  }

  lemma FirstDigits(a: byte, x: nat)
    requires x < 64
    ensures Radix64([Code(a / 4), Code(x)]) == 64 * (a / 4) + x
  {
    hide Code, Radix64;
    RadixNothing();
    RadixNext([], a / 4);
    assert [] + [Code(a / 4)] == [Code(a / 4)];
    RadixNext([Code(a / 4)], x);
    assert [Code(a / 4)] + [Code(x)] == [Code(a / 4), Code(x)];
  }

  lemma Radix2(a: byte, b: byte)
    ensures Radix64(Group([a, b])) == BeValue([a, b]) * 4
  {
    hide Code, Radix64, BeValue;
    RadixNothing();
    BeNext([], a);
    BeNext([a], b);
    assert [] + [a] == [a] && [a] + [b] == [a, b];
    FirstDigits(a, a % 4 * 16 + b / 16);
    var g := [Code(a / 4), Code(a % 4 * 16 + b / 16)];
    RadixNext(g, b % 16 * 4);
    assert Group([a, b]) == g + [Code(b % 16 * 4)];
  }

  lemma Radix3(a: byte, b: byte, c: byte)
    ensures Radix64(Group([a, b, c])) == BeValue([a, b, c])
  {
    hide Code, Radix64, BeValue;
    RadixNothing();
    BeNext([], a);
    BeNext([a], b);
    BeNext([a, b], c);
    assert [] + [a] == [a] && [a] + [b] == [a, b] && [a, b] + [c] == [a, b, c];
    FirstDigits(a, a % 4 * 16 + b / 16);
    var g := [Code(a / 4), Code(a % 4 * 16 + b / 16)];
    var h := g + [Code(b % 16 * 4 + c / 64)];
    RadixNext(g, b % 16 * 4 + c / 64);
    RadixNext(h, c % 64);
    assert Group([a, b, c]) == h + [Code(c % 64)];
  }

  lemma RadixNothing()
    ensures Radix64([]) == 0 && BeValue([]) == 0
  {
  }

  lemma BeNext(s: seq<byte>, b: byte)
    ensures BeValue(s + [b]) == 256 * BeValue(s) + b as int && BeValue([]) == 0
  {
    assert (s + [b])[..|s|] == s;
  }

  function Encoded(d: seq<byte>): string {
    if d == [] then "" else if |d| <= 3 then Group(d) else Group(d[..3]) + Encoded(d[3..])
  }

  /** What one turn of the decoder does: raise, end with the bytes so far, or go on after three bytes. */
  datatype Step = Raise(error: string) | Stop(bytes: seq<byte>) | More(bytes: seq<byte>)

  function DecodeGroup(s: string, max: nat): (r: Step)
    requires |s| > 1 && max > 0
    ensures r.More? ==> |s| >= 4 && max >= 3 && |r.bytes| == 3
    ensures r.Stop? ==> |r.bytes| <= max
  {
    match (Char64(s[0]), Char64(s[1]))
    case (Err(e), _) => Raise(e)
    case (_, Err(e)) => Raise(e)
    case (Ok(c1), Ok(c2)) =>
      Char64Code(s[0]);
      Char64Code(s[1]);
      if c1 == -1 || c2 == -1 then Stop([]) else
      var b0 := c1 * 4 + c2 / 16;
      if max == 1 || |s| == 2 then Stop([b0]) else
      match Char64(s[2])
      case Err(e) => Raise(e)
      case Ok(c3) =>
        Char64Code(s[2]);
        if c3 == -1 then Stop([b0]) else
        var b1 := c2 % 16 * 16 + c3 / 4;
        if max == 2 || |s| == 3 then Stop([b0, b1]) else
        match Char64(s[3])
        case Err(e) => Raise(e)
        case Ok(c4) =>
          Char64Code(s[3]);
          if c4 == -1 then Raise("chr() arg not in range") else More([b0, b1, c3 % 4 * 64 + c4])
  }

  /** What decoding at most max bytes of s gives. */
  function Decoded(s: string, max: nat): Result<seq<byte>> {
    if |s| <= 1 || max == 0 then Ok([]) else
    match DecodeGroup(s, max)
    case Raise(e) => Err(e)
    case Stop(bytes) => Ok(bytes)
    case More(bytes) => Prepend(bytes, Decoded(s[4..], max - 3))
  }

  /** 4n/3 characters, rounded up. */
  lemma {:induction false} EncodedLength(d: seq<byte>)
    ensures |Encoded(d)| == (4 * |d| + 2) / 3
  {
    if |d| > 3 { EncodedLength(d[3..]); }
  }

  /** A group followed by anything decodes to its bytes. */
  lemma GroupDecodes(d: seq<byte>, rest: string)
    requires 0 < |d| <= 3 && (|d| < 3 ==> rest == "")
    ensures DecodeGroup(Group(d) + rest, |d|) == if |d| < 3 then Stop(d) else More(d)
  {
    hide Code, Char64;
    CodeChar64(d[0] / 4);
    if |d| == 1 {
      CodeChar64(d[0] % 4 * 16);
      assert d == [d[0]];
    } else {
      CodeChar64(d[0] % 4 * 16 + d[1] / 16);
      if |d| == 2 {
        CodeChar64(d[1] % 16 * 4);
        assert d == [d[0], d[1]];
      } else {
        CodeChar64(d[1] % 16 * 4 + d[2] / 64);
        CodeChar64(d[2] % 64);
        assert d == [d[0], d[1], d[2]];
      }
    }
  }

  /** The first group decodes alike whatever room beyond three bytes is left. */
  lemma RoomBeyondGroup(s: string, max: nat)
    requires |s| > 1 && max >= 3
    ensures DecodeGroup(s, max) == DecodeGroup(s, 3)
  {
  }

  lemma {:induction false} RoundTrip(d: seq<byte>)
    ensures Decoded(Encoded(d), |d|) == Ok(d)
  {
    hide Group, DecodeGroup;
    if d == [] {
    } else if |d| <= 3 {
      assert Encoded(d) + "" == Encoded(d);
      GroupDecodes(d, "");
      assert d + [] == d;
    } else {
      var rest := Encoded(d[3..]);
      RoundTrip(d[3..]);
      GroupDecodes(d[..3], rest);
      RoomBeyondGroup(Encoded(d), |d|);
      assert Encoded(d)[4..] == rest;
      assert d == d[..3] + d[3..];
    }
  }

  // ---- When decoding raises ----

  predicate InAlphabet(c: char) {
    c == '.' || c == '/' || 'A' <= c <= 'Z' || 'a' <= c <= 'z' || '0' <= c <= '9'
  }

  /** The one character past the end of the table. */
  predicate Overruns(c: char) {
    c as int == 128
  }

  /** Bytes put out before character i is looked up. */
  function BytesBefore(i: nat): nat {
    i / 4 * 3 + if i % 4 <= 1 then 0 else i % 4 - 1
  }

  /**
   Character i is looked up: there is room, a group has a second character, and all before it are of the alphabet;
   of the first two characters of a group, both are looked up before either is judged.
   */
  ghost predicate LookedUp(s: string, max: nat, i: nat) {
    && i < |s| && (i % 4 == 0 ==> i + 1 < |s|) && BytesBefore(i) < max
    && (forall j :: 0 <= j < i && !(i % 4 == 1 && j == i - 1) ==> InAlphabet(s[j]))
    && (i % 4 == 1 ==> !Overruns(s[i - 1]))
  }

  /** A character that is not merely the end: past the table, or foreign in the one place not tested. */
  predicate Bad(c: char, i: nat) {
    Overruns(c) || (i % 4 == 3 && !InAlphabet(c))
  }

  ghost predicate RaisesAt(s: string, max: nat, i: nat) {
    LookedUp(s, max, i) && Bad(s[i], i)
  }

  ghost predicate Raises(s: string, max: nat) {
    exists i: nat :: RaisesAt(s, max, i)
  }

  lemma Char64Is(c: char)
    ensures Char64(c).Err? <==> Overruns(c)
    ensures Char64(c).Ok? && Char64(c).value != -1 <==> InAlphabet(c)
  {
  }

  /** The places of the first group. */
  lemma GroupRaises(s: string, max: nat)
    requires |s| > 1 && max > 0
    ensures DecodeGroup(s, max).Raise? <==> exists i: nat :: i < 4 && RaisesAt(s, max, i)
    ensures DecodeGroup(s, max).More? <==> |s| >= 4 && max >= 3 && forall i :: 0 <= i < 4 ==> InAlphabet(s[i])
  {
    Char64Is(s[0]);
    Char64Is(s[1]);
    if |s| > 2 { Char64Is(s[2]); }
    if |s| > 3 { Char64Is(s[3]); }
    hide Char64, InAlphabet, Overruns;
    PlacesOfGroup(s, max);
    hide RaisesAt;
    if i: nat :| i < 4 && RaisesAt(s, max, i) {
      assert i == 0 || i == 1 || i == 2 || i == 3;
    }
  }

  lemma PlacesOfGroup(s: string, max: nat)
    requires |s| > 1 && max > 0
    ensures RaisesAt(s, max, 0) <==> Overruns(s[0])
    ensures RaisesAt(s, max, 1) <==> !Overruns(s[0]) && Overruns(s[1])
    ensures RaisesAt(s, max, 2) <==> |s| > 2 && max > 1 && InAlphabet(s[0]) && InAlphabet(s[1]) && Overruns(s[2])
    ensures RaisesAt(s, max, 3) <==>
            && |s| > 3 && max > 2 && InAlphabet(s[0]) && InAlphabet(s[1]) && InAlphabet(s[2])
            && (Overruns(s[3]) || !InAlphabet(s[3]))
  {
    hide InAlphabet, Overruns;
  }

  /** A place beyond the first group is a place of the rest. */
  lemma RaisesLater(s: string, max: nat, i: nat)
    requires |s| >= 4
    ensures RaisesAt(s, max, i + 4) <==>
            max >= 3 && (forall j :: 0 <= j < 4 ==> InAlphabet(s[j])) && RaisesAt(s[4..], max - 3, i)
  {
    hide InAlphabet, Overruns;
    var t := s[4..];
    assert BytesBefore(i + 4) == BytesBefore(i) + 3;
    if i + 4 < |s| {
      assert forall j :: 0 <= j < |t| ==> t[j] == s[j + 4];
      if LookedUp(s, max, i + 4) {
        forall j | 0 <= j < i && !(i % 4 == 1 && j == i - 1)
          ensures InAlphabet(t[j])
        {
          assert t[j] == s[j + 4];
        }
      }
      if max >= 3 && (forall j :: 0 <= j < 4 ==> InAlphabet(s[j])) && LookedUp(t, max - 3, i) {
        forall j | 0 <= j < i + 4 && !((i + 4) % 4 == 1 && j == i + 3)
          ensures InAlphabet(s[j])
        {
          if j >= 4 { assert t[j - 4] == s[j]; }
        }
      }
    }
  }

  /**
   Decoding raises if and only if a character that is looked up overruns the table, or is foreign and the last of
   its group: any other foreign character ends it.
   */
  lemma {:induction false} DecodingRaisesIff(s: string, max: nat)
    ensures Decoded(s, max).Err? <==> Raises(s, max)
    decreases |s|
  {
    if |s| > 1 && max > 0 {
      GroupRaises(s, max);
      hide DecodeGroup, RaisesAt, InAlphabet;
      if |s| >= 4 {
        if DecodeGroup(s, max).More? { DecodingRaisesIff(s[4..], max - 3); }
        RaisesInGroupOrLater(s, max);
      } else {
        ShortHasNoMore(s, max);
      }
    } else {
      NothingLookedUp(s, max);
    }
  }

  lemma RaisesInGroupOrLater(s: string, max: nat)
    requires |s| >= 4
    ensures Raises(s, max) <==>
            || (exists i: nat :: i < 4 && RaisesAt(s, max, i))
            || (max >= 3 && (forall j :: 0 <= j < 4 ==> InAlphabet(s[j])) && Raises(s[4..], max - 3))
  {
    hide RaisesAt, InAlphabet;
    if i: nat :| RaisesAt(s, max, i) && i >= 4 {
      RaisesLater(s, max, i - 4);
      assert RaisesAt(s[4..], max - 3, i - 4);
    }
    if max >= 3 && (forall j :: 0 <= j < 4 ==> InAlphabet(s[j])) && Raises(s[4..], max - 3) {
      var i: nat :| RaisesAt(s[4..], max - 3, i);
      RaisesLater(s, max, i);
      assert RaisesAt(s, max, i + 4);
    }
  }

  lemma ShortHasNoMore(s: string, max: nat)
    requires |s| < 4
    ensures forall i: nat :: RaisesAt(s, max, i) ==> i < 4
  {
  }

  lemma NothingLookedUp(s: string, max: nat)
    requires |s| <= 1 || max == 0
    ensures forall i: nat :: !RaisesAt(s, max, i)
  {
  }

  /** A foreign character ends decoding in the third place, raises in the fourth, and anywhere if its code is 128. */
  lemma ForeignCanRaise()
    ensures Decoded("AA=A", 3) == Ok([8]) && Decoded("AAA=", 3).Err? && Decoded("A\U{80}", 1).Err?
  {
    Char64Is('\U{80}');
    assert DecodeGroup("A\U{80}", 1).Raise?;
    Char64Is('A');
    Char64Is('=');
    assert Char64('A') == Ok(2);
    assert DecodeGroup("AA=A", 3) == Stop([8]);
    assert DecodeGroup("AAA=", 3).Raise?;
  }

  method EncodeBase64(d: seq<byte>, length: int) returns (r: Result<string>)
    ensures r == if 0 < length <= |d| then Ok(Encoded(d[..length])) else Err("Invalid length")
  {
    hide Group;
    if length <= 0 || length > |d| { return Err("Invalid length"); }
    ghost var data := d[..length];
    var off, rs := 0, "";
    assert data[0..] == data;
    while off < length
      invariant 0 <= off <= length
      invariant rs + Encoded(data[off..]) == Encoded(data)
    {
      var n := if length - off < 3 then length - off else 3;
      EncodedStep(data[off..], n);
      assert data[off..][..n] == d[off..off + n] && data[off..][n..] == data[off + n..];
      var g := EncodeGroup(d, off, length);
      assert rs + (g + Encoded(data[off + n..])) == rs + g + Encoded(data[off + n..]);
      rs := rs + g;
      off := off + n;
    }
    assert data[off..] == [] && rs + "" == rs;
    r := Ok(rs);
  }

  lemma EncodedStep(d: seq<byte>, n: nat)
    requires d != [] && n == if |d| < 3 then |d| else 3
    ensures Encoded(d) == Group(d[..n]) + Encoded(d[n..])
  {
    hide Group;
    if |d| <= 3 {
      assert d[..n] == d && d[n..] == [];
      assert Group(d) + "" == Group(d);
    }
  }

  /** One turn of the encoder's loop, leaving early at the end of the data. */
  method EncodeGroup(d: seq<byte>, start: nat, length: nat) returns (rs: string)
    requires start < length <= |d|
    ensures rs == Group(d[start..if length - start < 3 then length else start + 3])
  {
    hide Code;
    var c1 := d[start];
    rs := [Code(c1 / 4)];
    c1 := c1 % 4 * 16;
    if start + 1 >= length { return rs + [Code(c1)]; }
    var c2 := d[start + 1];
    rs := rs + [Code(c1 + c2 / 16)];
    c1 := c2 % 16 * 4;
    if start + 2 >= length { return rs + [Code(c1)]; }
    c2 := d[start + 2];
    rs := rs + [Code(c1 + c2 / 64)];
    rs := rs + [Code(c2 % 64)];
  }

  method DecodeBase64(s: string, maxlen: int) returns (r: Result<seq<byte>>)
    ensures r == if maxlen <= 0 then Err("Invalid maxlen") else Decoded(s, maxlen)
  {
    hide DecodeGroup;
    if maxlen <= 0 { return Err("Invalid maxlen"); }
    var off, rs: seq<byte> := 0, [];
    PrependNothing(Decoded(s, maxlen));
    assert s[0..] == s;
    while off < |s| - 1 && |rs| < maxlen
      invariant 0 <= off <= |s| && |rs| <= maxlen
      invariant Decoded(s, maxlen) == Prepend(rs, Decoded(s[off..], maxlen - |rs|))
      decreases |s| - off
    {
      assert off + 4 <= |s| ==> s[off..][4..] == s[off + 4..];
      var step := DecodeGroupAt(s, off, maxlen - |rs|);
      if step.Raise? { return Err(step.error); }
      if step.More? { PrependTwice(rs, step.bytes, Decoded(s[off + 4..], maxlen - |rs| - 3)); }
      rs := rs + step.bytes;
      if step.Stop? { return Ok(rs); }
      off := off + 4;
    }
    assert rs + [] == rs;
    r := Ok(rs);
  }

  /** One turn of the decoder's loop. */
  method DecodeGroupAt(s: string, start: nat, room: nat) returns (r: Step)
    requires start + 1 < |s| && room > 0
    ensures r == DecodeGroup(s[start..], room)
  {
    hide Code, Char64;
    Char64Code(s[start]);
    Char64Code(s[start + 1]);
    if Char64(s[start]).Err? { return Raise(Char64(s[start]).error); }
    var c1 := Char64(s[start]).value;
    if Char64(s[start + 1]).Err? { return Raise(Char64(s[start + 1]).error); }
    var c2 := Char64(s[start + 1]).value;
    if c1 == -1 || c2 == -1 { return Stop([]); }
    var rs: seq<byte> := [c1 * 4 + c2 / 16];
    if |rs| >= room || start + 2 >= |s| { return Stop(rs); }
    Char64Code(s[start + 2]);
    if Char64(s[start + 2]).Err? { return Raise(Char64(s[start + 2]).error); }
    var c3 := Char64(s[start + 2]).value;
    if c3 == -1 { return Stop(rs); }
    rs := rs + [c2 % 16 * 16 + c3 / 4];
    if |rs| >= room || start + 3 >= |s| { return Stop(rs); }
    Char64Code(s[start + 3]);
    if Char64(s[start + 3]).Err? { return Raise(Char64(s[start + 3]).error); }
    var c4 := Char64(s[start + 3]).value;
    if c4 == -1 { return Raise("chr() arg not in range"); }
    return More(rs + [c3 % 4 * 64 + c4]);
  }
}
