/** The UF2 sender: one block at a time, each acknowledged by the device or sent again. */
module Uf2 {
  import opened Bits
  import opened Bytes

  // ---- Blocks ----

  const MAGIC_START := 0x0A324655
  const MAGIC_END := 0x0AB16F30

  datatype BlockInfo = BlockInfo(number: nat, address: nat, payloadSize: nat, data: seq<byte>)

  function ParseBlock(b: seq<byte>): Option<BlockInfo> {
    if |b| != 512 then None
    else if LeValue(b[0..4]) != MAGIC_START || LeValue(b[508..512]) != MAGIC_END then None
    else
      var size := LeValue(b[16..20]);
      Some(BlockInfo(LeValue(b[20..24]), LeValue(b[12..16]), size, Slice(b, 32, 32 + size)))
  }

  /** A block with its magic numbers and the fields in their places reads back field by field. */
  lemma ParseFields(b: seq<byte>, address: nat, size: nat, number: nat)
    requires |b| == 512 && b[0..4] == [0x55, 0x46, 0x32, 0x0A] && b[508..512] == [0x30, 0x6F, 0xB1, 0x0A]
    requires address < 0x1_0000_0000 && size < 0x1_0000_0000 && number < 0x1_0000_0000
    requires b[12..16] == LeBytes(address, 4) && b[16..20] == LeBytes(size, 4) && b[20..24] == LeBytes(number, 4)
    ensures ParseBlock(b) == Some(BlockInfo(number, address, size, Slice(b, 32, 32 + size)))
  {
    ParseRefuses(b);
    hide LeBytes, LeValue;
    FieldBytes(address);
    FieldBytes(size);
    FieldBytes(number);
  }

  lemma FieldBytes(v: nat)
    requires v < 0x1_0000_0000
    ensures LeValue(LeBytes(v, 4)) == v
  {
    hide LeBytes, LeValue, Pow2;
    assert Pow2(32) == 0x1_0000_0000 by {
      Shift8(0);
      Pow2Byte(8);
      Pow2Byte(16);
      Pow2Byte(24);
    }
    LeValueOfBytes(v, 4);
  }

  /** A block cut short, or without one of its two magic numbers, is none. */
  lemma ParseRefuses(b: seq<byte>)
    ensures ParseBlock(b).Some? <==>
            |b| == 512 && b[0..4] == [0x55, 0x46, 0x32, 0x0A] && b[508..512] == [0x30, 0x6F, 0xB1, 0x0A]
  {
    if |b| == 512 {
      FourBytes(b[0..4], [0x55, 0x46, 0x32, 0x0A]);
      FourBytes(b[508..512], [0x30, 0x6F, 0xB1, 0x0A]);
    }
  }

  lemma FourBytes(s: seq<byte>, t: seq<byte>)
    requires |s| == 4 && |t| == 4
    ensures LeValue(s) == LeValue(t) <==> s == t
    ensures LeValue(t) == t[0] as int + 0x100 * t[1] as int + 0x1_0000 * t[2] as int + 0x100_0000 * t[3] as int
  {
    LeBytesOfValue(s);
    LeBytesOfValue(t);
    LeFour(t);
  }

  // ---- One response ----

  /** A line's report of how much was written where, as the pattern finds it. */
  type Pattern = seq<byte> -> Option<(nat, nat)>

  function Lines(text: seq<byte>): (l: seq<seq<byte>>)
    ensures l != []
  {
    if text == [] then [[]] else
    var front := Lines(text[..|text| - 1]);
    if text[|text| - 1] == 10 then front + [[]]
    else front[..|front| - 1] + [front[|front| - 1] + [text[|text| - 1]]]
  }

  function FirstReport(find: Pattern, lines: seq<seq<byte>>): Option<(nat, nat)> {
    if lines == [] then None else if find(lines[0]).Some? then find(lines[0]) else FirstReport(find, lines[1..])
  }

  /** The report acted on: that of the earliest poll whose text so far has one. */
  function Heard(find: Pattern, buffer: seq<byte>, polls: seq<seq<byte>>): Option<(nat, nat)>
    decreases |polls|
  {
    if polls == [] then None else
    var text := buffer + polls[0];
    if polls[0] != [] && FirstReport(find, Lines(text)).Some? then FirstReport(find, Lines(text))
    else Heard(find, text, polls[1..])
  }

  /** `polls` are the bytes found waiting at each poll before the timeout. */
  method WaitForResponse(find: Pattern, polls: seq<seq<byte>>, size: nat, addr: nat) returns (ok: bool)
    ensures ok <==> Heard(find, [], polls) == Some((size, addr))
  {
    hide Lines;
    var buffer := [];
    assert polls[0..] == polls;
    for k := 0 to |polls|
      invariant Heard(find, buffer, polls[k..]) == Heard(find, [], polls)
    {
      assert polls[k..][1..] == polls[k + 1..];
      if |polls[k]| > 0 {
        buffer := buffer + polls[k];
        var lines := Lines(buffer);
        assert lines[0..] == lines;
        for n := 0 to |lines|
          invariant FirstReport(find, lines[n..]) == FirstReport(find, lines)
        {
          var report := find(lines[n]);
          if report.Some? {
            return report.value == (size, addr);
          }
          assert lines[n..][1..] == lines[n + 1..];
        }
      } else {
        assert buffer + polls[k] == buffer;
      }
    }
    ok := false;
  }

  // ---- The report as it is written ----

  const WROTE: seq<byte> := [87, 114, 111, 116, 101]
  const TO: seq<byte> := [116, 111]
  const HEX: seq<byte> := [48, 120]
  const SPACE: byte := 32
  const NEWLINE: byte := 10

  predicate IsSpace(c: byte) {
    c == SPACE || 9 <= c <= 13 || 28 <= c <= 31
  }

  predicate IsDigit(c: byte) {
    48 <= c <= 57
  }

  predicate IsHex(c: byte) {
    IsDigit(c) || 65 <= c <= 70 || 97 <= c <= 102
  }

  /** End of the characters from i on that satisfy p. */
  function SpanEnd(p: byte -> bool, line: seq<byte>, i: nat): (e: nat)
    requires i <= |line|
    ensures i <= e <= |line|
    decreases |line| - i
  {
    if i < |line| && p(line[i]) then SpanEnd(p, line, i + 1) else i
  }

  function DecValue(s: seq<byte>): nat {
    if s == [] then 0 else 10 * DecValue(s[..|s| - 1]) + if IsDigit(s[|s| - 1]) then s[|s| - 1] - 48 else 0
  }

  function HexDigit(c: byte): nat {
    if IsDigit(c) then c - 48 else if 65 <= c <= 70 then c - 55 else if 97 <= c <= 102 then c - 87 else 0
  }

  function HexValue(s: seq<byte>): nat {
    if s == [] then 0 else 16 * HexValue(s[..|s| - 1]) + HexDigit(s[|s| - 1])
  }

  predicate Literal(text: seq<byte>, line: seq<byte>, i: nat) {
    i + |text| <= |line| && line[i..i + |text|] == text
  }

  /**
   The pattern at the start of a line: the word, spaces, digits, spaces, `to`, spaces, and a hexadecimal number. What
   may follow a repetition never continues it, so each takes all it can.
   */
  function MatchHere(line: seq<byte>): Option<(nat, nat)> {
    if !Literal(WROTE, line, 0) then None else
    var a := SpanEnd(IsSpace, line, 5);
    var b := SpanEnd(IsDigit, line, a);
    var c := SpanEnd(IsSpace, line, b);
    if a == 5 || b == a || c == b || !Literal(TO, line, c) then None else
    var d := SpanEnd(IsSpace, line, c + 2);
    if d == c + 2 || !Literal(HEX, line, d) then None else
    var e := SpanEnd(IsHex, line, d + 2);
    if e == d + 2 then None else Some((DecValue(line[a..b]), HexValue(line[d + 2..e])))
  }

  /** The first match in a line. */
  function SearchLine(line: seq<byte>): Option<(nat, nat)> {
    if MatchHere(line).Some? then MatchHere(line) else if line == [] then None else SearchLine(line[1..])
  }

  /** What comes before the digits of the address. */
  function Opening(dec: seq<byte>): seq<byte> {
    WROTE + [SPACE] + dec + [SPACE] + TO + [SPACE] + HEX
  }

  ghost predicate AllOf(p: byte -> bool, s: seq<byte>) {
    forall i :: 0 <= i < |s| ==> p(s[i])
  }

  lemma {:induction false} SpanIs(p: byte -> bool, line: seq<byte>, i: nat, e: nat)
    requires i <= e <= |line| && (forall k :: i <= k < e ==> p(line[k])) && (e < |line| ==> !p(line[e]))
    ensures SpanEnd(p, line, i) == e
    decreases e - i
  {
    if i < e { SpanIs(p, line, i + 1, e); }
  }

  /** The line is laid out as a report with n digits of size, and m characters of it are there. */
  ghost predicate Laid(line: seq<byte>, n: nat, m: nat) {
    && n > 0 && m <= |line| && m <= 12 + n
    && (forall i :: 0 <= i < 5 && i < m ==> line[i] == WROTE[i])
    && (forall i :: 6 <= i < 6 + n && i < m ==> IsDigit(line[i]))
    && (forall i :: i in {5, 6 + n, 9 + n} && i < m ==> line[i] == SPACE)
    && (7 + n < m ==> line[7 + n] == TO[0]) && (8 + n < m ==> line[8 + n] == TO[1])
    && (10 + n < m ==> line[10 + n] == HEX[0]) && (11 + n < m ==> line[11 + n] == HEX[1])
  }

  lemma OpeningLaid(dec: seq<byte>, m: nat, rest: seq<byte>)
    requires dec != [] && AllOf(IsDigit, dec) && m <= |Opening(dec)|
    ensures |Opening(dec)| == 12 + |dec|
    ensures Laid(Opening(dec)[..m] + rest, |dec|, m)
    ensures m == |Opening(dec)| ==> (Opening(dec)[..m] + rest)[6..6 + |dec|] == dec
  {
    var o, n := Opening(dec), |dec|;
    assert forall i :: 0 <= i < n ==> o[6 + i] == dec[i];
    forall i | 6 <= i < 6 + n
      ensures IsDigit(o[i])
    {
      assert o[i] == dec[i - 6];
    }
  }

  /** A line laid out in full, and then the digits of the address up to e. */
  lemma MatchLaid(line: seq<byte>, n: nat, e: nat)
    requires Laid(line, n, 12 + n) && 12 + n < e <= |line|
    requires (forall i :: 12 + n <= i < e ==> IsHex(line[i])) && (e < |line| ==> !IsHex(line[e]))
    ensures MatchHere(line) == Some((DecValue(line[6..6 + n]), HexValue(line[12 + n..e])))
  {
    hide DecValue, HexValue, SpanEnd, Laid, Literal, IsHex;
    LaidLiterals(line, n);
    LaidSpans(line, n);
    SpanIs(IsHex, line, 12 + n, e);
  }

  lemma LaidLiterals(line: seq<byte>, n: nat)
    requires Laid(line, n, 12 + n)
    ensures n > 0 && Literal(WROTE, line, 0) && Literal(TO, line, 7 + n) && Literal(HEX, line, 10 + n)
  {
  }

  lemma LaidSpans(line: seq<byte>, n: nat)
    requires Laid(line, n, 12 + n)
    ensures SpanEnd(IsSpace, line, 5) == 6 && SpanEnd(IsDigit, line, 6) == 6 + n
    ensures SpanEnd(IsSpace, line, 6 + n) == 7 + n && SpanEnd(IsSpace, line, 9 + n) == 10 + n
  {
    hide SpanEnd;
    SpanIs(IsSpace, line, 5, 6);
    SpanIs(IsDigit, line, 6, 6 + n);
    SpanIs(IsSpace, line, 6 + n, 7 + n);
    SpanIs(IsSpace, line, 9 + n, 10 + n);
  }

  /** A line with the whole opening and at least one digit of the address reports what is there of it. */
  lemma OpeningMatches(dec: seq<byte>, hex: seq<byte>, rest: seq<byte>)
    requires dec != [] && AllOf(IsDigit, dec) && hex != [] && AllOf(IsHex, hex) && (rest != [] ==> !IsHex(rest[0]))
    ensures SearchLine(Opening(dec) + hex + rest) == Some((DecValue(dec), HexValue(hex)))
  {
    hide DecValue, HexValue, MatchHere, Opening, IsHex;
    var o, n := Opening(dec), |dec|;
    var line := o + hex + rest;
    OpeningLaid(dec, |o|, hex + rest);
    assert line == o[..|o|] + (hex + rest);
    assert forall k :: 0 <= k < |hex| ==> line[12 + n + k] == hex[k];
    forall i | 12 + n <= i < 12 + n + |hex|
      ensures IsHex(line[i])
    {
      assert line[i] == hex[i - 12 - n];
    }
    MatchLaid(line, n, 12 + n + |hex|);
    assert line[12 + n..12 + n + |hex|] == hex;
  }

  /** Until a digit of the address is there, there is no report. */
  lemma OpeningIsQuiet(dec: seq<byte>, m: nat)
    requires dec != [] && AllOf(IsDigit, dec) && m <= |Opening(dec)|
    ensures SearchLine(Opening(dec)[..m]) == None
  {
    hide MatchHere, DecValue;
    var line := Opening(dec)[..m];
    OpeningLaid(dec, m, []);
    assert line + [] == line;
    NoMatchYet(line, |dec|);
    if m > 0 {
      assert forall i :: 1 <= i < m ==> line[i] != 87;
      NoneWithout(line[1..]);
    }
  }

  lemma {:induction false} NoneWithout(line: seq<byte>)
    requires forall i :: 0 <= i < |line| ==> line[i] != 87
    ensures SearchLine(line) == None
  {
    assert MatchHere(line) == None by {
      if Literal(WROTE, line, 0) { assert line[0] == line[0..5][0] == 87; }
    }
    if line != [] { NoneWithout(line[1..]); }
  }

  lemma NoMatchYet(line: seq<byte>, n: nat)
    requires Laid(line, n, |line|)
    ensures MatchHere(line) == None
  {
    hide DecValue, HexValue, SpanEnd;
    var m := |line|;
    if m > 5 {
      SpanIs(IsSpace, line, 5, 6);
      if m <= 6 + n {
        SpanIs(IsDigit, line, 6, m);
        SpanIs(IsSpace, line, m, m);
      } else {
        SpanIs(IsDigit, line, 6, 6 + n);
        SpanIs(IsSpace, line, 6 + n, 7 + n);
        if m > 9 + n {
          SpanIs(IsSpace, line, 9 + n, 10 + n);
          if m == 12 + n { SpanIs(IsHex, line, m, m); }
        } else if m == 9 + n {
          SpanIs(IsSpace, line, m, m);
        }
      }
    } else if m == 5 {
      SpanIs(IsSpace, line, 5, 5);
    }
  }

  // ---- A report in several polls ----

  lemma {:induction false} LinesSplit(pre: seq<byte>, x: seq<byte>)
    requires pre == [] || pre[|pre| - 1] == NEWLINE
    ensures Lines(pre + x) == Lines(pre)[..|Lines(pre)| - 1] + Lines(x)
    decreases |x|
  {
    hide Lines, Extend;
    if x == [] {
      assert pre + x == pre;
      LinesOfWhole(pre);
    } else {
      var front, c := x[..|x| - 1], x[|x| - 1];
      LinesSplit(pre, front);
      assert pre + x == pre + front + [c] && x == front + [c];
      LinesNext(pre + front, c);
      LinesNext(front, c);
      ExtendLast(Lines(pre)[..|Lines(pre)| - 1], Lines(front), c);
    }
  }

  lemma LinesOfWhole(pre: seq<byte>)
    requires pre == [] || pre[|pre| - 1] == NEWLINE
    ensures Lines(pre) == Lines(pre)[..|Lines(pre)| - 1] + Lines([])
  {
    if pre != [] {
      var l := Lines(pre[..|pre| - 1]);
      assert Lines(pre) == l + [[]];
      assert (l + [[]])[..|l|] == l;
    }
  }

  /** One character more: a new line, or a longer last one. */
  function Extend(lines: seq<seq<byte>>, c: byte): seq<seq<byte>>
    requires lines != []
  {
    if c == NEWLINE then lines + [[]] else lines[..|lines| - 1] + [lines[|lines| - 1] + [c]]
  }

  lemma LinesNext(text: seq<byte>, c: byte)
    ensures Lines(text + [c]) == Extend(Lines(text), c)
  {
    assert (text + [c])[..|text|] == text;
  }

  lemma ExtendLast(a: seq<seq<byte>>, b: seq<seq<byte>>, c: byte)
    requires b != []
    ensures Extend(a + b, c) == a + Extend(b, c)
  {
    assert (a + b)[..|a + b| - 1] == a + b[..|b| - 1];
  }

  lemma {:induction false} FirstLine(x: seq<byte>, k: nat)
    requires k <= |x| && (forall i :: 0 <= i < k ==> x[i] != NEWLINE) && (k < |x| ==> x[k] == NEWLINE)
    ensures Lines(x)[0] == x[..k] && (|Lines(x)| == 1 <==> k == |x|)
    decreases |x|
  {
    if x == [] {
      assert x[..k] == [];
    } else {
      hide Lines;
      var front, c := x[..|x| - 1], x[|x| - 1];
      assert x == front + [c];
      LinesNext(front, c);
      if k < |x| {
        FirstLine(front, k);
        assert front[..k] == x[..k];
        ExtendFirst(Lines(front), c);
      } else {
        FirstLine(front, |front|);
        assert front[..|front|] == front && x[..k] == x;
        assert Lines(front) == [front];
        assert Extend([front], c) == [front + [c]];
      }
    }
  }

  lemma ExtendFirst(lines: seq<seq<byte>>, c: byte)
    requires lines != []
    ensures var l := Extend(lines, c); (|lines| > 1 || c == NEWLINE ==> |l| > 1 && l[0] == lines[0])
  {
  }

  lemma {:induction false} FirstReportConcat(find: Pattern, a: seq<seq<byte>>, b: seq<seq<byte>>)
    ensures FirstReport(find, a + b) ==
            if FirstReport(find, a).Some? then FirstReport(find, a) else FirstReport(find, b)
  {
    if a == [] {
      assert a + b == b;
    } else {
      FirstReportConcat(find, a[1..], b);
      assert (a + b)[0] == a[0] && (a + b)[1..] == a[1..] + b;
    }
  }

  /** Whole lines, in which nothing is taken for a report however they are cut. */
  ghost predicate Quiet(pre: seq<byte>) {
    (pre == [] || pre[|pre| - 1] == NEWLINE) && Silent(pre)
  }

  /** No beginning of the text has a report. */
  ghost predicate Silent(text: seq<byte>) {
    forall p :: 0 <= p <= |text| ==> FirstReport(SearchLine, Lines(text[..p])).None?
  }

  /** After quiet lines only what follows counts. */
  lemma AfterQuiet(pre: seq<byte>, x: seq<byte>)
    requires Quiet(pre)
    ensures FirstReport(SearchLine, Lines(pre + x)) == FirstReport(SearchLine, Lines(x))
  {
    hide Lines, FirstReport, SearchLine;
    LinesSplit(pre, x);
    var l := Lines(pre);
    var front := l[..|l| - 1];
    assert pre[..|pre|] == pre;
    assert l == front + [l[|l| - 1]];
    FirstReportConcat(SearchLine, front, [l[|l| - 1]]);
    FirstReportConcat(SearchLine, front, Lines(x));
  }

  /** A report as a device sends it: digits of size and address, and whatever comes after. */
  datatype Ack = Ack(pre: seq<byte>, dec: seq<byte>, hex: seq<byte>, rest: seq<byte>) {
    ghost predicate Valid() {
      && Quiet(pre) && dec != [] && AllOf(IsDigit, dec) && hex != [] && AllOf(IsHex, hex)
      && (rest != [] ==> !IsHex(rest[0]))
    }

    function Text(): seq<byte> {
      pre + (Opening(dec) + hex + rest)
    }

    /** Length of the text up to the digits of the address. */
    function Head(): nat {
      |pre| + |Opening(dec)|
    }

    function Report(): (nat, nat) {
      (DecValue(dec), HexValue(hex))
    }

    /** What is heard when the first n characters of the text are there. */
    function HeardAt(n: nat): Option<(nat, nat)> {
      if n <= Head() then None
      else if n < Head() + |hex| then Some((DecValue(dec), HexValue(hex[..n - Head()])))
      else Some(Report())
    }
  }

  lemma NoNewlines(dec: seq<byte>, hex: seq<byte>)
    requires dec != [] && AllOf(IsDigit, dec) && AllOf(IsHex, hex)
    ensures forall i :: 0 <= i < |Opening(dec) + hex| ==> (Opening(dec) + hex)[i] != NEWLINE
  {
    var o, n := Opening(dec), |dec|;
    assert forall i :: 0 <= i < n ==> o[6 + i] == dec[i];
    forall i | 0 <= i < |o|
      ensures o[i] != NEWLINE
    {
      if 6 <= i < 6 + n { assert o[i] == dec[i - 6]; }
    }
  }

  /** Length of the first line. */
  function LineLength(x: seq<byte>): (k: nat)
    ensures k <= |x| && (forall i :: 0 <= i < k ==> x[i] != NEWLINE) && (k < |x| ==> x[k] == NEWLINE)
  {
    if x == [] || x[0] == NEWLINE then 0 else 1 + LineLength(x[1..])
  }

  lemma LineAfter(o: seq<byte>, more: seq<byte>, k: nat)
    requires (forall i :: 0 <= i < |o| ==> o[i] != NEWLINE) && k <= |more|
    requires (forall i :: 0 <= i < k ==> more[i] != NEWLINE) && (k < |more| ==> more[k] == NEWLINE)
    ensures var x := o + more;
            && (forall i :: 0 <= i < |o| + k ==> x[i] != NEWLINE) && (|o| + k < |x| ==> x[|o| + k] == NEWLINE)
            && x[..|o| + k] == o + more[..k]
  {
  }

  /** A line that begins with opening and digits, with more text after them. */
  lemma HeardLine(dec: seq<byte>, hex: seq<byte>, more: seq<byte>)
    requires dec != [] && AllOf(IsDigit, dec) && hex != [] && AllOf(IsHex, hex) && (more != [] ==> !IsHex(more[0]))
    ensures FirstReport(SearchLine, Lines(Opening(dec) + hex + more)) == Some((DecValue(dec), HexValue(hex)))
  {
    hide Lines, SearchLine, DecValue, HexValue, Opening, IsHex, LineLength;
    var o, k := Opening(dec) + hex, LineLength(more);
    var x := o + more;
    NoNewlines(dec, hex);
    LineAfter(o, more, k);
    FirstLine(x, |o| + k);
    assert x[..|o| + k] == Opening(dec) + hex + more[..k];
    OpeningMatches(dec, hex, more[..k]);
  }

  lemma HeardOpening(dec: seq<byte>, m: nat)
    requires dec != [] && AllOf(IsDigit, dec) && m <= |Opening(dec)|
    ensures FirstReport(SearchLine, Lines(Opening(dec)[..m])) == None
  {
    hide SearchLine, Opening;
    var x := Opening(dec)[..m];
    NoNewlines(dec, []);
    assert Opening(dec) + [] == Opening(dec);
    FirstLine(x, m);
    assert x[..m] == x;
    OpeningIsQuiet(dec, m);
    assert Lines(x) == [x];
  }

  lemma HeardOfPrefix(a: Ack, n: nat)
    requires a.Valid() && n <= |a.Text()|
    ensures FirstReport(SearchLine, Lines(a.Text()[..n])) == a.HeardAt(n)
  {
    hide Lines, FirstReport, SearchLine, DecValue, HexValue, Opening, IsHex;
    var o, h := Opening(a.dec), a.Head();
    if n <= |a.pre| {
      assert a.Text()[..n] == a.pre[..n];
    } else {
      var k := n - |a.pre|;
      var x := (o + a.hex + a.rest)[..k];
      assert a.Text()[..n] == a.pre + x;
      AfterQuiet(a.pre, x);
      if n <= h {
        assert x == o[..k];
        HeardOpening(a.dec, k);
      } else if n < h + |a.hex| {
        var hex := a.hex[..n - h];
        assert x == o + hex + [];
        HeardLine(a.dec, hex, []);
      } else {
        var more := a.rest[..n - h - |a.hex|];
        assert x == o + a.hex + more;
        HeardLine(a.dec, a.hex, more);
      }
    }
  }

  /** Characters there at the first poll by which more than m have come; `got` have come before. */
  function Reach(got: nat, polls: seq<seq<byte>>, m: nat): nat
    decreases |polls|
  {
    if polls == [] || got > m then got else Reach(got + |polls[0]|, polls[1..], m)
  }

  function Concat(polls: seq<seq<byte>>): seq<byte> {
    if polls == [] then [] else polls[0] + Concat(polls[1..])
  }

  lemma {:induction false} HeardInPolls(a: Ack, polls: seq<seq<byte>>, got: nat)
    requires a.Valid() && got <= a.Head() && got <= |a.Text()| && Concat(polls) <= a.Text()[got..]
    ensures Heard(SearchLine, a.Text()[..got], polls) == a.HeardAt(Reach(got, polls, a.Head()))
    decreases |polls|
  {
    hide Lines, FirstReport, SearchLine, Ack.Text, Ack.Head;
    if polls != [] {
      var t, next := a.Text(), got + |polls[0]|;
      assert Concat(polls)[..|polls[0]|] == polls[0] && Concat(polls)[|polls[0]|..] == Concat(polls[1..]);
      assert t[..got] + polls[0] == t[..next] && Concat(polls[1..]) <= t[next..];
      HeardOfPrefix(a, next);
      if next <= a.Head() {
        HeardInPolls(a, polls[1..], next);
      } else {
        assert polls[0] != [];
        assert Reach(next, polls[1..], a.Head()) == next;
      }
    }
  }

  lemma {:induction false} HexGrows(hex: seq<byte>, d: nat)
    requires d < |hex|
    ensures HexValue(hex) >= 16 * HexValue(hex[..d])
  {
    var front := hex[..|hex| - 1];
    if d < |front| {
      HexGrows(front, d);
      assert front[..d] == hex[..d];
    } else {
      assert front == hex[..d];
    }
  }

  lemma {:induction false} AllCome(got: nat, polls: seq<seq<byte>>, m: nat)
    requires got + |Concat(polls)| > m
    ensures Reach(got, polls, m) > m
    decreases |polls|
  {
    if polls != [] && got <= m { AllCome(got + |polls[0]|, polls[1..], m); }
  }

  /**
   A report is taken for what it says if and only if the poll that brings the first digit of its address brings
   all of them (or they are all zero): cut inside the address it reads as a mismatch.
   */
  lemma AckUnderstoodIff(a: Ack, polls: seq<seq<byte>>)
    requires a.Valid() && Concat(polls) == a.Text()
    ensures Heard(SearchLine, [], polls) == Some(a.Report()) <==>
            Reach(0, polls, a.Head()) >= a.Head() + |a.hex| || HexValue(a.hex) == 0
  {
    hide Heard, DecValue, HexValue, Opening, SearchLine, Quiet;
    var t, n := a.Text(), Reach(0, polls, a.Head());
    assert t[..0] == [] && t[0..] == t;
    HeardInPolls(a, polls, 0);
    AllCome(0, polls, a.Head());
    if n < a.Head() + |a.hex| {
      HexGrows(a.hex, n - a.Head());
    }
  }

  /** The address cut after its first digit: a correct report is not taken as one. */
  lemma AckCanBeCut()
    ensures var dec, hex := [50, 53, 54], [49, 50];
            var polls := [Opening(dec) + hex[..1], hex[1..] + [13, 10]];
            && DecValue(dec) == 256 && HexValue(hex) == 0x12
            && Heard(SearchLine, [], polls) == Some((256, 1))
  {
    var dec: seq<byte>, hex: seq<byte> := [50, 53, 54], [49, 50];
    var a := Ack([], dec, hex, [13, 10]);
    var polls := [Opening(dec) + hex[..1], hex[1..] + [13, 10]];
    ExampleValues(dec, hex);
    assert Quiet([]) by { NothingIsQuiet(); }
    assert Concat(polls) == a.Text() by {
      assert Concat(polls[1..][1..]) == [];
      assert Concat(polls[1..]) == hex[1..] + [13, 10];
    }
    hide Heard, SearchLine, Quiet, DecValue, HexValue, Opening;
    assert a.Text()[..0] == [] && a.Text()[0..] == a.Text();
    HeardInPolls(a, polls, 0);
    assert Reach(|polls[0]|, polls[1..], a.Head()) == |polls[0]|;
    assert hex[..1] == [49];
  }

  lemma NothingIsQuiet()
    ensures Quiet([])
  {
    assert Lines([]) == [[]];
    var nothing: seq<byte> := [];
    assert nothing[..0] == [];
    NoneWithout([]);
  }

  lemma ExampleValues(dec: seq<byte>, hex: seq<byte>)
    requires dec == [50, 53, 54] && hex == [49, 50]
    ensures DecValue(dec) == 256 && HexValue(hex) == 0x12 && HexValue([49]) == 1
  {
    assert dec[..2] == [50, 53] && dec[..2][..1] == [50] && hex[..1] == [49];
    var one: seq<byte> := [49];
    assert one[..0] == [] && HexValue(one) == 1;
    assert DecValue([50]) == 2 && DecValue([50, 53]) == 25;
  }

  // ---- The device ----

  datatype Outcome = Polls(chunks: seq<seq<byte>>) | Fault

  /** Any behaviour: what follows after the blocks sent so far, by their numbers in the file. */
  datatype Device = Device(find: Pattern, reply: seq<nat> -> Outcome)

  /** Report heard after the last of the blocks sent. */
  function Report(d: Device, history: seq<nat>): Option<(nat, nat)> {
    match d.reply(history)
    case Fault => None
    case Polls(chunks) => Heard(d.find, [], chunks)
  }

  predicate Acked(d: Device, history: seq<nat>, info: BlockInfo) {
    Report(d, history) == Some((info.payloadSize, info.address))
  }

  // ---- One block ----

  datatype Transfer = Transfer(success: bool, attempts: nat)

  function Times(i: nat, n: nat): (s: seq<nat>)
    ensures |s| == n && forall k :: 0 <= k < n ==> s[k] == i
  {
    seq(n, _ => i)
  }

  /** The transfer succeeds at the first acknowledged attempt of the `times` allowed. */
  ghost predicate Transferred(d: Device, i: nat, info: BlockInfo, times: nat, history: seq<nat>, t: Transfer) {
    && 0 < t.attempts <= times
    && (forall k :: 0 < k < t.attempts ==> !Acked(d, history + Times(i, k), info))
    && (t.success <==> Acked(d, history + Times(i, t.attempts), info))
    && (!t.success ==> t.attempts == times)
  }

  method SendBlock(d: Device, i: nat, info: BlockInfo, times: nat, history: seq<nat>)
    returns (t: Transfer, sent: seq<nat>)
    requires times > 0
    ensures Transferred(d, i, info, times, history, t)
    ensures sent == history + Times(i, t.attempts)
  {
    hide Heard;
    sent := history;
    for attempt := 1 to times + 1
      invariant sent == history + Times(i, attempt - 1)
      invariant forall k :: 0 < k < attempt ==> !Acked(d, history + Times(i, k), info)
    {
      sent := sent + [i];
      assert sent == history + Times(i, attempt);
      var outcome := d.reply(sent);
      match outcome {
        case Fault =>
          if attempt == times { return Transfer(false, attempt), sent; }
        case Polls(chunks) =>
          var ok := WaitForResponse(d.find, chunks, info.payloadSize, info.address);
          if ok { return Transfer(true, attempt), sent; }
      }
    }
    t := Transfer(false, times);
  }

  // ---- The file ----

  /** Progress after the blocks examined so far. */
  datatype Progress = Progress(examined: nat, succeeded: nat, failed: map<nat, Transfer>, retries: nat,
                               history: seq<nat>)

  function Limit(limit: nat): nat {
    if limit == 0 then 1 else limit
  }

  /** Sum of attempts of the failed blocks below n. */
  function Spent(failed: map<nat, Transfer>, n: nat): nat {
    if n == 0 then 0 else Spent(failed, n - 1) + if n - 1 in failed then failed[n - 1].attempts else 0
  }

  function Count(s: seq<nat>, i: nat): nat {
    multiset(s)[i]
  }

  /** Every block examined is one of the two, and every send is accounted for. */
  ghost predicate Accounted(p: Progress, times: nat) {
    && (forall i :: i in p.failed ==> i < p.examined && !p.failed[i].success)
    && p.succeeded + |p.failed| == p.examined
    && |p.history| == p.succeeded + p.retries + Spent(p.failed, p.examined)
    && (forall i :: i in p.history ==> i < p.examined)
    && (forall i: nat :: Count(p.history, i) <= times)
    && (forall j, k :: 0 <= j < k < |p.history| ==> p.history[j] <= p.history[k])
  }

  /** A block counted as sent was acknowledged, right after a send of that block. */
  ghost predicate Confirmed(d: Device, blocks: seq<seq<byte>>, p: Progress) {
    forall i :: 0 <= i < p.examined && i !in p.failed ==> AckedWithin(d, blocks, p.history, i)
  }

  ghost predicate AckedAt(d: Device, blocks: seq<seq<byte>>, history: seq<nat>, i: nat, n: nat) {
    && i < |blocks| && ParseBlock(blocks[i]).Some?
    && 0 < n <= |history| && history[n - 1] == i
    && Acked(d, history[..n], ParseBlock(blocks[i]).value)
  }

  ghost predicate AckedWithin(d: Device, blocks: seq<seq<byte>>, history: seq<nat>, i: nat) {
    exists n: nat :: AckedAt(d, blocks, history, i, n)
  }

  lemma AckedLater(d: Device, blocks: seq<seq<byte>>, history: seq<nat>, more: seq<nat>, i: nat)
    requires AckedWithin(d, blocks, history, i)
    ensures AckedWithin(d, blocks, history + more, i)
  {
    hide ParseBlock, Acked;
    var n: nat :| AckedAt(d, blocks, history, i, n);
    assert (history + more)[..n] == history[..n];
    assert AckedAt(d, blocks, history + more, i, n);
  }

  lemma CountStep(history: seq<nat>, examined: nat, times: nat, n: nat)
    requires forall i :: i in history ==> i < examined
    requires forall i: nat :: Count(history, i) <= times
    requires n <= times
    ensures forall i: nat :: Count(history + Times(examined, n), i) <= times
  {
    var more := Times(examined, n);
    forall i: nat
      ensures Count(history + more, i) <= times
    {
      assert multiset(history + more) == multiset(history) + multiset(more);
      TimesCount(examined, n, i);
      assert Count(history, i) <= times;
      if i == examined { NotCounted(history, i); }
    }
  }

  lemma NotCounted(s: seq<nat>, i: nat)
    requires i !in s
    ensures Count(s, i) == 0
  {
    assert i in multiset(s) <==> i in s;
  }

  lemma {:induction false} TimesCount(i: nat, n: nat, j: nat)
    ensures multiset(Times(i, n))[j] == if i == j then n else 0
  {
    if n > 0 {
      TimesCount(i, n - 1, j);
      assert Times(i, n) == Times(i, n - 1) + [i];
    }
  }

  lemma {:induction false} SpentSame(f: map<nat, Transfer>, g: map<nat, Transfer>, n: nat)
    requires forall i :: 0 <= i < n ==> (i in f <==> i in g) && (i in f ==> f[i] == g[i])
    ensures Spent(f, n) == Spent(g, n)
  {
    if n > 0 { SpentSame(f, g, n - 1); }
  }

  /** One more block: t says how it went, and n how often it was sent. */
  function Examine(p: Progress, t: Transfer): Progress {
    Progress(p.examined + 1,
             if t.success then p.succeeded + 1 else p.succeeded,
             if t.success then p.failed else p.failed[p.examined := t],
             if t.success && t.attempts > 1 then p.retries + t.attempts - 1 else p.retries,
             p.history + Times(p.examined, t.attempts))
  }

  lemma ExamineAccounted(p: Progress, t: Transfer, times: nat)
    requires Accounted(p, times) && t.attempts <= times && (t.success ==> t.attempts > 0)
    ensures Accounted(Examine(p, t), times)
  {
    hide Count, Times;
    var q := Examine(p, t);
    CountStep(p.history, p.examined, times, t.attempts);
    SpentSame(p.failed, q.failed, p.examined);
    FailedGrows(p, t, times);
    AppendOrdered(p.history, p.examined, t.attempts);
  }

  lemma AppendOrdered(h: seq<nat>, i: nat, n: nat)
    requires forall k :: k in h ==> k < i
    requires forall j, k :: 0 <= j < k < |h| ==> h[j] <= h[k]
    ensures var g := h + Times(i, n);
            (forall k :: k in g ==> k < i + 1) && (forall j, k :: 0 <= j < k < |g| ==> g[j] <= g[k])
  {
    hide Times;
    var g := h + Times(i, n);
    assert forall k :: 0 <= k < |h| ==> g[k] == h[k] && h[k] in h;
    assert forall k :: |h| <= k < |g| ==> g[k] == i;
  }

  lemma ExamineConfirmed(d: Device, blocks: seq<seq<byte>>, p: Progress, t: Transfer)
    requires Confirmed(d, blocks, p) && p.examined < |blocks|
    requires t.success ==>
               && t.attempts > 0 && ParseBlock(blocks[p.examined]).Some?
               && Acked(d, p.history + Times(p.examined, t.attempts), ParseBlock(blocks[p.examined]).value)
    ensures Confirmed(d, blocks, Examine(p, t))
  {
    hide ParseBlock, Acked, AckedWithin;
    var q := Examine(p, t);
    forall i | 0 <= i < q.examined && i !in q.failed
      ensures AckedWithin(d, blocks, q.history, i)
    {
      if i < p.examined {
        AckedLater(d, blocks, p.history, Times(p.examined, t.attempts), i);
      } else {
        assert q.history[..|q.history|] == q.history;
        AckedHere(d, blocks, q.history, i);
      }
    }
  }

  lemma AckedHere(d: Device, blocks: seq<seq<byte>>, history: seq<nat>, i: nat)
    requires AckedAt(d, blocks, history, i, |history|)
    ensures AckedWithin(d, blocks, history, i)
  {
  }

  /** The block loop of send_uf2_file. */
  method SendFile(d: Device, blocks: seq<seq<byte>>, limit: nat, times: nat) returns (r: Result<Progress>)
    ensures r.Err? ==> times == 0
    ensures r.Ok? ==>
              var p := r.value;
              && p.examined <= |blocks|
              && Accounted(p, times) && Confirmed(d, blocks, p)
              && |p.failed| <= Limit(limit)
              && (p.examined < |blocks| ==> |p.failed| == Limit(limit))
              && (|p.failed| == Limit(limit) ==> p.examined > 0 && p.examined - 1 in p.failed)
  {
    hide ParseBlock, Accounted, Confirmed, Examine;
    var p := Progress(0, 0, map[], 0, []);
    NothingSent(d, blocks, times);
    for i := 0 to |blocks|
      invariant p.examined == i
      invariant Accounted(p, times) && Confirmed(d, blocks, p)
      invariant |p.failed| < Limit(limit)
    {
      if ParseBlock(blocks[i]).Some? && times == 0 { return Err("error_msg referenced before assignment"); }
      var ok;
      ok, p := ExamineNext(d, blocks, p, times);
      if !ok && |p.failed| >= limit {
        return Ok(p);
      }
    }
    r := Ok(p);
  }

  /** Parse and send one block, and book the result. */
  method ExamineNext(d: Device, blocks: seq<seq<byte>>, p: Progress, times: nat) returns (ok: bool, q: Progress)
    requires p.examined < |blocks| && (ParseBlock(blocks[p.examined]).Some? ==> times > 0)
    requires Accounted(p, times) && Confirmed(d, blocks, p)
    ensures Accounted(q, times) && Confirmed(d, blocks, q) && q.examined == p.examined + 1
    ensures |q.failed| == |p.failed| + (if ok then 0 else 1) && (!ok ==> p.examined in q.failed)
  {
    hide ParseBlock, Accounted, Confirmed, Acked;
    var info := ParseBlock(blocks[p.examined]);
    var t := Transfer(false, 0);
    if info.Some? {
      var sent;
      t, sent := SendBlock(d, p.examined, info.value, times, p.history);
    }
    ExamineAccounted(p, t, times);
    ExamineConfirmed(d, blocks, p, t);
    FailedGrows(p, t, times);
    ok, q := t.success, Examine(p, t);
  }

  lemma NothingSent(d: Device, blocks: seq<seq<byte>>, times: nat)
    ensures Accounted(Progress(0, 0, map[], 0, []), times) && Confirmed(d, blocks, Progress(0, 0, map[], 0, []))
  {
  }

  lemma FailedGrows(p: Progress, t: Transfer, times: nat)
    requires Accounted(p, times)
    ensures |Examine(p, t).failed| == |p.failed| + if t.success then 0 else 1
  {
    hide Count;
    var q := Examine(p, t);
    assert q.failed.Keys == if t.success then p.failed.Keys else p.failed.Keys + {p.examined};
    assert |q.failed| == |q.failed.Keys| && |p.failed| == |p.failed.Keys|;
  }

  // ---- Reported success ----

  /**
   `wrote` gives the blocks written after a history of sends; it only grows. If what is heard names a block of
   the file, such a block was written; what is heard may also name none, as when a report is cut short.
   */
  ghost predicate Honest(d: Device, blocks: seq<seq<byte>>, wrote: seq<nat> -> set<nat>) {
    && (forall h, more :: wrote(h) <= wrote(h + more))
    && (forall h :: Report(d, h).Some? && NamesSome(blocks, Report(d, h).value) ==>
                      exists i :: i in wrote(h) && Names(blocks, i, Report(d, h).value))
  }

  ghost predicate NamesSome(blocks: seq<seq<byte>>, report: (nat, nat)) {
    exists i: nat :: Names(blocks, i, report)
  }

  ghost predicate Names(blocks: seq<seq<byte>>, i: nat, report: (nat, nat)) {
    i < |blocks| && ParseBlock(blocks[i]).Some? &&
    report == (ParseBlock(blocks[i]).value.payloadSize, ParseBlock(blocks[i]).value.address)
  }

  ghost predicate DistinctTargets(blocks: seq<seq<byte>>) {
    forall i, j, report :: Names(blocks, i, report) && Names(blocks, j, report) ==> i == j
  }

  /** If acknowledgements follow writes and no two blocks look alike, a run without failures wrote every block. */
  lemma SuccessMeansWritten(d: Device, blocks: seq<seq<byte>>, p: Progress, wrote: seq<nat> -> set<nat>)
    requires Honest(d, blocks, wrote) && DistinctTargets(blocks)
    requires Confirmed(d, blocks, p) && p.examined == |blocks| && p.failed == map[]
    ensures forall i :: 0 <= i < |blocks| ==> i in wrote(p.history)
  {
    hide ParseBlock, Report;
    forall i | 0 <= i < |blocks|
      ensures i in wrote(p.history)
    {
      assert AckedWithin(d, blocks, p.history, i);
      var n: nat :| AckedAt(d, blocks, p.history, i, n);
      var h := p.history[..n];
      var report := Report(d, h).value;
      assert Names(blocks, i, report);
      var j :| j in wrote(h) && Names(blocks, j, report);
      assert p.history == h + p.history[n..];
    }
  }

  // ---- Devices that print reports of what they wrote ----

  /** A number without its last k hexadecimal digits. */
  function Cut(v: nat, k: nat): nat {
    if k == 0 then v else Cut(v / 16, k - 1)
  }

  lemma HexStep(hex: seq<byte>)
    requires hex != []
    ensures HexValue(hex) / 16 == HexValue(hex[..|hex| - 1])
  {
    var n := |hex| - 1;
    DivUnique(HexValue(hex), 16, HexValue(hex[..n]), HexDigit(hex[n]));
  }

  lemma {:induction false} HexCut(hex: seq<byte>, d: nat)
    requires d <= |hex|
    ensures HexValue(hex[..d]) == Cut(HexValue(hex), |hex| - d)
  {
    if d == |hex| {
      assert hex[..d] == hex;
    } else {
      hide HexValue;
      var front := hex[..|hex| - 1];
      HexCut(front, d);
      HexStep(hex);
      assert front[..d] == hex[..d];
    }
  }

  lemma {:induction false} SilentPolls(text: seq<byte>, polls: seq<seq<byte>>, got: nat)
    requires Silent(text) && got <= |text| && text[got..] == Concat(polls)
    ensures Heard(SearchLine, text[..got], polls) == None
    decreases |polls|
  {
    hide Lines, FirstReport, SearchLine;
    if polls != [] {
      var next := got + |polls[0]|;
      assert Concat(polls)[..|polls[0]|] == polls[0] && Concat(polls)[|polls[0]|..] == Concat(polls[1..]);
      assert text[..got] + polls[0] == text[..next] && text[next..] == Concat(polls[1..]);
      SilentPolls(text, polls[1..], next);
    }
  }

  /** What comes back: no report, or all or the beginning of a report of a block written. */
  ghost predicate Truth(o: Outcome, blocks: seq<seq<byte>>, written: set<nat>) {
    || o.Fault?
    || Silent(Concat(o.chunks))
    || exists a: Ack, i: nat ::
         a.Valid() && Concat(o.chunks) <= a.Text() && i in written && Names(blocks, i, a.Report())
  }

  /** No block's address, with digits cut off at its end, is the address of another block of the same size. */
  ghost predicate Uncut(blocks: seq<seq<byte>>) {
    forall i: nat, j: nat, size: nat, addr: nat, k: nat ::
      Names(blocks, i, (size, addr)) && Names(blocks, j, (size, Cut(addr, k))) ==> Cut(addr, k) == addr
  }

  /** What is heard of a report, if it names a block at all, names the block reported. */
  lemma HeardNames(blocks: seq<seq<byte>>, a: Ack, chunks: seq<seq<byte>>, i: nat)
    requires Uncut(blocks) && a.Valid() && Concat(chunks) <= a.Text() && Names(blocks, i, a.Report())
    ensures var r := Heard(SearchLine, [], chunks);
            r.Some? && NamesSome(blocks, r.value) ==> r.value == a.Report()
  {
    hide Heard, SearchLine, Quiet, ParseBlock, DecValue, HexValue, Opening;
    assert a.Text()[..0] == [] && a.Text()[0..] == a.Text();
    HeardInPolls(a, chunks, 0);
    var n, r := Reach(0, chunks, a.Head()), Heard(SearchLine, [], chunks);
    if r.Some? && NamesSome(blocks, r.value) && n < a.Head() + |a.hex| {
      HexCut(a.hex, n - a.Head());
      var j: nat :| Names(blocks, j, r.value);
      assert Names(blocks, i, (DecValue(a.dec), HexValue(a.hex)));
      assert Names(blocks, j, (DecValue(a.dec), Cut(HexValue(a.hex), |a.hex| - (n - a.Head()))));
    }
  }

  /** A device that prints reports only of blocks it wrote is honest, however its text is divided and cut. */
  lemma TruthfulIsHonest(reply: seq<nat> -> Outcome, blocks: seq<seq<byte>>, wrote: seq<nat> -> set<nat>)
    requires Uncut(blocks) && (forall h, more :: wrote(h) <= wrote(h + more))
    requires forall h :: Truth(reply(h), blocks, wrote(h))
    ensures Honest(Device(SearchLine, reply), blocks, wrote)
  {
    hide Uncut, Heard, SearchLine, Silent, Names, ParseBlock;
    var d := Device(SearchLine, reply);
    forall h | Report(d, h).Some? && NamesSome(blocks, Report(d, h).value)
      ensures exists i :: i in wrote(h) && Names(blocks, i, Report(d, h).value)
    {
      var o := reply(h);
      assert Truth(o, blocks, wrote(h));
      if Silent(Concat(o.chunks)) {
        var t := Concat(o.chunks);
        assert t[..0] == [] && t[0..] == t;
        SilentPolls(t, o.chunks, 0);
        assert false;
      }
      var a: Ack, i: nat :|
        a.Valid() && Concat(o.chunks) <= a.Text() && i in wrote(h) && Names(blocks, i, a.Report());
      HeardNames(blocks, a, o.chunks, i);
    }
  }
}
