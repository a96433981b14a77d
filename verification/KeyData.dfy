/** Reassembly of a key's value from the virtual pages it spans, and its trailing checksum. */
module KeyData {
  import opened Bits
  import opened Bytes
  import opened Image
  import opened Murmur

  /** A decrypted page: journal number and payload. */
  type Plain = s: seq<byte> | |s| == 4 + VPAGE_SIZE witness seq(4 + VPAGE_SIZE, _ => 0)

  datatype Volume = Volume(v2p: map<nat, nat>, disk: seq<byte>, open: seq<byte> -> Result<Plain>)

  datatype Page = Unmapped | Broken | Opens(plain: Plain)

  /** The virtual page at a page-aligned address. */
  function PageAt(vol: Volume, base: nat): Page {
    if base !in vol.v2p then Unmapped else
    match vol.open(Slice(vol.disk, vol.v2p[base], vol.v2p[base] + PAGE_SIZE))
    case Err(_) => Broken
    case Ok(p) => Opens(p)
  }

  /** The q-th virtual page. */
  function Nth(vol: Volume, q: nat): Page {
    PageAt(vol, q * VPAGE_SIZE)
  }

  /** The byte at a virtual address, 0 where nothing can be read. */
  function VirtualByte(vol: Volume, va: nat): byte {
    match Nth(vol, va / VPAGE_SIZE)
    case Opens(p) => p[4 + va % VPAGE_SIZE]
    case _ => 0
  }

  /** The virtual bytes [va, va + n). */
  function Range(vol: Volume, va: nat, n: nat): (s: seq<byte>)
    ensures |s| == n
    ensures forall i :: 0 <= i < n ==> s[i] == VirtualByte(vol, va + i)
  {
    if n == 0 then [] else Range(vol, va, n - 1) + [VirtualByte(vol, va + n - 1)]
  }

  /** The loop: what is appended from page address `at` on. A page that does not open is passed over. */
  function ReadFrom(vol: Volume, end: nat, at: nat, remaining: nat, readStart: nat): Result<seq<byte>>
    requires readStart < VPAGE_SIZE
    decreases if at < end then end - at else 0
  {
    if at >= end then Ok([]) else
    match Nth(vol, at / VPAGE_SIZE)
    case Unmapped => Err("missing data allocation")
    case Broken => ReadFrom(vol, end, at + VPAGE_SIZE, remaining, readStart)
    case Opens(p) =>
      var readEnd := if readStart + remaining > VPAGE_SIZE then VPAGE_SIZE else readStart + remaining;
      var n := readEnd - readStart;
      Prepend(p[4 + readStart..4 + readEnd],
              ReadFrom(vol, end, at + VPAGE_SIZE, remaining - n, (readStart + n) % VPAGE_SIZE))
  }

  function Value(vol: Volume, start: nat, len: nat): Result<seq<byte>> {
    ReadFrom(vol, start + len, start, len, start % VPAGE_SIZE)
  }

  /** Pages visited: enough for len bytes, were they page-aligned. */
  function PageCount(len: nat): nat {
    (len + VPAGE_SIZE - 1) / VPAGE_SIZE
  }

  ghost predicate AllOpen(vol: Volume, q: nat, n: nat) {
    forall j :: q <= j < q + n ==> Nth(vol, j).Opens?
  }

  /** How many bytes the visited pages can give. */
  function Reach(start: nat, len: nat): nat {
    var room := PageCount(len) * VPAGE_SIZE - start % VPAGE_SIZE;
    if len == 0 then 0 else if len <= room then len else room
  }

  lemma RangeConcat(vol: Volume, va: nat, m: nat, n: nat)
    ensures Range(vol, va, m) + Range(vol, va + m, n) == Range(vol, va, m + n)
  {
    hide Range, VirtualByte;
    var r, s := Range(vol, va, m) + Range(vol, va + m, n), Range(vol, va, m + n);
    forall i | 0 <= i < m + n
      ensures r[i] == s[i]
    {
      if i >= m { assert va + i == va + m + (i - m); }
    }
  }

  /** Part of one page is a range of virtual bytes. */
  lemma PagePart(vol: Volume, q: nat, from: nat, to: nat)
    requires from <= to <= VPAGE_SIZE && Nth(vol, q).Opens?
    ensures Nth(vol, q).plain[4 + from..4 + to] == Range(vol, q * VPAGE_SIZE + from, to - from)
  {
    hide Nth, Range;
    var r, s := Nth(vol, q).plain[4 + from..4 + to], Range(vol, q * VPAGE_SIZE + from, to - from);
    forall i | 0 <= i < to - from
      ensures r[i] == s[i]
    {
      var va := q * VPAGE_SIZE + from + i;
      assert va / VPAGE_SIZE == q && va % VPAGE_SIZE == from + i;
    }
  }

  /** One page's contribution. */
  lemma ReadOpened(vol: Volume, end: nat, at: nat, remaining: nat, from: nat, to: nat)
    requires at < end && from < VPAGE_SIZE && Nth(vol, at / VPAGE_SIZE).Opens?
    requires to == if from + remaining > VPAGE_SIZE then VPAGE_SIZE else from + remaining
    ensures ReadFrom(vol, end, at, remaining, from) ==
            Prepend(Range(vol, at / VPAGE_SIZE * VPAGE_SIZE + from, to - from),
                    ReadFrom(vol, end, at + VPAGE_SIZE, remaining - (to - from), to % VPAGE_SIZE))
  {
    hide Nth, Range;
    PagePart(vol, at / VPAGE_SIZE, from, to);
  }

  /** n more pages, read from their beginnings. */
  lemma {:induction false} AlignedRead(vol: Volume, end: nat, at: nat, q: nat, n: nat, remaining: nat)
    requires at / VPAGE_SIZE == q && AllOpen(vol, q, n)
    requires n > 0 && (n - 1) * VPAGE_SIZE < end - at <= n * VPAGE_SIZE
    requires (n - 1) * VPAGE_SIZE < remaining
    ensures var m := if remaining < n * VPAGE_SIZE then remaining else n * VPAGE_SIZE;
            ReadFrom(vol, end, at, remaining, 0) == Ok(Range(vol, q * VPAGE_SIZE, m))
    decreases n
  {
    hide Nth, Range, ReadFrom;
    var m := if remaining < n * VPAGE_SIZE then remaining else n * VPAGE_SIZE;
    var to := if remaining < VPAGE_SIZE then remaining else VPAGE_SIZE;
    ReadOpened(vol, end, at, remaining, 0, to);
    if n == 1 {
      ReadDone(vol, end, at + VPAGE_SIZE, remaining - to, to % VPAGE_SIZE);
      assert Range(vol, q * VPAGE_SIZE, m) + [] == Range(vol, q * VPAGE_SIZE, m);
    } else {
      AlignedRead(vol, end, at + VPAGE_SIZE, q + 1, n - 1, remaining - VPAGE_SIZE);
      RangeConcat(vol, q * VPAGE_SIZE, VPAGE_SIZE, m - VPAGE_SIZE);
    }
  }

  lemma ReadDone(vol: Volume, end: nat, at: nat, remaining: nat, readStart: nat)
    requires at >= end && readStart < VPAGE_SIZE
    ensures ReadFrom(vol, end, at, remaining, readStart) == Ok([])
  {
  }

  /** When its pages open, the value is the longest prefix of its range that the visited pages reach. */
  lemma ValueIsPrefix(vol: Volume, start: nat, len: nat)
    requires AllOpen(vol, start / VPAGE_SIZE, PageCount(len))
    ensures Value(vol, start, len) == Ok(Range(vol, start, Reach(start, len)))
  {
    hide Nth, Range, ReadFrom;
    var q, s, n := start / VPAGE_SIZE, start % VPAGE_SIZE, PageCount(len);
    if len == 0 {
      ReadDone(vol, start, start, 0, s);
      assert Range(vol, start, 0) == [];
    } else {
      var to := if s + len > VPAGE_SIZE then VPAGE_SIZE else s + len;
      ReadOpened(vol, start + len, start, len, s, to);
      var got := to - s;
      if n == 1 {
        ReadDone(vol, start + len, start + VPAGE_SIZE, len - got, to % VPAGE_SIZE);
        assert Range(vol, start, got) + [] == Range(vol, start, got);
      } else {
        AlignedRead(vol, start + len, start + VPAGE_SIZE, q + 1, n - 1, len - got);
        RangeConcat(vol, start, got, Reach(start, len) - got);
      }
    }
  }

  /** The value is complete if and only if a page-unaligned start leaves room for it. */
  lemma CompleteIff(vol: Volume, start: nat, len: nat)
    requires AllOpen(vol, start / VPAGE_SIZE, PageCount(len))
    ensures Value(vol, start, len) == Ok(Range(vol, start, len)) <==>
            len == 0 || start % VPAGE_SIZE + len <= VPAGE_SIZE * PageCount(len)
  {
    hide Range, Nth, Value, AllOpen;
    ValueIsPrefix(vol, start, len);
  }

  // ---- Pages that do not open ----

  /** The payloads of those of n pages from q on that open, joined. */
  function Joined(vol: Volume, q: nat, n: nat): seq<byte>
    decreases n
  {
    if n == 0 then [] else
    match Nth(vol, q)
    case Opens(p) => p[4..] + Joined(vol, q + 1, n - 1)
    case _ => Joined(vol, q + 1, n - 1)
  }

  lemma SliceJoin(a: seq<byte>, b: seq<byte>, from: nat, n: nat)
    requires |a| == VPAGE_SIZE && from < VPAGE_SIZE
    ensures from + n > VPAGE_SIZE ==> Slice(a + b, from, from + n) == a[from..] + Slice(b, 0, from + n - VPAGE_SIZE)
    ensures from + n <= VPAGE_SIZE ==> Slice(a + b, from, from + n) == a[from..from + n]
  {
  }

  lemma EmptySlice(s: seq<byte>, from: nat)
    ensures Slice(s, from, from) == []
  {
  }

  lemma {:induction false} ReadJoined(vol: Volume, end: nat, at: nat, q: nat, n: nat, remaining: nat, from: nat)
    requires from < VPAGE_SIZE && q == at / VPAGE_SIZE && n == (if at < end then PageCount(end - at) else 0)
    requires forall j :: q <= j < q + n ==> !Nth(vol, j).Unmapped?
    ensures ReadFrom(vol, end, at, remaining, from) == Ok(Slice(Joined(vol, q, n), from, from + remaining))
    decreases n
  {
    hide Nth, Slice;
    if at >= end {
      ReadDone(vol, end, at, remaining, from);
      EmptyRange(from, remaining);
    } else {
      var at' := at + VPAGE_SIZE;
      NextPages(at, end);
      match Nth(vol, q) {
        case Broken =>
          ReadJoined(vol, end, at', q + 1, n - 1, remaining, from);
        case Opens(p) =>
          var to := if from + remaining > VPAGE_SIZE then VPAGE_SIZE else from + remaining;
          var rest := Joined(vol, q + 1, n - 1);
          ReadJoined(vol, end, at', q + 1, n - 1, remaining - (to - from), to % VPAGE_SIZE);
          SliceJoin(p[4..], rest, from, remaining);
          SkipJournal(p, from, to);
          EmptySlice(rest, to % VPAGE_SIZE);
          assert p[4 + from..4 + to] + [] == p[4 + from..4 + to];
          assert to == VPAGE_SIZE ==> p[4..][from..] == p[4..][from..to];
      }
    }
  }

  lemma EmptyRange(from: nat, n: nat)
    ensures Slice([], from, from + n) == []
  {
  }

  lemma NextPages(at: nat, end: nat)
    requires at < end
    ensures (at + VPAGE_SIZE) / VPAGE_SIZE == at / VPAGE_SIZE + 1
    ensures PageCount(end - at) == 1 + if at + VPAGE_SIZE < end then PageCount(end - at - VPAGE_SIZE) else 0
  {
  }

  /**
   With no visited page unmapped, the value is cut from the joined pages that open: the bytes after a page that
   does not open move down over the gap.
   */
  lemma ValueOfOpenPages(vol: Volume, start: nat, len: nat)
    requires forall j :: start / VPAGE_SIZE <= j < start / VPAGE_SIZE + PageCount(len) ==> !Nth(vol, j).Unmapped?
    ensures var from := start % VPAGE_SIZE;
            Value(vol, start, len) == Ok(Slice(Joined(vol, start / VPAGE_SIZE, PageCount(len)), from, from + len))
  {
    hide Nth, ReadFrom, Slice;
    ReadJoined(vol, start + len, start, start / VPAGE_SIZE, PageCount(len), len, start % VPAGE_SIZE);
  }

  /** Two pages of zeros. */
  function TwoPages(): Volume {
    Volume(map[0 := 0, VPAGE_SIZE := PAGE_SIZE], [], _ => Ok(seq(4 + VPAGE_SIZE, _ => 0)))
  }

  /** Two bytes on either side of a page boundary: only the first is read, although both pages are there. */
  lemma ValueCanLoseItsEnd()
    ensures Nth(TwoPages(), 0).Opens? && Nth(TwoPages(), 1).Opens?
    ensures Range(TwoPages(), 4063, 2) == [0, 0] && Value(TwoPages(), 4063, 2) == Ok([0])
  {
    hide Value, Range;
    var vol := TwoPages();
    assert Nth(vol, 0).Opens? && Nth(vol, 1).Opens?;
    ValueIsPrefix(vol, 4063, 2);
    assert VirtualByte(vol, 4063) == 0 && VirtualByte(vol, 4064) == 0;
    assert Range(vol, 4063, 1) == [0];
  }

  /** A missing page among those visited, and nothing else, makes the read fail. */
  lemma {:induction false} FailsIffUnmapped(vol: Volume, end: nat, at: nat, remaining: nat, readStart: nat)
    requires readStart < VPAGE_SIZE && at <= end
    ensures ReadFrom(vol, end, at, remaining, readStart).Err? <==>
            exists j :: at / VPAGE_SIZE <= j < at / VPAGE_SIZE + PageCount(end - at) && Nth(vol, j).Unmapped?
    decreases end - at
  {
    hide Nth;
    var q := at / VPAGE_SIZE;
    if at < end {
      var more := if at + VPAGE_SIZE < end then PageCount(end - at - VPAGE_SIZE) else 0;
      assert PageCount(end - at) == 1 + more;
      if Nth(vol, q).Unmapped? {
      } else {
        var next := match Nth(vol, q) {
          case Opens(_) => NextRead(remaining, readStart)
          case _ => (remaining, readStart)
        };
        if at + VPAGE_SIZE <= end {
          FailsIffUnmapped(vol, end, at + VPAGE_SIZE, next.0, next.1);
        } else {
          ReadDone(vol, end, at + VPAGE_SIZE, next.0, next.1);
        }
        assert ReadFrom(vol, end, at, remaining, readStart).Err? <==>
               ReadFrom(vol, end, at + VPAGE_SIZE, next.0, next.1).Err?;
      }
    }
  }

  /** Bytes still wanted, and where to start, after one page. */
  function NextRead(remaining: nat, readStart: nat): (nat, nat)
    requires readStart < VPAGE_SIZE
  {
    var readEnd := if readStart + remaining > VPAGE_SIZE then VPAGE_SIZE else readStart + remaining;
    (remaining - (readEnd - readStart), readEnd % VPAGE_SIZE)
  }

  lemma SkipJournal(p: seq<byte>, from: nat, to: nat)
    requires from <= to <= |p| - 4
    ensures p[4..][from..to] == p[4 + from..4 + to]
  {
  }

  method ReadValue(vol: Volume, start: nat, len: nat) returns (r: Result<seq<byte>>)
    ensures r == Value(vol, start, len)
  {
    hide Nth;
    var pageAddr, data: seq<byte>, remaining: nat, readStart: nat := start, [], len, start % VPAGE_SIZE;
    PrependNothing(Value(vol, start, len));
    while pageAddr < start + len
      invariant readStart < VPAGE_SIZE
      invariant Value(vol, start, len) == Prepend(data, ReadFrom(vol, start + len, pageAddr, remaining, readStart))
    {
      match Nth(vol, pageAddr / VPAGE_SIZE) {
        case Unmapped => return Err("missing data allocation");
        case Broken =>
        case Opens(plain) =>
          var readEnd;
          if readStart + remaining > VPAGE_SIZE {
            readEnd := VPAGE_SIZE;
          } else {
            readEnd := readStart + remaining;
          }
          var bytesRead := readEnd - readStart;
          SkipJournal(plain, readStart, readEnd);
          PrependTwice(data, plain[4 + readStart..4 + readEnd],
                       ReadFrom(vol, start + len, pageAddr + VPAGE_SIZE, remaining - bytesRead,
                                (readStart + bytesRead) % VPAGE_SIZE));
          data := data + plain[4..][readStart..readEnd];
          remaining := remaining - bytesRead;
          assert readStart + bytesRead == readEnd && (remaining > 0 ==> readEnd == VPAGE_SIZE);
          assert VPAGE_SIZE % VPAGE_SIZE == 0;
          readStart := (readStart + bytesRead) % VPAGE_SIZE;
          assert remaining > 0 ==> readStart == 0;
      }
      pageAddr := pageAddr + VPAGE_SIZE;
    }
    assert data + [] == data;
    r := Ok(data);
  }

  // ---- The checksum at the end of a value ----

  function Padded(s: seq<byte>): (p: seq<byte>)
    ensures |p| % 4 == 0 && |s| <= |p| < |s| + 4 && p[..|s|] == s
    ensures forall i :: |s| <= i < |p| ==> p[i] == 0
  {
    s + seq((4 - |s| % 4) % 4, _ => 0)
  }

  /** Where the checksum starts; below four bytes the negative index counts from the end. */
  function CheckStart(n: nat): (k: nat)
    ensures k <= n
  {
    if n >= 4 then n - 4 else if n == 3 then 2 else 0
  }

  /** All but the last four bytes hash to those four. */
  predicate CheckOk(data: seq<byte>) {
    var n := if |data| < 4 then 0 else |data| - 4;
    Hash(Padded(data[..n]), 0) == LeValue(data[CheckStart(|data|)..])
  }

  /** A body followed by its hash passes. */
  lemma CheckedPasses(body: seq<byte>)
    ensures CheckOk(body + LeBytes(Hash(Padded(body), 0), 4))
  {
    hide Hash, LeBytes, LeValue, Pow2;
    var h := Hash(Padded(body), 0);
    HashIsWord(Padded(body), 0);
    LeValueOfBytes(h, 4);
    var d := body + LeBytes(h, 4);
    assert d[..|d| - 4] == body && d[|d| - 4..] == LeBytes(h, 4);
  }

  lemma PaddedAgree(b: seq<byte>, b': seq<byte>, k: nat)
    requires |b| == |b'| && k < |b| && k % 4 == 0
    requires forall i :: 0 <= i < |b| && !(k <= i < k + 4) ==> b[i] == b'[i]
    ensures var p, p' := Padded(b), Padded(b');
            |p| == |p'| && k + 4 <= |p| && p[..k] == p'[..k] && p[k + 4..] == p'[k + 4..]
  {
    var p, p' := Padded(b), Padded(b');
    assert forall i :: 0 <= i < |b| ==> p[i] == b[i] && p'[i] == b'[i];
  }

  /** Two sound values cannot differ within one aligned word of their bodies only. */
  lemma CheckDetectsWord(d: seq<byte>, d': seq<byte>, w: nat)
    requires |d| == |d'| && 4 * w < |d| - 4
    requires forall i :: 0 <= i < |d| && !(4 * w <= i < 4 * w + 4 && i < |d| - 4) ==> d[i] == d'[i]
    ensures CheckOk(d) && CheckOk(d') ==> d == d'
  {
    hide Hash, LeValue, Padded;
    var n, k := |d| - 4, 4 * w;
    var b, b' := d[..n], d'[..n];
    assert d[n..] == d'[n..];
    PaddedAgree(b, b', k);
    HashDetectsBlock(Padded(b), Padded(b'), k, 0);
    assert b == Padded(b)[..n] && b' == Padded(b')[..n];
    assert d == b + d[n..] && d' == b' + d'[n..];
  }
}
