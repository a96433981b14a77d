/** The free-space circular buffer: a pool of physical pages and the journalled updates replayed onto it. */
module Fscb {
  import opened Bits
  import opened Bytes
  import opened Image
  import opened Murmur
  import opened Words

  // ---- Fields of a physical page record ----

  function PageNumber(pp: word): nat { pp % 0x10_0000 }

  predicate PageValid(pp: word) { pp / 0x20_0000 % 2 == 1 }

  function Journal(pp: word): nat { pp / 0x100_0000 % 16 }

  function Home(pp: word): nat { PageNumber(pp) * PAGE_SIZE }

  /** A record put together from its fields reads back field by field. */
  lemma FieldsReadBack(number: nat, clean: nat, valid: nat, space: nat, journal: nat, high: nat, pp: word)
    requires number < 0x10_0000 && clean < 2 && valid < 2 && space < 4 && journal < 16
    requires pp == number + 0x10_0000 * clean + 0x20_0000 * valid + 0x40_0000 * space + 0x100_0000 * journal
                   + 0x1000_0000 * high
    ensures PageNumber(pp) == number && (PageValid(pp) <==> valid == 1) && Journal(pp) == journal
    ensures Home(pp) == 4096 * number
  {
    var a := clean + 2 * valid + 4 * space + 16 * journal + 256 * high;
    DivUnique(pp, 0x10_0000, a, number);
    var b := valid + 2 * space + 8 * journal + 128 * high;
    DivUnique(pp, 0x20_0000, b, number + 0x10_0000 * clean);
    DivUnique(b, 2, space + 4 * journal + 64 * high, valid);
    var c := journal + 16 * high;
    DivUnique(pp, 0x100_0000, c, number + 0x10_0000 * clean + 0x20_0000 * valid + 0x40_0000 * space);
    DivUnique(c, 16, high, journal);
  }

  type Pool = map<nat, word>

  /** Every record is filed under its own page. */
  ghost predicate Filed(pool: Pool) {
    forall a :: a in pool ==> PageValid(pool[a]) && Home(pool[a]) == a
  }

  // ---- Updates ----

  type Update = u: seq<byte> | |u| == 16 witness [0, 0, 0, 0, 0, 0, 0, 0, 0, 0, 0, 0, 0, 0, 0, 0]

  function Record(u: Update): word {
    Block(u[8..12])
  }

  /** An update sealed for a record: nonce, record, and the checksum seeded by the second half of the nonce. */
  function SealedUpdate(nonce: seq<byte>, pp: word): Update
    requires |nonce| == 8
  {
    var head := nonce + LeBytes(pp, 4);
    head + LeBytes(Hash(head, BigEndianWord(nonce[4..])), 4)
  }

  lemma SealedUpdateReads(nonce: seq<byte>, pp: word)
    requires |nonce| == 8
    ensures SpaceUpdateValid(SealedUpdate(nonce, pp)) && Record(SealedUpdate(nonce, pp)) == pp
  {
    hide Hash, LeBytes, LeValue, BeValue, Pow2;
    var head := nonce + LeBytes(pp, 4);
    var u := SealedUpdate(nonce, pp);
    HashIsWord(head, BigEndianWord(nonce[4..]));
    LeValueOfBytes(Hash(head, BigEndianWord(nonce[4..])), 4);
    Pow2Word();
    LeValueOfBytes(pp, 4);
    assert u[..12] == head && u[4..8] == nonce[4..] && u[8..12] == LeBytes(pp, 4);
    assert u[12..] == LeBytes(Hash(head, BigEndianWord(nonce[4..])), 4);
  }

  /** A sound update for the page at a. */
  predicate Hits(u: Update, a: nat) {
    SpaceUpdateValid(u) && PageValid(Record(u)) && Home(Record(u)) == a
  }

  function Replaced(pool: Pool, u: Update): Pool {
    var a := Home(Record(u));
    if a in pool && Hits(u, a) && Journal(pool[a]) < Journal(Record(u)) then pool[a := Record(u)] else pool
  }

  function Replay(pool: Pool, ups: seq<Update>): Pool {
    if ups == [] then pool else Replaced(Replay(pool, ups[..|ups| - 1]), ups[|ups| - 1])
  }

  // ---- What a replay leaves ----

  /** Update i is the first of the page's sound updates with the greatest journal, and beats the initial record. */
  ghost predicate Top(initial: word, ups: seq<Update>, a: nat, i: nat) {
    && i < |ups| && Hits(ups[i], a) && Journal(initial) < Journal(Record(ups[i]))
    && (forall u :: u in ups && Hits(u, a) ==> Journal(Record(u)) <= Journal(Record(ups[i])))
    && (forall j :: 0 <= j < i && Hits(ups[j], a) ==> Journal(Record(ups[j])) < Journal(Record(ups[i])))
  }

  ghost predicate Unbeaten(initial: word, ups: seq<Update>, a: nat) {
    forall u :: u in ups && Hits(u, a) ==> Journal(Record(u)) <= Journal(initial)
  }

  /** r is the record with the greatest journal among the initial one and the sound updates, earliest on ties. */
  ghost predicate Newest(initial: word, ups: seq<Update>, a: nat, r: word) {
    || (r == initial && Unbeaten(initial, ups, a))
    || (exists i: nat :: Top(initial, ups, a, i) && r == Record(ups[i]))
  }

  lemma {:induction false} ReplayKeepsNewest(pool: Pool, ups: seq<Update>, a: nat)
    requires a in pool
    ensures a in Replay(pool, ups) && Newest(pool[a], ups, a, Replay(pool, ups)[a])
  {
    hide Hits, Record, Home, Journal;
    if ups != [] {
      var n := |ups| - 1;
      var before, u := ups[..n], ups[n];
      ReplayKeepsNewest(pool, before, a);
      ReplacedAt(Replay(pool, before), u, a);
      NewestStep(pool[a], ups, a, Replay(pool, before)[a]);
    }
  }

  lemma ReplacedAt(pool: Pool, u: Update, a: nat)
    requires a in pool
    ensures a in Replaced(pool, u)
    ensures Replaced(pool, u)[a] ==
            if Hits(u, a) && Journal(pool[a]) < Journal(Record(u)) then Record(u) else pool[a]
  {
    hide Journal, Record, SpaceUpdateValid;
  }

  lemma NewestStep(initial: word, ups: seq<Update>, a: nat, r: word)
    requires ups != []
    ensures var u := ups[|ups| - 1];
            Newest(initial, ups[..|ups| - 1], a, r) ==>
              Newest(initial, ups, a, if Hits(u, a) && Journal(r) < Journal(Record(u)) then Record(u) else r)
  {
    hide Hits, Record, Home, Journal;
    var n := |ups| - 1;
    var before, u := ups[..n], ups[n];
    if !Newest(initial, before, a, r) { return; }
    assert ups == before + [u];
    if Hits(u, a) && Journal(r) < Journal(Record(u)) {
      forall v | v in before && Hits(v, a)
        ensures Journal(initial) <= Journal(r) && Journal(Record(v)) <= Journal(r)
      {
      }
      assert Top(initial, ups, a, n);
    } else if r == initial && Unbeaten(initial, before, a) {
      assert Unbeaten(initial, ups, a);
    } else {
      var i: nat :| Top(initial, before, a, i) && r == Record(before[i]);
      assert Top(initial, ups, a, i);
    }
  }

  /** There is only one such record. */
  lemma NewestUnique(initial: word, ups: seq<Update>, a: nat, r: word, r': word)
    ensures Newest(initial, ups, a, r) && Newest(initial, ups, a, r') ==> r == r'
  {
    hide Hits, Record, Journal;
    if !(Newest(initial, ups, a, r) && Newest(initial, ups, a, r')) { return; }
    if !Unbeaten(initial, ups, a) {
      var i: nat :| Top(initial, ups, a, i) && r == Record(ups[i]);
      var i': nat :| Top(initial, ups, a, i') && r' == Record(ups[i']);
      assert ups[i] in ups && ups[i'] in ups;
    } else {
      UnbeatenHasNoTop(initial, ups, a);
    }
  }

  lemma UnbeatenHasNoTop(initial: word, ups: seq<Update>, a: nat)
    requires Unbeaten(initial, ups, a)
    ensures forall i: nat :: !Top(initial, ups, a, i)
  {
    hide Hits, Record, Journal;
    forall i: nat | i < |ups|
      ensures !Top(initial, ups, a, i)
    {
      assert ups[i] in ups;
    }
  }

  /** The tracked pages, and the filing of records, never change. */
  lemma {:induction false} ReplayKeepsPages(pool: Pool, ups: seq<Update>)
    ensures Replay(pool, ups).Keys == pool.Keys
    ensures Filed(pool) ==> Filed(Replay(pool, ups))
  {
    hide Record, SpaceUpdateValid, PageValid, Journal, PageNumber;
    if ups != [] { ReplayKeepsPages(pool, ups[..|ups| - 1]); }
  }

  /** Updates of one page with equal journals carry equal records. */
  ghost predicate NoClash(ups: seq<Update>) {
    forall u, v :: u in ups && v in ups && Clash(u, v) ==> Record(u) == Record(v)
  }

  ghost predicate Clash(u: Update, v: Update) {
    exists a :: Hits(u, a) && Hits(v, a) && Journal(Record(u)) == Journal(Record(v))
  }

  /** Without clashes only the set of updates counts: neither order nor repetition changes the result. */
  lemma OrderDoesNotMatter(pool: Pool, ups: seq<Update>, ups': seq<Update>)
    requires NoClash(ups) && forall u :: u in ups <==> u in ups'
    ensures Replay(pool, ups) == Replay(pool, ups')
  {
    hide Replay, Hits, Record, Journal;
    var p, p' := Replay(pool, ups), Replay(pool, ups');
    ReplayKeepsPages(pool, ups);
    ReplayKeepsPages(pool, ups');
    forall a | a in pool
      ensures p[a] == p'[a]
    {
      ReplayKeepsNewest(pool, ups, a);
      ReplayKeepsNewest(pool, ups', a);
      NewestAgree(pool[a], ups, ups', a, p[a], p'[a]);
    }
  }

  lemma NewestAgree(initial: word, ups: seq<Update>, ups': seq<Update>, a: nat, r: word, r': word)
    requires NoClash(ups) && forall u :: u in ups <==> u in ups'
    ensures Newest(initial, ups, a, r) && Newest(initial, ups', a, r') ==> r == r'
  {
    hide Hits, Record, Journal;
    if !(Newest(initial, ups, a, r) && Newest(initial, ups', a, r')) { return; }
    if Unbeaten(initial, ups, a) {
      assert Unbeaten(initial, ups', a);
      UnbeatenHasNoTop(initial, ups, a);
      UnbeatenHasNoTop(initial, ups', a);
    } else {
      var i: nat :| Top(initial, ups, a, i) && r == Record(ups[i]);
      assert ups[i] in ups';
      assert !Unbeaten(initial, ups', a);
      var j: nat :| Top(initial, ups', a, j) && r' == Record(ups'[j]);
      assert ups'[j] in ups;
      assert Clash(ups[i], ups'[j]);
    }
  }

  // ---- The implementation ----

  function PoolLength(pages: nat): nat
    requires pages > 0
  {
    (4096 * pages - 28) / 4
  }

  /** Records in order; a later valid one for the same page takes its place. */
  function Loaded(raw: seq<seq<byte>>): Pool
    requires forall r :: r in raw ==> |r| == 4
  {
    if raw == [] then map[] else
    var before, pp := Loaded(raw[..|raw| - 1]), Block(raw[|raw| - 1]);
    if PageValid(pp) then before[Home(pp) := pp] else before
  }

  lemma {:induction false} LoadedIsFiled(raw: seq<seq<byte>>)
    requires forall r :: r in raw ==> |r| == 4
    ensures Filed(Loaded(raw))
  {
    hide PageValid, Home, Block;
    if raw != [] { LoadedIsFiled(raw[..|raw| - 1]); }
  }

  /** Record i is a valid one for the page at a. */
  predicate Files(raw: seq<seq<byte>>, i: nat, a: nat)
    requires i < |raw| && |raw[i]| == 4
  {
    PageValid(Block(raw[i])) && Home(Block(raw[i])) == a
  }

  /** A page is tracked if some valid record is for it, and then by the last of them. */
  lemma {:induction false} LoadedIsLast(raw: seq<seq<byte>>, a: nat)
    requires forall r :: r in raw ==> |r| == 4
    ensures a in Loaded(raw) <==> exists i :: 0 <= i < |raw| && Files(raw, i, a)
    ensures forall i :: 0 <= i < |raw| && Files(raw, i, a) && (forall j :: i < j < |raw| ==> !Files(raw, j, a)) ==>
                          a in Loaded(raw) && Loaded(raw)[a] == Block(raw[i])
  {
    hide PageValid, Home, Block;
    if raw != [] {
      var n := |raw| - 1;
      var front := raw[..n];
      LoadedIsLast(front, a);
      assert forall i :: 0 <= i < n ==> (Files(front, i, a) <==> Files(raw, i, a));
      assert Files(raw, n, a) <==> PageValid(Block(raw[n])) && Home(Block(raw[n])) == a;
    }
  }

  lemma {:induction false} RecordsAre(bytes: seq<byte>, i: nat)
    requires |bytes| % 4 == 0 && 4 * i < |bytes|
    ensures |Records(bytes)| == |bytes| / 4 && Records(bytes)[i] == bytes[4 * i..4 * i + 4]
    decreases |bytes|
  {
    var rest, n := bytes[4..], |bytes| / 4;
    assert |rest| / 4 == n - 1 && |rest| % 4 == 0;
    if n > 1 {
      RecordsAre(rest, if i > 0 then i - 1 else 0);
      if i > 0 { RestSlice(bytes, 4 * i); }
    }
  }

  lemma RestSlice(bytes: seq<byte>, from: nat)
    requires 4 <= from && from + 4 <= |bytes|
    ensures bytes[4..][from - 4..from] == bytes[from..from + 4]
  {
    var rest := bytes[4..];
    var part, whole := rest[from - 4..from], bytes[from..from + 4];
    assert |part| == |whole|;
    forall k | 0 <= k < |part| ensures part[k] == whole[k] {
      assert part[k] == rest[from - 4 + k];
    }
  }

  function Records(bytes: seq<byte>): (raw: seq<seq<byte>>)
    requires |bytes| % 4 == 0
    ensures forall r :: r in raw ==> |r| == 4
  {
    if bytes == [] then [] else [bytes[..4]] + Records(bytes[4..])
  }

  class FreeSpace {
    var pool: Pool

    constructor (bytes: seq<byte>, pages: nat)
      requires pages > 0 && |bytes| == 4 * PoolLength(pages)
      ensures pool == Loaded(Records(bytes)) && Filed(pool)
    {
      hide PageValid, Home, Block;
      var raw := Records(bytes);
      var p: Pool := map[];
      for i := 0 to |raw|
        invariant p == Loaded(raw[..i])
      {
        assert raw[..i + 1][..i] == raw[..i];
        var pp := Block(raw[i]);
        if PageValid(pp) { p := p[Home(pp) := pp]; }
      }
      assert raw[..|raw|] == raw;
      LoadedIsFiled(raw);
      pool := p;
    }

    method TryReplace(u: Update)
      requires Filed(pool)
      modifies this
      ensures Filed(pool) && pool == Replaced(old(pool), u)
    {
      hide Record, SpaceUpdateValid, PageValid, Journal, PageNumber;
      if SpaceUpdateValid(u) {
        var pp := Record(u);
        if Home(pp) !in pool { return; }
        var cur := pool[Home(pp)];
        if PageValid(pp) && Journal(cur) < Journal(pp) {
          pool := pool[Home(pp) := pp];
        }
      }
    }
  }

  // ---- Decoding the region ----

  /** Keys of the system basis: the entry cipher, and decryption of the pool. */
  datatype System = System(ecb: Update -> Update, open: seq<byte> -> Result<seq<byte>>)

  const BLANK32: seq<byte> := BLANK + BLANK

  predicate IsUpdatePage(page: seq<byte>) {
    Slice(page, 0, 32) != BLANK32 && Slice(page, 0, 16) == BLANK
  }

  predicate IsPoolPage(page: seq<byte>) {
    Slice(page, 0, 32) != BLANK32 && Slice(page, 0, 16) != BLANK
  }

  /** Number of the first page of the pool. */
  function PoolStart(pages: seq<seq<byte>>): Option<nat> {
    if pages == [] then None else
    var before := PoolStart(pages[..|pages| - 1]);
    if before.None? && IsPoolPage(pages[|pages| - 1]) then Some(|pages| - 1) else before
  }

  /** The update pages, their blank first 16 bytes cut off. */
  function UpdatePages(pages: seq<seq<byte>>): seq<seq<byte>> {
    if pages == [] then [] else
    var last := pages[|pages| - 1];
    UpdatePages(pages[..|pages| - 1]) + if IsUpdatePage(last) then [Slice(last, 16, 16 + |last|)] else []
  }

  /** The pool starts at the first page that is written from its start. */
  lemma {:induction false} PoolStartIsFirst(pages: seq<seq<byte>>)
    ensures PoolStart(pages).None? <==> forall i :: 0 <= i < |pages| ==> !IsPoolPage(pages[i])
    ensures PoolStart(pages).Some? ==>
              var s := PoolStart(pages).value;
              s < |pages| && IsPoolPage(pages[s]) && forall i :: 0 <= i < s ==> !IsPoolPage(pages[i])
  {
    hide IsPoolPage;
    if pages != [] { PoolStartIsFirst(pages[..|pages| - 1]); }
  }

  /** What precedes the first blank entry. */
  function Written(entries: seq<seq<byte>>): seq<seq<byte>> {
    if entries == [] || entries[0] == BLANK then [] else [entries[0]] + Written(entries[1..])
  }

  function AllWritten(updates: seq<seq<byte>>): seq<seq<byte>> {
    if updates == [] then [] else
    var last := updates[|updates| - 1];
    AllWritten(updates[..|updates| - 1]) + Written(Chunks(last, 0, |last|, 16))
  }

  /** Decrypt and replay in order; an entry that is not a whole block raises. */
  function ReplayRaw(sys: System, pool: Pool, raw: seq<seq<byte>>): Result<Pool> {
    if raw == [] then Ok(pool) else
    match ReplayRaw(sys, pool, raw[..|raw| - 1])
    case Err(e) => Err(e)
    case Ok(p) =>
      var last := raw[|raw| - 1];
      if |last| != 16 then Err("not a block") else Ok(Replaced(p, sys.ecb(last)))
  }

  function Decrypted(sys: System, raw: seq<seq<byte>>): seq<Update>
    requires forall e :: e in raw ==> |e| == 16
  {
    if raw == [] then [] else Decrypted(sys, raw[..|raw| - 1]) + [sys.ecb(raw[|raw| - 1])]
  }

  lemma {:induction false} ReplayRawIsReplay(sys: System, pool: Pool, raw: seq<seq<byte>>)
    ensures ReplayRaw(sys, pool, raw).Ok? <==> forall e :: e in raw ==> |e| == 16
    ensures ReplayRaw(sys, pool, raw).Ok? ==> ReplayRaw(sys, pool, raw).value == Replay(pool, Decrypted(sys, raw))
  {
    hide Replaced;
    if raw != [] {
      var front := raw[..|raw| - 1];
      ReplayRawIsReplay(sys, pool, front);
      assert raw == front + [raw[|raw| - 1]];
      if ReplayRaw(sys, pool, raw).Ok? {
        var ups := Decrypted(sys, raw);
        assert ups[..|ups| - 1] == Decrypted(sys, front);
      }
    }
  }

  /** The pool as stored in an image, before any update. */
  function Stored(sys: System, img: seq<byte>, n: nat): Result<Option<Pool>>
    requires n > 0
  {
    match PoolStart(Chunks(img, 0, |img|, PAGE_SIZE))
    case None => Ok(None)
    case Some(s) =>
      match sys.open(Slice(img, s * PAGE_SIZE, (s + n) * PAGE_SIZE))
      case Err(e) => Err(e)
      case Ok(dec) => if |dec| != 4 * PoolLength(n) then Err("assertion failed") else Ok(Some(Loaded(Records(dec))))
  }

  /** The update entries written in an image. */
  function Updates(img: seq<byte>): seq<seq<byte>> {
    AllWritten(UpdatePages(Chunks(img, 0, |img|, PAGE_SIZE)))
  }

  function Decoded(sys: System, img: seq<byte>, n: nat): Result<Option<Pool>>
    requires n > 0
  {
    match Stored(sys, img, n)
    case Err(e) => Err(e)
    case Ok(None) => Ok(None)
    case Ok(Some(pool)) =>
      match ReplayRaw(sys, pool, Updates(img))
      case Err(e) => Err(e)
      case Ok(p) => Ok(Some(p))
  }

  lemma StoredIsFiled(sys: System, img: seq<byte>, n: nat)
    requires n > 0
    ensures Stored(sys, img, n).Ok? && Stored(sys, img, n).value.Some? ==> Filed(Stored(sys, img, n).value.value)
  {
    hide Chunks, PoolStart, Slice, Loaded, Filed, PoolLength;
    match PoolStart(Chunks(img, 0, |img|, PAGE_SIZE)) {
      case None =>
      case Some(s) =>
        var dec := sys.open(Slice(img, s * PAGE_SIZE, (s + n) * PAGE_SIZE));
        if dec.Ok? && |dec.value| == 4 * PoolLength(n) { LoadedIsFiled(Records(dec.value)); }
    }
  }

  /**
   The pool of a decoded image tracks the pages it was stored with, each filed under its own number, and holds for
   each the newest record among the stored one and the updates written in the image.
   */
  lemma DecodedIsNewest(sys: System, img: seq<byte>, n: nat)
    requires n > 0
    ensures Decoded(sys, img, n).Ok? && Decoded(sys, img, n).value.Some? ==>
              && Stored(sys, img, n).Ok? && Stored(sys, img, n).value.Some?
              && var stored, pool := Stored(sys, img, n).value.value, Decoded(sys, img, n).value.value;
              && (forall e :: e in Updates(img) ==> |e| == 16)
              && pool.Keys == stored.Keys && Filed(pool)
              && forall a :: a in pool ==> Newest(stored[a], Decrypted(sys, Updates(img)), a, pool[a])
  {
    hide Stored, Updates, Newest, Filed, ReplayRaw, Replay, Decrypted;
    if Decoded(sys, img, n).Ok? && Decoded(sys, img, n).value.Some? {
      var stored, raw := Stored(sys, img, n).value.value, Updates(img);
      StoredIsFiled(sys, img, n);
      ReplayRawIsReplay(sys, stored, raw);
      var ups := Decrypted(sys, raw);
      ReplayKeepsPages(stored, ups);
      forall a | a in stored
        ensures Newest(stored[a], ups, a, Replay(stored, ups)[a])
      {
        ReplayKeepsNewest(stored, ups, a);
      }
    }
  }

  // ---- Reading back an image that was written ----

  /** A written entry. */
  predicate IsEntry(e: seq<byte>) {
    |e| == 16 && e != BLANK
  }

  /** Nothing, or starting with a blank entry. */
  predicate Ends(rest: seq<byte>) {
    rest == [] || (|rest| >= 16 && rest[..16] == BLANK)
  }

  /** A page of the region: unused, a log of updates, or part of the pool. */
  datatype Sheet = Unused(bytes: seq<byte>) | Log(entries: seq<seq<byte>>, rest: seq<byte>) | Stock(bytes: seq<byte>) {
    function Page(): seq<byte> {
      match this
      case Unused(b) => b
      case Log(entries, rest) => BLANK + (Flatten(entries) + rest)
      case Stock(b) => b
    }

    /** A log starts at the second entry and ends at a blank one, or with the page. */
    ghost predicate Valid() {
      && |Page()| == PAGE_SIZE
      && match this
         case Unused(b) => b[..32] == BLANK32
         case Log(entries, rest) =>
           entries != [] && (forall e :: e in entries ==> IsEntry(e)) && Ends(rest)
         case Stock(b) => b[..16] != BLANK
    }
  }

  function Pages(sheets: seq<Sheet>): (p: seq<seq<byte>>)
    ensures |p| == |sheets| && forall i :: 0 <= i < |p| ==> p[i] == sheets[i].Page()
  {
    seq(|sheets|, i requires 0 <= i < |sheets| => sheets[i].Page())
  }

  /** Every update logged, in order. */
  function Logged(sheets: seq<Sheet>): seq<seq<byte>> {
    if sheets == [] then [] else
    var last := sheets[|sheets| - 1];
    Logged(sheets[..|sheets| - 1]) + if last.Log? then last.entries else []
  }

  lemma {:induction false} WrittenOfFlat(s: seq<byte>, from: nat, entries: seq<seq<byte>>, rest: seq<byte>)
    requires from <= |s| && s[from..] == Flatten(entries) + rest
    requires (forall e :: e in entries ==> IsEntry(e)) && Ends(rest)
    ensures Written(Chunks(s, from, |s|, 16)) == entries
    decreases |entries|
  {
    hide Slice, Written, Chunks, IsEntry, Ends;
    if entries != [] {
      var first, more := entries[0], entries[1..];
      assert first in entries && forall e :: e in more ==> e in entries;
      assert Flatten(entries) + rest == first + (Flatten(more) + rest);
      WrittenStep(first, Chunks(s, from + 16, |s|, 16));
      FirstPart(s, from, first, Flatten(more) + rest);
      WrittenOfFlat(s, from + 16, more, rest);
      ChunksStep(s, from, 16);
    } else {
      assert Flatten(entries) + rest == rest;
      WrittenEnds(s, from, rest);
    }
  }

  lemma WrittenEnds(s: seq<byte>, from: nat, rest: seq<byte>)
    requires from <= |s| && s[from..] == rest && Ends(rest)
    ensures Written(Chunks(s, from, |s|, 16)) == []
  {
    hide Slice, Chunks;
    if rest != [] {
      assert rest == rest[..16] + rest[16..];
      FirstPart(s, from, rest[..16], rest[16..]);
    }
    ChunksStep(s, from, 16);
  }

  lemma WrittenStep(first: seq<byte>, more: seq<seq<byte>>)
    requires IsEntry(first)
    ensures |first| == 16 && Written([first] + more) == [first] + Written(more)
  {
    assert ([first] + more)[1..] == more;
  }

  lemma SheetKinds(sheet: Sheet)
    requires sheet.Valid()
    ensures IsPoolPage(sheet.Page()) <==> sheet.Stock?
    ensures IsUpdatePage(sheet.Page()) <==> sheet.Log?
  {
    hide Flatten;
    var page := sheet.Page();
    assert Slice(page, 0, 16) == page[..16] && Slice(page, 0, 32) == page[..32];
    if sheet.Log? {
      LogStarts(sheet.entries, sheet.rest);
    } else if sheet.Unused? {
      assert page[..16] == page[..32][..16] == BLANK;
    } else {
      assert page[..32][..16] == page[..16] && BLANK32[..16] == BLANK;
    }
  }

  /** The first entry shows. */
  lemma LogStarts(entries: seq<seq<byte>>, rest: seq<byte>)
    requires entries != [] && IsEntry(entries[0])
    ensures var page := BLANK + (Flatten(entries) + rest);
            |page| >= 32 && page[..16] == BLANK && page[..32] != BLANK32
  {
    var page := BLANK + (Flatten(entries) + rest);
    assert page == BLANK + entries[0] + (Flatten(entries[1..]) + rest);
    assert page[..16] == BLANK && page[16..32] == entries[0];
    assert page[..32][16..] == page[16..32] && BLANK32[16..] == BLANK;
  }

  lemma LogReads(sheet: Sheet)
    requires sheet.Valid() && sheet.Log?
    ensures var page := sheet.Page();
            var cut := Slice(page, 16, 16 + |page|);
            Written(Chunks(cut, 0, |cut|, 16)) == sheet.entries
  {
    hide Chunks, Written, Flatten;
    var page, log := sheet.Page(), Flatten(sheet.entries) + sheet.rest;
    assert page[16..] == log;
    assert Slice(page, 16, 16 + |page|) == log && log[0..] == log;
    WrittenOfFlat(log, 0, sheet.entries, sheet.rest);
  }

  lemma {:induction false} LogsRead(sheets: seq<Sheet>)
    requires forall s :: s in sheets ==> s.Valid()
    ensures AllWritten(UpdatePages(Pages(sheets))) == Logged(sheets)
  {
    if sheets != [] {
      var n := |sheets| - 1;
      var front, last := sheets[..n], sheets[n];
      hide Chunks, Written, IsUpdatePage, IsPoolPage, Slice;
      LogsRead(front);
      assert last in sheets;
      SheetKinds(last);
      assert Pages(sheets)[..n] == Pages(front);
      if last.Log? {
        LogReads(last);
        var cut := Slice(last.Page(), 16, 16 + |last.Page()|);
        AllWrittenLast(UpdatePages(Pages(front)), cut);
      } else {
        assert UpdatePages(Pages(front)) + [] == UpdatePages(Pages(front));
        assert Logged(front) + [] == Logged(front);
      }
    }
  }

  lemma AllWrittenLast(updates: seq<seq<byte>>, last: seq<byte>)
    ensures AllWritten(updates + [last]) == AllWritten(updates) + Written(Chunks(last, 0, |last|, 16))
  {
    hide Chunks, Written;
    assert (updates + [last])[..|updates|] == updates;
  }

  /** An image put together from pages gives back the updates logged in it and its first page of the pool. */
  lemma ImageReads(sheets: seq<Sheet>)
    requires forall s :: s in sheets ==> s.Valid()
    ensures var img := Flatten(Pages(sheets));
            && Chunks(img, 0, |img|, PAGE_SIZE) == Pages(sheets) && Updates(img) == Logged(sheets)
    ensures var start := PoolStart(Pages(sheets));
            && (start.None? <==> forall i :: 0 <= i < |sheets| ==> !sheets[i].Stock?)
            && (start.Some? ==> start.value < |sheets| && sheets[start.value].Stock?)
            && (start.Some? ==> forall i :: 0 <= i < start.value ==> !sheets[i].Stock?)
  {
    hide Chunks, AllWritten, UpdatePages, Flatten, IsPoolPage, PoolStart;
    var img := Flatten(Pages(sheets));
    assert img[0..] == img;
    forall i | 0 <= i < |sheets| ensures |Pages(sheets)[i]| == PAGE_SIZE { assert sheets[i] in sheets; }
    ChunksOfFlat(img, 0, Pages(sheets), PAGE_SIZE);
    LogsRead(sheets);
    PoolStartIsFirst(Pages(sheets));
    forall i | 0 <= i < |sheets| ensures IsPoolPage(Pages(sheets)[i]) <==> sheets[i].Stock? {
      assert sheets[i] in sheets;
      SheetKinds(sheets[i]);
    }
  }

  lemma {:induction false} LoggedAreBlocks(sheets: seq<Sheet>)
    requires forall s :: s in sheets ==> s.Valid()
    ensures forall e :: e in Logged(sheets) ==> |e| == 16
  {
    if sheets != [] {
      LoggedAreBlocks(sheets[..|sheets| - 1]);
      assert sheets[|sheets| - 1] in sheets;
    }
  }

  /** Decoding replays onto the stored pool, in order, every update that was logged. */
  lemma WrittenImageDecodes(sys: System, sheets: seq<Sheet>, n: nat, s: nat, img: seq<byte>, dec: seq<byte>)
    requires n > 0 && img == Flatten(Pages(sheets)) && forall x :: x in sheets ==> x.Valid()
    requires s < |sheets| && sheets[s].Stock? && forall i :: 0 <= i < s ==> !sheets[i].Stock?
    requires sys.open(Slice(img, s * PAGE_SIZE, (s + n) * PAGE_SIZE)) == Ok(dec) && |dec| == 4 * PoolLength(n)
    ensures forall e :: e in Logged(sheets) ==> |e| == 16
    ensures |dec| % 4 == 0
    ensures Decoded(sys, img, n) == Ok(Some(Replay(Loaded(Records(dec)), Decrypted(sys, Logged(sheets)))))
  {
    hide Chunks, Updates, Flatten, PoolStart, Slice, Loaded, Records, PoolLength, ReplayRaw, Replay, Decrypted, Logged,
         Pages, Stored;
    StartIs(sheets, s);
    LoggedAreBlocks(sheets);
    StoredAt(sys, img, n, s, dec);
    ReplayRawIsReplay(sys, Loaded(Records(dec)), Logged(sheets));
  }

  lemma StartIs(sheets: seq<Sheet>, s: nat)
    requires forall x :: x in sheets ==> x.Valid()
    requires s < |sheets| && sheets[s].Stock? && forall i :: 0 <= i < s ==> !sheets[i].Stock?
    ensures var img := Flatten(Pages(sheets));
            PoolStart(Chunks(img, 0, |img|, PAGE_SIZE)) == Some(s) && Updates(img) == Logged(sheets)
  {
    hide Chunks, Updates, Flatten, PoolStart, Logged, Pages;
    ImageReads(sheets);
  }

  lemma StoredAt(sys: System, img: seq<byte>, n: nat, s: nat, dec: seq<byte>)
    requires n > 0 && PoolStart(Chunks(img, 0, |img|, PAGE_SIZE)) == Some(s)
    requires sys.open(Slice(img, s * PAGE_SIZE, (s + n) * PAGE_SIZE)) == Ok(dec) && |dec| == 4 * PoolLength(n)
    ensures |dec| % 4 == 0
    ensures Stored(sys, img, n) == Ok(Some(Loaded(Records(dec))))
  {
    hide Chunks, PoolStart, Slice, Loaded, PoolLength;
  }

  method DecodeFscb(sys: System, img: seq<byte>, n: nat) returns (r: Result<FreeSpace?>)
    requires n > 0
    ensures r.Err? <==> Decoded(sys, img, n).Err?
    ensures r.Ok? ==> (r.value == null <==> Decoded(sys, img, n).value.None?)
    ensures r.Ok? && r.value != null ==> Decoded(sys, img, n) == Ok(Some(r.value.pool)) && Filed(r.value.pool)
  {
    hide Chunks, Written, ReplayRaw, Loaded, Records, Slice, Filed, UpdatePages, PoolStart, PoolLength;
    var pages := Chunks(img, 0, |img|, PAGE_SIZE);
    var spaceUpdate, start := Classify(pages);
    assert Updates(img) == AllWritten(spaceUpdate);
    hide Updates;
    if start.None? { return Ok(null); }
    var dec := sys.open(Slice(img, start.value * PAGE_SIZE, (start.value + n) * PAGE_SIZE));
    if dec.Err? { return Err(dec.error); }
    if |dec.value| != 4 * PoolLength(n) { return Err("assertion failed"); }
    var fscb := new FreeSpace(dec.value, n);
    var ok := ReplayPages(sys, fscb, spaceUpdate);
    if !ok { return Err("not a block"); }
    return Ok(fscb);
  }

  /** All update pages in order. */
  method ReplayPages(sys: System, fscb: FreeSpace, spaceUpdate: seq<seq<byte>>) returns (ok: bool)
    requires Filed(fscb.pool)
    modifies fscb
    ensures ok ==> Filed(fscb.pool) && ReplayRaw(sys, old(fscb.pool), AllWritten(spaceUpdate)) == Ok(fscb.pool)
    ensures !ok ==> ReplayRaw(sys, old(fscb.pool), AllWritten(spaceUpdate)).Err?
  {
    hide Chunks, Written, ReplayRaw, Filed;
    ghost var pool0 := fscb.pool;
    RawNothing(sys, pool0);
    for k := 0 to |spaceUpdate|
      invariant Filed(fscb.pool)
      invariant ReplayRaw(sys, pool0, AllWritten(spaceUpdate[..k])) == Ok(fscb.pool)
    {
      assert spaceUpdate[..k + 1][..k] == spaceUpdate[..k];
      var entries := Chunks(spaceUpdate[k], 0, |spaceUpdate[k]|, 16);
      ok := ReplayPage(sys, fscb, entries, pool0, AllWritten(spaceUpdate[..k]));
      if !ok {
        RawStuck(sys, pool0, spaceUpdate, k + 1, |spaceUpdate|);
        assert spaceUpdate[..|spaceUpdate|] == spaceUpdate;
        return;
      }
    }
    assert spaceUpdate[..|spaceUpdate|] == spaceUpdate;
    ok := true;
  }

  /** Sort the pages of the region into update pages and the start of the pool. */
  method Classify(pages: seq<seq<byte>>) returns (spaceUpdate: seq<seq<byte>>, start: Option<nat>)
    ensures spaceUpdate == UpdatePages(pages) && start == PoolStart(pages)
  {
    hide IsPoolPage, IsUpdatePage, Slice;
    spaceUpdate, start := [], None;
    for pg := 0 to |pages|
      invariant spaceUpdate == UpdatePages(pages[..pg]) && start == PoolStart(pages[..pg])
    {
      var page := pages[pg];
      assert pages[..pg + 1][..pg] == pages[..pg];
      PageKinds(page);
      if IsUpdatePage(page) {
        spaceUpdate := spaceUpdate + [Slice(page, 16, 16 + |page|)];
      } else if IsPoolPage(page) {
        if start.None? { start := Some(pg); }
      }
    }
    assert pages[..|pages|] == pages;
  }

  lemma PageKinds(page: seq<byte>)
    ensures !(IsUpdatePage(page) && IsPoolPage(page))
  {
  }

  /** One update page, up to its first blank entry. */
  method ReplayPage(sys: System, fscb: FreeSpace, entries: seq<seq<byte>>,
                    ghost pool0: Pool, ghost done: seq<seq<byte>>)
    returns (ok: bool)
    requires Filed(fscb.pool) && ReplayRaw(sys, pool0, done) == Ok(fscb.pool)
    modifies fscb
    ensures Filed(fscb.pool)
    ensures ok ==> ReplayRaw(sys, pool0, done + Written(entries)) == Ok(fscb.pool)
    ensures !ok ==> ReplayRaw(sys, pool0, done + Written(entries)).Err?
  {
    hide Replaced, ReplayRaw, Filed, Written;
    ghost var written := Written(entries);
    WrittenIsPrefix(entries);
    assert done + entries[..0] == done;
    var i := 0;
    while i < |entries| && entries[i] != BLANK
      invariant 0 <= i <= |written| && Filed(fscb.pool)
      invariant ReplayRaw(sys, pool0, done + entries[..i]) == Ok(fscb.pool)
    {
      assert done + entries[..i + 1] == done + entries[..i] + [entries[i]];
      RawNext(sys, pool0, done + entries[..i], entries[i]);
      if |entries[i]| != 16 {
        RawErr(sys, pool0, done + entries[..i + 1], written[i + 1..]);
        assert done + entries[..i + 1] + written[i + 1..] == done + written;
        return false;
      }
      fscb.TryReplace(sys.ecb(entries[i]));
      i := i + 1;
    }
    ok := true;
  }

  lemma {:induction false} WrittenIsPrefix(entries: seq<seq<byte>>)
    ensures var n := |Written(entries)|;
            && n <= |entries| && Written(entries) == entries[..n]
            && (n < |entries| ==> entries[n] == BLANK)
            && BLANK !in Written(entries)
  {
    if entries != [] && entries[0] != BLANK { WrittenIsPrefix(entries[1..]); }
  }

  lemma RawNothing(sys: System, pool: Pool)
    ensures ReplayRaw(sys, pool, []) == Ok(pool)
  {
  }

  lemma RawNext(sys: System, pool: Pool, raw: seq<seq<byte>>, e: seq<byte>)
    requires ReplayRaw(sys, pool, raw).Ok?
    ensures ReplayRaw(sys, pool, raw + [e]) ==
            if |e| != 16 then Err("not a block") else Ok(Replaced(ReplayRaw(sys, pool, raw).value, sys.ecb(e)))
  {
    hide Replaced;
    assert (raw + [e])[..|raw|] == raw;
  }

  lemma {:induction false} RawErr(sys: System, pool: Pool, raw: seq<seq<byte>>, more: seq<seq<byte>>)
    requires ReplayRaw(sys, pool, raw).Err?
    ensures ReplayRaw(sys, pool, raw + more).Err?
  {
    hide Replaced;
    if more == [] {
      assert raw + more == raw;
    } else {
      RawErr(sys, pool, raw, more[..|more| - 1]);
      assert (raw + more)[..|raw + more| - 1] == raw + more[..|more| - 1];
    }
  }

  lemma {:induction false} RawStuck(sys: System, pool: Pool, updates: seq<seq<byte>>, k: nat, n: nat)
    requires k <= n <= |updates| && ReplayRaw(sys, pool, AllWritten(updates[..k])).Err?
    ensures ReplayRaw(sys, pool, AllWritten(updates[..n])).Err?
  {
    hide ReplayRaw, Written, Chunks;
    if k < n {
      RawStuck(sys, pool, updates, k, n - 1);
      assert updates[..n][..n - 1] == updates[..n - 1];
      RawErr(sys, pool, AllWritten(updates[..n - 1]), Written(Chunks(updates[n - 1], 0, |updates[n - 1]|, 16)));
    }
  }
}
