/** The scan of a dictionary's key slots, which decrypts a page only when the slot offset falls back. */
module DictScan {
  import opened Bits
  import opened Bytes
  import opened Image
  import opened KeyData

  const DICT_VSTRIDE := 0xFE_0000
  const KV_STRIDE := 127
  const SLOTS_PER_PAGE := 32
  const SLOT_LIMIT := 131071

  /** A dictionary of a volume; `text` decodes names. */
  datatype Dict = Dict(vol: Volume, index: nat, text: seq<byte> -> string)

  type KeyMap = map<string, seq<byte>>

  // ---- Where slots are ----

  function SlotAddr(d: Dict, slot: nat): nat {
    DICT_VSTRIDE * (d.index + 1) + slot * KV_STRIDE
  }

  /** The page holding a slot. */
  function SlotPage(d: Dict, slot: nat): Page {
    Nth(d.vol, 4096 * (d.index + 1) + slot / SLOTS_PER_PAGE)
  }

  /** Offset of a slot in its decrypted page, past the journal number. */
  function Offset(slot: nat): nat {
    4 + slot % SLOTS_PER_PAGE * KV_STRIDE
  }

  /** Pages hold whole slots, 32 each: a slot's address and its offset agree, and none straddles two pages. */
  lemma SlotsFitPages(d: Dict, slot: nat)
    ensures SlotAddr(d, slot) / VPAGE_SIZE == 4096 * (d.index + 1) + slot / SLOTS_PER_PAGE
    ensures Offset(slot) == 4 + SlotAddr(d, slot) % VPAGE_SIZE
    ensures Offset(slot) + KV_STRIDE <= 4 + VPAGE_SIZE
  {
    var q, r := slot / SLOTS_PER_PAGE, slot % SLOTS_PER_PAGE;
    assert slot == SLOTS_PER_PAGE * q + r;
    assert SlotAddr(d, slot) == VPAGE_SIZE * (4096 * (d.index + 1) + q) + r * KV_STRIDE;
  }

  /** All slots tried lie in the dictionary's own stretch of addresses. */
  lemma SlotsStayInDict(d: Dict, slot: nat)
    requires slot < SLOT_LIMIT
    ensures SlotAddr(d, slot) + KV_STRIDE <= DICT_VSTRIDE * (d.index + 2)
  {
  }

  // ---- Slots ----

  datatype Parsed = NotAKey | Key(name: string, data: seq<byte>)

  /** A descriptor: valid only with its flag set and all its data mapped. */
  function Parse(d: Dict, record: seq<byte>): Parsed
    requires |record| == KV_STRIDE
  {
    var start, len, flags := LeValue(record[0..8]), LeValue(record[8..16]), LeValue(record[24..28]);
    if flags % 2 == 0 then NotAKey else
    match Value(d.vol, start, len)
    case Err(_) => NotAKey
    case Ok(data) =>
      var n: nat := record[32];
      Key(d.text(Slice(record, 33, 33 + n)), data)
  }

  /** A descriptor as it is laid out: address and length of the data, flags, and the name with its length. */
  ghost predicate Describes(record: seq<byte>, start: nat, len: nat, name: seq<byte>) {
    && |record| == KV_STRIDE && start < Pow2(64) && len < Pow2(64) && 33 + |name| <= KV_STRIDE
    && record[0..8] == LeBytes(start, 8) && record[8..16] == LeBytes(len, 8)
    && record[32] == |name| && record[33..33 + |name|] == name
  }

  /** It reads as the value of its range under its name, unless its flag is clear or some of it is unmapped. */
  lemma ParseDescriptor(d: Dict, record: seq<byte>, start: nat, len: nat, name: seq<byte>)
    requires Describes(record, start, len, name)
    ensures Parse(d, record) ==
            if record[24] % 2 == 0 || Value(d.vol, start, len).Err? then NotAKey
            else Key(d.text(name), Value(d.vol, start, len).value)
  {
    hide Value, LeBytes, LeValue;
    LeValueOfBytes(start, 8);
    LeValueOfBytes(len, 8);
    LowBit(record[24..28]);
    assert Slice(record, 33, 33 + |name|) == name;
  }

  lemma LowBit(s: seq<byte>)
    requires s != []
    ensures LeValue(s) % 2 == s[0] % 2
  {
    assert LeValue(s) == s[0] + 2 * (128 * LeValue(s[1..]));
  }

  datatype Visit = Visit(slot: nat, record: seq<byte>)

  datatype Tally = Tally(found: nat, tried: nat, keys: KeyMap, visits: seq<Visit>)

  function Record(p: Plain, slot: nat): (r: seq<byte>)
    ensures |r| == KV_STRIDE
  {
    p[Offset(slot)..Offset(slot) + KV_STRIDE]
  }

  /** Look at the record taken to be in the current slot. */
  function Take(d: Dict, t: Tally, record: seq<byte>): Tally
    requires |record| == KV_STRIDE
  {
    var visits := t.visits + [Visit(t.tried, record)];
    match Parse(d, record)
    case NotAKey => Tally(t.found, t.tried + 1, t.keys, visits)
    case Key(name, data) => Tally(t.found + 1, t.tried + 1, t.keys[name := data], visits)
  }

  // ---- The scan that decrypts afresh for every slot ----

  function FreshStep(d: Dict, t: Tally): (t': Tally)
    ensures t'.tried > t.tried
  {
    match SlotPage(d, t.tried)
    case Unmapped => t.(tried := t.tried + SLOTS_PER_PAGE)
    case Broken => t.(tried := t.tried + 1)
    case Opens(p) => Take(d, t, Record(p, t.tried))
  }

  predicate Stops(t: Tally, numKeys: nat) {
    t.found >= numKeys || t.tried >= SLOT_LIMIT
  }

  function FreshScan(d: Dict, numKeys: nat, t: Tally): (r: Tally)
    ensures Stops(r, numKeys)
    decreases if t.tried < SLOT_LIMIT then SLOT_LIMIT - t.tried else 0
  {
    if Stops(t, numKeys) then t else FreshScan(d, numKeys, FreshStep(d, t))
  }

  /** The slots lo..hi that lie in pages that open, in ascending order. */
  function Readable(d: Dict, lo: nat, hi: nat): seq<Visit>
    decreases if lo < hi then hi - lo else 0
  {
    if lo >= hi then []
    else if SlotPage(d, lo).Opens?
    then [Visit(lo, Record(SlotPage(d, lo).plain, lo))] + Readable(d, lo + 1, hi)
    else Readable(d, lo + 1, hi)
  }

  lemma {:induction false} UnmappedPage(d: Dict, lo: nat, k: nat, hi: nat)
    requires lo % SLOTS_PER_PAGE == 0 && SlotPage(d, lo).Unmapped? && k <= SLOTS_PER_PAGE && lo + SLOTS_PER_PAGE <= hi
    ensures Readable(d, lo + k, hi) == Readable(d, lo + SLOTS_PER_PAGE, hi)
    decreases SLOTS_PER_PAGE - k
  {
    hide Nth, Record;
    if k < SLOTS_PER_PAGE {
      assert SlotPage(d, lo + k) == SlotPage(d, lo);
      UnmappedPage(d, lo, k + 1, hi);
    }
  }

  /** An unallocated page is met at its first slot only. */
  ghost predicate Aligned(d: Dict, slot: nat) {
    slot % SLOTS_PER_PAGE == 0 || !SlotPage(d, slot).Unmapped?
  }

  lemma NextAligned(d: Dict, slot: nat)
    ensures !SlotPage(d, slot).Unmapped? ==> Aligned(d, slot + 1)
    ensures slot % SLOTS_PER_PAGE == 0 ==> Aligned(d, slot + SLOTS_PER_PAGE)
  {
    hide Nth;
  }

  /** Every slot of a page that opens is visited once, in order, up to where the scan stops. */
  lemma {:induction false} FreshVisits(d: Dict, numKeys: nat, t: Tally)
    requires Aligned(d, t.tried)
    ensures var r := FreshScan(d, numKeys, t);
            r.tried >= t.tried && r.visits == t.visits + Readable(d, t.tried, r.tried)
    decreases if t.tried < SLOT_LIMIT then SLOT_LIMIT - t.tried else 0
  {
    hide SlotPage, Record, Parse, Aligned;
    if Stops(t, numKeys) {
      assert t.visits + [] == t.visits;
    } else {
      var t' := FreshStep(d, t);
      NextAligned(d, t.tried);
      if SlotPage(d, t.tried).Unmapped? { AlignedUnmapped(d, t.tried); }
      FreshVisits(d, numKeys, t');
      var hi := FreshScan(d, numKeys, t').tried;
      if SlotPage(d, t.tried).Unmapped? {
        UnmappedPage(d, t.tried, 0, hi);
      } else if SlotPage(d, t.tried).Opens? {
        var v := [Visit(t.tried, Record(SlotPage(d, t.tried).plain, t.tried))];
        assert t.visits + v + Readable(d, t.tried + 1, hi) == t.visits + (v + Readable(d, t.tried + 1, hi));
      }
    }
  }

  lemma AlignedUnmapped(d: Dict, slot: nat)
    requires Aligned(d, slot) && SlotPage(d, slot).Unmapped?
    ensures slot % SLOTS_PER_PAGE == 0
  {
  }

  // ---- The scan as implemented ----

  /** prev is the offset last used and pt the page last decrypted. */
  datatype Scan = Scan(t: Tally, prev: nat, pt: Plain)

  function Step(d: Dict, s: Scan): (s': Scan)
    ensures s'.t.tried > s.t.tried
  {
    var slot := s.t.tried;
    match SlotPage(d, slot)
    case Unmapped => s.(t := s.t.(tried := slot + SLOTS_PER_PAGE))
    case Broken =>
      if Offset(slot) < s.prev then s.(t := s.t.(tried := slot + 1))
      else Scan(Take(d, s.t, Record(s.pt, slot)), Offset(slot), s.pt)
    case Opens(p) =>
      var pt := if Offset(slot) < s.prev then p else s.pt;
      Scan(Take(d, s.t, Record(pt, slot)), Offset(slot), pt)
  }

  function CachedScan(d: Dict, numKeys: nat, s: Scan): (r: Scan)
    ensures Stops(r.t, numKeys)
    decreases if s.t.tried < SLOT_LIMIT then SLOT_LIMIT - s.t.tried else 0
  {
    if Stops(s.t, numKeys) then s else CachedScan(d, numKeys, Step(d, s))
  }

  /**
   What every scan keeps. At the start of a page the offset last used is that of a page's last slot; within a
   page, either that page is at hand, or it is broken and nothing of it was read.
   */
  ghost predicate Cached(d: Dict, s: Scan) {
    var slot := s.t.tried;
    if slot % SLOTS_PER_PAGE == 0 then s.prev == Offset(31)
    else
      || (SlotPage(d, slot) == Opens(s.pt) && s.prev <= Offset(slot))
      || (SlotPage(d, slot).Broken? && s.prev == Offset(31))
  }

  /** The last slot of a page that is there and does not decrypt. */
  predicate Spoilt(d: Dict, slot: nat) {
    slot % SLOTS_PER_PAGE == 31 && SlotPage(d, slot).Broken?
  }

  /** The shortcut goes wrong at spoilt slots only, where it looks at a record of the page at hand. */
  lemma StepKeepsCache(d: Dict, s: Scan)
    requires Cached(d, s)
    ensures Cached(d, Step(d, s))
    ensures !Spoilt(d, s.t.tried) ==> Step(d, s).t == FreshStep(d, s.t)
    ensures Spoilt(d, s.t.tried) ==> Step(d, s) == Scan(Take(d, s.t, Record(s.pt, 31)), Offset(31), s.pt)
  {
    hide Nth, Take;
    var slot := s.t.tried;
    TakeAdvances(d, s.t, Record(s.pt, slot));
    if SlotPage(d, slot).Opens? { TakeAdvances(d, s.t, Record(SlotPage(d, slot).plain, slot)); }
    if (slot + 1) % SLOTS_PER_PAGE != 0 {
      assert SlotPage(d, slot + 1) == SlotPage(d, slot);
    }
    assert slot % SLOTS_PER_PAGE == 31 ==> Offset(slot) == Offset(31) && Record(s.pt, slot) == Record(s.pt, 31);
  }

  lemma TakeAdvances(d: Dict, t: Tally, record: seq<byte>)
    requires |record| == KV_STRIDE
    ensures Take(d, t, record).tried == t.tried + 1
  {
  }

  lemma {:induction false} CachedPrefix(d: Dict, numKeys: nat, s: Scan)
    ensures s.t.visits <= CachedScan(d, numKeys, s).t.visits
    decreases if s.t.tried < SLOT_LIMIT then SLOT_LIMIT - s.t.tried else 0
  {
    hide SlotPage, Parse, Record;
    if !Stops(s.t, numKeys) {
      CachedPrefix(d, numKeys, Step(d, s));
    }
  }

  lemma {:induction false} FreshLater(d: Dict, numKeys: nat, t: Tally)
    ensures var r := FreshScan(d, numKeys, t);
            && r.tried >= t.tried && t.visits <= r.visits
            && forall i :: |t.visits| <= i < |r.visits| ==> r.visits[i].slot >= t.tried
    decreases if t.tried < SLOT_LIMIT then SLOT_LIMIT - t.tried else 0
  {
    hide SlotPage, Parse, Record;
    if !Stops(t, numKeys) {
      FreshLater(d, numKeys, FreshStep(d, t));
    }
  }

  /** Once a spoilt slot is reached the two scans part for good. */
  lemma SpoiltParts(d: Dict, numKeys: nat, s: Scan)
    requires Cached(d, s) && !Stops(s.t, numKeys) && Spoilt(d, s.t.tried)
    ensures CachedScan(d, numKeys, s).t != FreshScan(d, numKeys, s.t)
    ensures FreshScan(d, numKeys, s.t).tried > s.t.tried
  {
    StepKeepsCache(d, s);
    hide SlotPage, Parse, Record, Cached;
    ScanNext(d, numKeys, s);
    CachedPrefix(d, numKeys, Step(d, s));
    FreshLater(d, numKeys, FreshStep(d, s.t));
    var c, f, n := CachedScan(d, numKeys, s).t, FreshScan(d, numKeys, s.t), |s.t.visits|;
    assert f == FreshScan(d, numKeys, FreshStep(d, s.t));
    assert Step(d, s).t.visits[n].slot == s.t.tried;
    assert c.visits[n].slot == s.t.tried;
  }

  /** No slot to try in lo..hi is spoilt. */
  ghost predicate Unspoilt(d: Dict, lo: nat, hi: nat) {
    forall slot :: lo <= slot < hi && slot < SLOT_LIMIT ==> !Spoilt(d, slot)
  }

  lemma UnspoiltStep(d: Dict, t: Tally, hi: nat)
    requires Aligned(d, t.tried) && FreshStep(d, t).tried <= hi && t.tried < SLOT_LIMIT
    ensures Unspoilt(d, t.tried, hi) <==> !Spoilt(d, t.tried) && Unspoilt(d, FreshStep(d, t).tried, hi)
  {
    hide Nth, Parse, Record;
    var lo := t.tried;
    if SlotPage(d, lo).Unmapped? {
      forall slot | lo <= slot < lo + SLOTS_PER_PAGE
        ensures !Spoilt(d, slot)
      {
        assert SlotPage(d, slot) == SlotPage(d, lo);
      }
    }
  }

  /** From any state of a scan: the shortcut changes nothing exactly if no slot up to the stop is spoilt. */
  lemma {:induction false} CachedScanIsFreshIff(d: Dict, numKeys: nat, s: Scan)
    requires Cached(d, s)
    ensures CachedScan(d, numKeys, s).t == FreshScan(d, numKeys, s.t) <==>
            Unspoilt(d, s.t.tried, FreshScan(d, numKeys, s.t).tried)
    decreases if s.t.tried < SLOT_LIMIT then SLOT_LIMIT - s.t.tried else 0
  {
    hide Step, FreshStep, SlotPage, Cached, Spoilt, Aligned;
    if !Stops(s.t, numKeys) {
      StepKeepsCache(d, s);
      if Spoilt(d, s.t.tried) {
        SpoiltParts(d, numKeys, s);
      } else {
        CachedScanIsFreshIff(d, numKeys, Step(d, s));
        FreshLater(d, numKeys, FreshStep(d, s.t));
        CachedIsAligned(d, s);
        UnspoiltStep(d, s.t, FreshScan(d, numKeys, s.t).tried);
      }
    }
  }

  lemma CachedIsAligned(d: Dict, s: Scan)
    requires Cached(d, s)
    ensures Aligned(d, s.t.tried)
  {
  }

  // ---- A page that does not decrypt ----

  function Steps(d: Dict, s: Scan, n: nat): Scan {
    if n == 0 then s else Step(d, Steps(d, s, n - 1))
  }

  lemma {:induction false} StepsCached(d: Dict, s: Scan, n: nat)
    requires Cached(d, s)
    ensures Cached(d, Steps(d, s, n))
  {
    hide Step, Cached;
    if n > 0 {
      StepsCached(d, s, n - 1);
      StepKeepsCache(d, Steps(d, s, n - 1));
    }
  }

  lemma {:induction false} BrokenSlots(d: Dict, s0: Scan, n: nat, k: nat)
    requires var s := Steps(d, s0, n);
             s.t.tried % SLOTS_PER_PAGE == 0 && SlotPage(d, s.t.tried).Broken? && s.prev == Offset(31) && k <= 31
    ensures var s := Steps(d, s0, n);
            Steps(d, s0, n + k) == s.(t := s.t.(tried := s.t.tried + k))
  {
    hide Nth, Take, Steps;
    if k > 0 {
      var s := Steps(d, s0, n);
      BrokenSlots(d, s0, n, k - 1);
      StepsNext(d, s0, n + k - 1);
      var slot := s.t.tried + k - 1;
      assert SlotPage(d, slot) == SlotPage(d, s.t.tried);
      assert slot % SLOTS_PER_PAGE == k - 1;
    }
  }

  lemma SpoiltAtEnd(d: Dict, slot: nat)
    requires slot % SLOTS_PER_PAGE == 0 && SlotPage(d, slot).Broken?
    ensures Spoilt(d, slot + 31)
  {
    hide Nth;
    assert SlotPage(d, slot + 31) == SlotPage(d, slot);
  }

  lemma AtPageStart(d: Dict, s: Scan)
    requires Cached(d, s)
    ensures s.t.tried % SLOTS_PER_PAGE == 0 ==> s.prev == Offset(31)
  {
  }

  lemma StepsNext(d: Dict, s: Scan, n: nat)
    ensures Steps(d, s, n + 1) == Step(d, Steps(d, s, n))
  {
    hide Step;
  }

  /**
   Whenever a scan comes to a broken page, its first 31 slots are passed over, and for its last the last
   record of the page at hand is looked at a second time.
   */
  lemma BrokenPageRereads(d: Dict, pt: Plain, n: nat)
    requires SlotPage(d, 0) == Opens(pt)
    ensures var s := Steps(d, Start(pt), n);
            s.t.tried % SLOTS_PER_PAGE == 0 && SlotPage(d, s.t.tried).Broken? ==>
              Steps(d, Start(pt), n + 32) ==
              Scan(Take(d, s.t.(tried := s.t.tried + 31), Record(s.pt, 31)), Offset(31), s.pt)
  {
    hide SlotPage, Take, Steps, Start, Record, Step, Cached, Offset, Spoilt;
    var s0 := Start(pt);
    var s := Steps(d, s0, n);
    StartIsCached(d, pt);
    StepsCached(d, s0, n);
    AtPageStart(d, s);
    if s.t.tried % SLOTS_PER_PAGE == 0 && SlotPage(d, s.t.tried).Broken? {
      BrokenSlots(d, s0, n, 31);
      StepsNext(d, s0, n + 31);
      SpoiltAtEnd(d, s.t.tried);
      StepsCached(d, s0, n + 31);
      StepKeepsCache(d, Steps(d, s0, n + 31));
    }
  }

  // ---- What is tallied ----

  /** The visit is to a key of that name. */
  predicate Named(d: Dict, v: Visit, name: string) {
    |v.record| == KV_STRIDE && Parse(d, v.record).Key? && Parse(d, v.record).name == name
  }

  function KeyCount(d: Dict, visits: seq<Visit>): nat {
    if visits == [] then 0 else
    var last := visits[|visits| - 1].record;
    KeyCount(d, visits[..|visits| - 1]) + if |last| == KV_STRIDE && Parse(d, last).Key? then 1 else 0
  }

  /** Visit i is the last to a key of that name. */
  ghost predicate LastNamed(d: Dict, visits: seq<Visit>, i: nat, name: string) {
    i < |visits| && Named(d, visits[i], name) && forall j :: i < j < |visits| ==> !Named(d, visits[j], name)
  }

  /** Keys are counted visit by visit; each name has the value of the last key visited under it. */
  ghost predicate Tallied(d: Dict, t: Tally) {
    && t.found == KeyCount(d, t.visits)
    && (forall name :: name in t.keys ==> exists i: nat :: LastNamed(d, t.visits, i, name))
    && (forall i: nat, name :: LastNamed(d, t.visits, i, name) ==>
          name in t.keys && t.keys[name] == Parse(d, t.visits[i].record).data)
  }

  lemma TakeTallied(d: Dict, t: Tally, record: seq<byte>)
    requires |record| == KV_STRIDE && Tallied(d, t)
    ensures Tallied(d, Take(d, t, record))
  {
    hide Parse;
    var t', n := Take(d, t, record), |t.visits|;
    assert t'.visits[..n] == t.visits;
    forall name | name in t'.keys ensures exists i: nat :: LastNamed(d, t'.visits, i, name) {
      if Named(d, t'.visits[n], name) {
        assert LastNamed(d, t'.visits, n, name);
      } else {
        var i: nat :| LastNamed(d, t.visits, i, name);
        assert LastNamed(d, t'.visits, i, name);
      }
    }
    forall i: nat, name | LastNamed(d, t'.visits, i, name)
      ensures name in t'.keys && t'.keys[name] == Parse(d, t'.visits[i].record).data
    {
      if i < n {
        assert !Named(d, t'.visits[n], name);
        assert LastNamed(d, t.visits, i, name);
      }
    }
  }

  lemma {:induction false} FreshTallied(d: Dict, numKeys: nat, t: Tally)
    requires Tallied(d, t)
    ensures Tallied(d, FreshScan(d, numKeys, t))
    decreases if t.tried < SLOT_LIMIT then SLOT_LIMIT - t.tried else 0
  {
    hide SlotPage, Take, Tallied, Record;
    if !Stops(t, numKeys) {
      FreshStepTallied(d, t);
      FreshTallied(d, numKeys, FreshStep(d, t));
    }
  }

  lemma FreshStepTallied(d: Dict, t: Tally)
    requires Tallied(d, t)
    ensures Tallied(d, FreshStep(d, t))
  {
    hide SlotPage, Take, KeyCount, LastNamed;
    if SlotPage(d, t.tried).Opens? { TakeTallied(d, t, Record(SlotPage(d, t.tried).plain, t.tried)); }
  }

  lemma StepTallied(d: Dict, s: Scan)
    requires Tallied(d, s.t)
    ensures Tallied(d, Step(d, s).t)
  {
    hide SlotPage, Take, KeyCount, LastNamed, Record;
    var slot := s.t.tried;
    TakeTallied(d, s.t, Record(s.pt, slot));
    if SlotPage(d, slot).Opens? { TakeTallied(d, s.t, Record(SlotPage(d, slot).plain, slot)); }
  }

  lemma {:induction false} CachedTallied(d: Dict, numKeys: nat, s: Scan)
    requires Tallied(d, s.t)
    ensures Tallied(d, CachedScan(d, numKeys, s).t)
    decreases if s.t.tried < SLOT_LIMIT then SLOT_LIMIT - s.t.tried else 0
  {
    hide Step, Tallied;
    if !Stops(s.t, numKeys) {
      StepTallied(d, s);
      CachedTallied(d, numKeys, Step(d, s));
    }
  }

  /** However its pages are, the keys read are those of the records visited, the last one winning. */
  lemma ScanTallies(d: Dict, pt: Plain, numKeys: nat)
    ensures Tallied(d, CachedScan(d, numKeys, Start(pt)).t)
    ensures Tallied(d, FreshScan(d, numKeys, Start(pt).t))
  {
    hide CachedScan, FreshScan, Parse;
    CachedTallied(d, numKeys, Start(pt));
    FreshTallied(d, numKeys, Start(pt).t);
  }

  // ---- The constructor ----

  function Start(pt: Plain): Scan {
    Scan(Tally(0, 1, map[], []), 128, pt)
  }

  /** The scan starts in the page of the dictionary's header, which is at hand. */
  lemma StartIsCached(d: Dict, pt: Plain)
    requires SlotPage(d, 0) == Opens(pt)
    ensures Cached(d, Start(pt))
  {
    hide Nth;
  }

  /**
   The scan is the one that decrypts afresh, and so visits exactly the readable slots up to its stop, if and
   only if no page whose last slot comes before the stop is there without decrypting.
   */
  lemma ScanSoundIff(d: Dict, pt: Plain, numKeys: nat)
    requires SlotPage(d, 0) == Opens(pt)
    ensures var c, f := CachedScan(d, numKeys, Start(pt)).t, FreshScan(d, numKeys, Start(pt).t);
            && f.visits == Readable(d, 1, f.tried)
            && (c == f <==> Unspoilt(d, 1, f.tried))
  {
    hide Nth, CachedScan, FreshScan;
    StartIsCached(d, pt);
    CachedScanIsFreshIff(d, numKeys, Start(pt));
    NextAligned(d, 0);
    FreshVisits(d, numKeys, Start(pt).t);
    var f := FreshScan(d, numKeys, Start(pt).t);
    assert [] + Readable(d, 1, f.tried) == Readable(d, 1, f.tried);
  }

  // ---- A key counted twice, and one missed ----

  /** Zeros, but for the number of keys, 2, in the header and the valid flag of slot 31. */
  function HeaderPage(): (p: Plain)
    ensures forall i :: 0 <= i < |p| ==> p[i] == if i == 12 then 2 else if i == Offset(31) + 24 then 1 else 0
  {
    seq(4 + VPAGE_SIZE, i => if i == 12 then 2 else if i == Offset(31) + 24 then 1 else 0)
  }

  /** A valid flag in its first slot, and a name of one byte. */
  function OtherPage(): (p: Plain)
    ensures forall i :: 0 <= i < |p| ==> p[i] == if i == Offset(0) + 24 || i == Offset(0) + 32 then 1 else 0
  {
    seq(4 + VPAGE_SIZE, i => if i == Offset(0) + 24 || i == Offset(0) + 32 then 1 else 0)
  }

  /** A dictionary of three pages, of which the second does not decrypt. */
  function ThreePages(): Dict {
    Dict(Volume(map[4096 * VPAGE_SIZE := 0, 4097 * VPAGE_SIZE := PAGE_SIZE, 4098 * VPAGE_SIZE := 2 * PAGE_SIZE],
                seq(3 * PAGE_SIZE, i requires 0 <= i < 3 * PAGE_SIZE => i / PAGE_SIZE),
                page => if page == [] || page[0] == 1 then Err("bogus")
                        else Ok(if page[0] == 0 then HeaderPage() else OtherPage())),
         0,
         name => if name == [] then "a" else "b")
  }

  lemma ThreePagesAre(slot: nat)
    requires slot < 96
    ensures SlotPage(ThreePages(), slot) ==
            if slot < 32 then Opens(HeaderPage()) else if slot < 64 then Broken else Opens(OtherPage())
  {
    hide HeaderPage, OtherPage;
    var vol := ThreePages().vol;
    var q := 4096 + slot / SLOTS_PER_PAGE;
    assert q == if slot < 32 then 4096 else if slot < 64 then 4097 else 4098;
    assert q * VPAGE_SIZE in vol.v2p && vol.v2p[q * VPAGE_SIZE] == (q - 4096) * PAGE_SIZE;
    var page := Slice(vol.disk, (q - 4096) * PAGE_SIZE, (q - 4096) * PAGE_SIZE + PAGE_SIZE);
    assert |page| == PAGE_SIZE && page[0] == vol.disk[(q - 4096) * PAGE_SIZE] == q - 4096;
  }

  lemma NothingToRead(vol: Volume)
    ensures Value(vol, 0, 0) == Ok([])
  {
  }

  /** A record of zeros but for flag and name length. */
  lemma ParseSimple(record: seq<byte>)
    requires |record| == KV_STRIDE && record[24] < 2 && record[32] < 2
    requires forall i :: 0 <= i < KV_STRIDE && i != 24 && i != 32 ==> record[i] == 0
    ensures Parse(ThreePages(), record) ==
            if record[24] == 0 then NotAKey else Key(if record[32] == 0 then "a" else "b", [])
  {
    hide LeValue, Value, HeaderPage, OtherPage;
    LeZeros(record[0..8]);
    LeZeros(record[8..16]);
    LeLowFirst(record[24..28]);
    NothingToRead(ThreePages().vol);
    assert |Slice(record, 33, 33 + record[32])| == record[32];
  }

  lemma HeaderRecord(slot: nat)
    requires 1 <= slot < 32
    ensures Parse(ThreePages(), Record(HeaderPage(), slot)) == if slot == 31 then Key("a", []) else NotAKey
  {
    hide Parse;
    var record := Record(HeaderPage(), slot);
    assert Offset(slot) == 4 + slot * KV_STRIDE && Offset(31) == 4 + 31 * KV_STRIDE;
    forall i | 0 <= i < KV_STRIDE
      ensures record[i] == if slot == 31 && i == 24 then 1 else 0
    {
      assert record[i] == HeaderPage()[Offset(slot) + i];
    }
    ParseSimple(record);
  }

  lemma OtherRecord()
    ensures Parse(ThreePages(), Record(OtherPage(), 64)) == Key("b", [])
  {
    hide Parse;
    var record := Record(OtherPage(), 64);
    assert Offset(64) == 4 && Offset(0) == 4;
    forall i | 0 <= i < KV_STRIDE
      ensures record[i] == if i == 24 || i == 32 then 1 else 0
    {
      assert record[i] == OtherPage()[4 + i];
    }
    ParseSimple(record);
  }

  lemma {:induction false} RereadHeader(s: Scan)
    requires 1 <= s.t.tried < 32 && s.t.found == 0 && s.t.keys == map[]
    requires s.pt == HeaderPage() && s.prev <= Offset(s.t.tried)
    ensures var c := CachedScan(ThreePages(), 2, s).t;
            c.found == 2 && c.keys == map["a" := []]
    decreases 32 - s.t.tried
  {
    hide SlotPage, Parse, Record, HeaderPage, OtherPage, ThreePages, CachedScan;
    ThreePagesAre(s.t.tried);
    HeaderRecord(s.t.tried);
    ScanNext(ThreePages(), 2, s);
    if s.t.tried < 31 { RereadHeader(Step(ThreePages(), s)); } else { RereadBroken(Step(ThreePages(), s)); }
  }

  lemma {:induction false} RereadBroken(s: Scan)
    requires 32 <= s.t.tried < 64 && s.t.found == 1 && s.t.keys == map["a" := []]
    requires s.pt == HeaderPage() && s.prev == Offset(31)
    ensures var c := CachedScan(ThreePages(), 2, s).t;
            c.found == 2 && c.keys == map["a" := []]
    decreases 64 - s.t.tried
  {
    hide SlotPage, Parse, HeaderPage, OtherPage, ThreePages, CachedScan;
    ThreePagesAre(s.t.tried);
    ScanNext(ThreePages(), 2, s);
    if s.t.tried < 63 {
      RereadBroken(Step(ThreePages(), s));
    } else {
      HeaderRecord(31);
      assert Record(s.pt, 63) == Record(s.pt, 31);
      ScanEnd(ThreePages(), 2, Step(ThreePages(), s));
    }
  }

  lemma {:induction false} FreshThreePages(t: Tally)
    requires 1 <= t.tried <= 64
    requires if t.tried < 32 then t.found == 0 && t.keys == map[] else t.found == 1 && t.keys == map["a" := []]
    ensures var f := FreshScan(ThreePages(), 2, t);
            f.found == 2 && f.keys == map["a" := [], "b" := []]
    decreases 64 - t.tried
  {
    hide SlotPage, Parse, Record, HeaderPage, OtherPage, ThreePages;
    ThreePagesAre(t.tried);
    if t.tried < 64 {
      if t.tried < 32 { HeaderRecord(t.tried); }
      FreshThreePages(FreshStep(ThreePages(), t));
    } else {
      OtherRecord();
    }
  }

  /**
   With a page lost, the record before it is counted twice: all keys count as found, although the last one was
   never read.
   */
  lemma RereadHidesLoss()
    ensures var d, pt := ThreePages(), HeaderPage();
            var c, f := CachedScan(d, 2, Start(pt)).t, FreshScan(d, 2, Start(pt).t);
            && SlotPage(d, 0) == Opens(pt) && LeValue(pt[12..16]) == 2
            && c.found == 2 && c.keys == map["a" := []]
            && f.found == 2 && f.keys == map["a" := [], "b" := []]
  {
    var n := HeaderPage()[12..16];
    assert n[0] == 2 && forall i :: 1 <= i < 4 ==> n[i] == HeaderPage()[12 + i] == 0;
    LeLowFirst(n);
    hide SlotPage, HeaderPage, OtherPage, ThreePages, CachedScan, FreshScan, LeValue;
    ThreePagesAre(0);
    RereadHeader(Start(HeaderPage()));
    FreshThreePages(Start(HeaderPage()).t);
  }

  // ---- The methods ----

  /** `foundAll` is left unset for a dictionary of no keys. */
  method BasisDict(d: Dict) returns (valid: bool, keys: KeyMap, foundAll: Option<bool>)
    ensures valid <==> SlotPage(d, 0).Opens?
    ensures valid ==>
              var pt := SlotPage(d, 0).plain;
              var numKeys := LeValue(pt[12..16]);
              var r := CachedScan(d, numKeys, Start(pt)).t;
              keys == r.keys && foundAll == if numKeys == 0 then None else Some(r.found == numKeys)
    ensures !valid ==> keys == map[] && foundAll == None
  {
    hide Nth, Take, CachedScan, LeValue;
    SlotsFitPages(d, 0);
    keys, foundAll := map[], None;
    var header := Nth(d.vol, SlotAddr(d, 0) / VPAGE_SIZE);
    match header {
      case Unmapped => return false, map[], None;
      case Broken => return false, map[], None;
      case Opens(pt) =>
        valid := true;
        var numKeys := LeValue(pt[12..16]);
        if numKeys > 0 {
          var all;
          keys, all := ScanKeys(d, pt, numKeys);
          foundAll := Some(all);
        } else {
          ScanEnd(d, numKeys, Start(pt));
        }
    }
  }

  method ScanKeys(d: Dict, header: Plain, numKeys: nat) returns (keys: KeyMap, foundAll: bool)
    ensures var r := CachedScan(d, numKeys, Start(header)).t;
            keys == r.keys && foundAll == (r.found == numKeys)
  {
    hide Nth, Parse, CachedScan;
    keys := map[];
    var found: nat, tried: nat, prev: nat, pt := 0, 1, 128, header;
    ghost var visits: seq<Visit> := [];
    while found < numKeys && tried < SLOT_LIMIT
      invariant found <= numKeys
      invariant CachedScan(d, numKeys, Start(header)) ==
                CachedScan(d, numKeys, Scan(Tally(found, tried, keys, visits), prev, pt))
      decreases SLOT_LIMIT - tried
    {
      ghost var s := Scan(Tally(found, tried, keys, visits), prev, pt);
      ScanNext(d, numKeys, s);
      SlotsFitPages(d, tried);
      var page := Nth(d.vol, SlotAddr(d, tried) / VPAGE_SIZE);
      if page.Unmapped? {
        tried := tried + VPAGE_SIZE / KV_STRIDE;
        continue;
      }
      var keyIndex := 4 + tried % (VPAGE_SIZE / KV_STRIDE) * KV_STRIDE;
      var readable := true;
      if keyIndex < prev {
        if page.Opens? { pt := page.plain; } else { readable := false; }
      }
      if readable {
        prev := keyIndex;
        var record := pt[keyIndex..keyIndex + KV_STRIDE];
        visits := visits + [Visit(tried, record)];
        match Parse(d, record) {
          case NotAKey =>
          case Key(name, data) =>
            keys := keys[name := data];
            found := found + 1;
        }
      }
      tried := tried + 1;
    }
    ScanEnd(d, numKeys, Scan(Tally(found, tried, keys, visits), prev, pt));
    foundAll := found >= numKeys;
  }

  lemma ScanNext(d: Dict, numKeys: nat, s: Scan)
    requires !Stops(s.t, numKeys)
    ensures CachedScan(d, numKeys, s) == CachedScan(d, numKeys, Step(d, s))
  {
    hide Step;
  }

  lemma ScanEnd(d: Dict, numKeys: nat, s: Scan)
    requires Stops(s.t, numKeys)
    ensures CachedScan(d, numKeys, s) == s
  {
    hide Step;
  }
}
