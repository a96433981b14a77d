/**
 Reconstruction of one basis' page table from the encrypted entries of a PDDB image, and
 the resolution of entries that claim the same virtual page.
 */
module PageTable {
  import opened Bytes
  import opened Image
  import opened Murmur

  const ROOT_VA := 0xFE0

  type Pte = s: seq<byte> | |s| == 16 witness [0, 0, 0, 0, 0, 0, 0, 0, 0, 0, 0, 0, 0, 0, 0, 0]

  /** Decryption of a data page: its plaintext, a caught ValueError, or an exception that gets away. */
  datatype Opened = Plain(bytes: seq<byte>) | Bogus | Fatal(error: string)

  /** Keys of a basis: the entry cipher and page decryption (of root pages, of others), and the data section. */
  datatype Basis = Basis(ecb: Pte -> Pte, open: (bool, seq<byte>) -> Opened, data: Option<seq<byte>>)

  /** Tables so far; the next slot is taken to be physical page `next`. */
  datatype Table = Table(v2p: map<nat, nat>, p2v: map<nat, nat>, next: nat)

  /** The address takes in seven bytes, the flags byte among them. */
  function Addr(pte: Pte): nat {
    LeValue(pte[..7]) * VPAGE_SIZE
  }

  /** How a slot is dealt with; `Evict` and `Drop` are the ways out that do not advance to the next page. */
  datatype Action = Skip | Fresh | Tie | Evict | Drop | Raise(error: string) {
    predicate Records() { Fresh? || Tie? || Evict? }
    predicate Advances() { Skip? || Fresh? || Tie? }
  }

  /** Two pages claim one address: compare their journals. */
  function Resolve(b: Basis, va: nat, prev: nat, new_: nat): Action {
    match b.data
    case None => Tie
    case Some(data) =>
      match b.open(va == ROOT_VA, Slice(data, prev, prev + PAGE_SIZE))
      case Fatal(e) => Raise(e)
      case Bogus => Evict
      case Plain(p) =>
        match b.open(va == ROOT_VA, Slice(data, new_, new_ + PAGE_SIZE))
        case Fatal(e) => Raise(e)
        case Bogus => Drop
        case Plain(n) =>
          var prevJournal, newJournal := LeValue(Slice(p, 0, 4)), LeValue(Slice(n, 0, 4));
          if newJournal > prevJournal then Evict else if newJournal == prevJournal then Tie else Drop
  }

  predicate Valid(b: Basis, slot: seq<byte>): (v: bool)
    ensures v ==> |slot| == 16
  {
    |slot| == 16 && PteValid(b.ecb(slot))
  }

  function Va(b: Basis, slot: seq<byte>): nat
    requires |slot| == 16
  {
    Addr(b.ecb(slot))
  }

  function Act(b: Basis, t: Table, slot: seq<byte>): (a: Action)
    ensures a.Records() || a.Drop? ==> Valid(b, slot)
    ensures a.Fresh? <==> Valid(b, slot) && Va(b, slot) !in t.v2p
  {
    if |slot| != 16 then Raise("short page-table entry")
    else if !Valid(b, slot) then Skip
    else if Va(b, slot) !in t.v2p then Fresh
    else Resolve(b, Va(b, slot), t.v2p[Va(b, slot)], PAGE_SIZE * t.next)
  }

  function Apply(t: Table, a: Action, va: nat): Table {
    Table(if a.Fresh? then t.v2p[va := PAGE_SIZE * t.next] else t.v2p,
          if a.Records() then t.p2v[PAGE_SIZE * t.next := va] else t.p2v,
          if a.Advances() then t.next + 1 else t.next)
  }

  /** The tables after the first k slots. */
  function Run(b: Basis, slots: seq<seq<byte>>, k: nat): Result<Table>
    requires k <= |slots|
  {
    if k == 0 then Ok(Table(map[], map[], 0)) else
    match Run(b, slots, k - 1)
    case Err(e) => Err(e)
    case Ok(t) =>
      var slot := slots[k - 1];
      var a := Act(b, t, slot);
      if a.Raise? then Err(a.error) else Ok(Apply(t, a, if |slot| == 16 then Va(b, slot) else 0))
  }

  /** The action taken at slot i, or what kept the run from getting there. */
  function ActAt(b: Basis, slots: seq<seq<byte>>, i: nat): Action
    requires i < |slots|
  {
    match Run(b, slots, i)
    case Err(e) => Raise(e)
    case Ok(t) => Act(b, t, slots[i])
  }

  /** Slot i was a conflict left without advancing. */
  predicate Stalled(b: Basis, slots: seq<seq<byte>>, i: nat)
    requires i < |slots|
  {
    Run(b, slots, i).Ok? && !ActAt(b, slots, i).Advances()
  }

  function Stalls(b: Basis, slots: seq<seq<byte>>, k: nat): (n: nat)
    requires k <= |slots|
    ensures n <= k
  {
    if k == 0 then 0 else Stalls(b, slots, k - 1) + if Stalled(b, slots, k - 1) then 1 else 0
  }

  /** No earlier valid slot claims the address of slot i. */
  ghost predicate First(b: Basis, slots: seq<seq<byte>>, i: nat)
    requires i < |slots|
  {
    && Valid(b, slots[i])
    && forall j :: 0 <= j < i && Valid(b, slots[j]) ==> Va(b, slots[j]) != Va(b, slots[i])
  }

  // ---- Laws of every run ----

  lemma {:induction false} PrefixRuns(b: Basis, slots: seq<seq<byte>>, i: nat, k: nat)
    requires i <= k <= |slots|
    ensures Run(b, slots, k).Ok? ==> Run(b, slots, i).Ok?
  {
    hide Act, Va;
    if i < k { PrefixRuns(b, slots, i, k - 1); }
  }

  lemma {:induction false} NextIsSlotLessStalls(b: Basis, slots: seq<seq<byte>>, k: nat)
    requires k <= |slots|
    ensures Run(b, slots, k).Ok? ==> Run(b, slots, k).value.next == k - Stalls(b, slots, k)
  {
    hide Act;
    if k > 0 { NextIsSlotLessStalls(b, slots, k - 1); }
  }

  /** A mapped address is that of some valid slot seen, and conversely. */
  lemma {:induction false} MappedAddresses(b: Basis, slots: seq<seq<byte>>, k: nat, va: nat)
    requires k <= |slots|
    ensures Run(b, slots, k).Ok? ==>
              (va in Run(b, slots, k).value.v2p <==>
               exists i :: 0 <= i < k && Valid(b, slots[i]) && Va(b, slots[i]) == va)
  {
    hide Valid, Va, Resolve;
    if k > 0 && Run(b, slots, k).Ok? {
      MappedAddresses(b, slots, k - 1, va);
      var t := Run(b, slots, k - 1).value;
      assert Valid(b, slots[k - 1]) && Va(b, slots[k - 1]) == va ==> va in Run(b, slots, k).value.v2p;
    }
  }

  lemma FreshIsFirst(b: Basis, slots: seq<seq<byte>>, i: nat)
    requires i < |slots|
    ensures Run(b, slots, i).Ok? ==> (ActAt(b, slots, i).Fresh? <==> First(b, slots, i))
  {
    hide Valid, Va, Run;
    if Valid(b, slots[i]) { MappedAddresses(b, slots, i, Va(b, slots[i])); }
  }

  /** Entries of v2p are never rewritten. */
  lemma {:induction false} NeverRewritten(b: Basis, slots: seq<seq<byte>>, i: nat, k: nat, va: nat)
    requires i <= k <= |slots|
    ensures Run(b, slots, k).Ok? ==>
              && Run(b, slots, i).Ok?
              && var t, t' := Run(b, slots, i).value, Run(b, slots, k).value;
              (va in t.v2p ==> va in t'.v2p && t'.v2p[va] == t.v2p[va])
  {
    hide Valid, Va, Resolve;
    if i < k { NeverRewritten(b, slots, i, k - 1, va); }
  }

  /** The first valid slot with an address decides its page: slot number less the stalls before it. */
  lemma FirstSlotDecides(b: Basis, slots: seq<seq<byte>>, i: nat, k: nat)
    requires i < k <= |slots|
    ensures Run(b, slots, k).Ok? && First(b, slots, i) ==>
              var v2p := Run(b, slots, k).value.v2p;
              && Va(b, slots[i]) in v2p
              && v2p[Va(b, slots[i])] == PAGE_SIZE * (i - Stalls(b, slots, i))
  {
    hide Valid, Va, Run, Stalls, Act;
    if Run(b, slots, k).Ok? && First(b, slots, i) {
      PrefixRuns(b, slots, i + 1, k);
      PrefixRuns(b, slots, i, k);
      FreshIsFirst(b, slots, i);
      NextIsSlotLessStalls(b, slots, i);
      RunNext(b, slots, i, Run(b, slots, i).value);
      NeverRewritten(b, slots, i + 1, k, Va(b, slots[i]));
    }
  }

  /**
   The first n slots meet no conflict but ties, when each is taken to be in its own page: something to be told
   from entries and data pages alone.
   */
  ghost predicate OnlyTies(b: Basis, slots: seq<seq<byte>>, n: nat)
    requires n <= |slots|
  {
    forall f, j :: 0 <= f < j < n && Repeats(b, slots, f, j) ==>
                     Resolve(b, Va(b, slots[j]), PAGE_SIZE * f, PAGE_SIZE * j).Tie?
  }

  /** Slot j claims the address that slot f was first to claim. */
  ghost predicate Repeats(b: Basis, slots: seq<seq<byte>>, f: nat, j: nat)
    requires f < |slots| && j < |slots|
  {
    First(b, slots, f) && Valid(b, slots[j]) && Va(b, slots[f]) == Va(b, slots[j])
  }

  lemma {:induction false} FirstClaim(b: Basis, slots: seq<seq<byte>>, j: nat, f: nat) returns (g: nat)
    requires f <= j < |slots| && Valid(b, slots[j]) && Valid(b, slots[f]) && Va(b, slots[f]) == Va(b, slots[j])
    ensures g <= f && Repeats(b, slots, g, j)
    decreases f
  {
    hide Valid, Va;
    if First(b, slots, f) {
      g := f;
    } else {
      var i :| 0 <= i < f && Valid(b, slots[i]) && Va(b, slots[i]) == Va(b, slots[f]);
      g := FirstClaim(b, slots, j, i);
    }
  }

  lemma OneFirst(b: Basis, slots: seq<seq<byte>>, f: nat, g: nat, j: nat)
    requires f < |slots| && g < |slots| && j < |slots| && Repeats(b, slots, f, j) && Repeats(b, slots, g, j)
    ensures f == g
  {
    hide Valid, Va;
  }

  lemma {:induction false} StallsMonotonic(b: Basis, slots: seq<seq<byte>>, i: nat, k: nat)
    requires i <= k <= |slots|
    ensures Stalls(b, slots, i) <= Stalls(b, slots, k)
  {
    hide Stalled;
    if i < k { StallsMonotonic(b, slots, i, k - 1); }
  }

  /** With nothing stalled so far, a repeated slot pits its own page against that of the first claim. */
  lemma RepeatAct(b: Basis, slots: seq<seq<byte>>, f: nat, j: nat)
    requires f < j < |slots| && Repeats(b, slots, f, j)
    ensures Run(b, slots, j).Ok? && Stalls(b, slots, j) == 0 ==>
              ActAt(b, slots, j) == Resolve(b, Va(b, slots[j]), PAGE_SIZE * f, PAGE_SIZE * j)
  {
    hide Run, Valid, Va, Resolve, Stalls;
    FirstSlotDecides(b, slots, f, j);
    NextIsSlotLessStalls(b, slots, j);
    StallsMonotonic(b, slots, f, j);
  }

  lemma StallsUnlessTie(b: Basis, slots: seq<seq<byte>>, j: nat)
    requires j < |slots|
    ensures Run(b, slots, j + 1).Ok? && Stalls(b, slots, j) == 0 ==>
              (!Stalled(b, slots, j) <==>
               forall f :: 0 <= f < j && Repeats(b, slots, f, j) ==>
                             Resolve(b, Va(b, slots[j]), PAGE_SIZE * f, PAGE_SIZE * j).Tie?)
  {
    if !(Run(b, slots, j + 1).Ok? && Stalls(b, slots, j) == 0) { return; }
    PrefixRuns(b, slots, j, j + 1);
    FreshIsFirst(b, slots, j);
    if Valid(b, slots[j]) {
      var g := FirstClaim(b, slots, j, j);
      if g < j {
        RepeatAct(b, slots, g, j);
        ResolveCases(b, Va(b, slots[j]), PAGE_SIZE * g, PAGE_SIZE * j);
        OnlyFirst(b, slots, g, j);
      } else {
        OnlyFirst(b, slots, j, j);
      }
    }
    hide First, Valid, Va, Resolve, Stalls;
  }

  lemma OnlyFirst(b: Basis, slots: seq<seq<byte>>, g: nat, j: nat)
    requires g < |slots| && j < |slots| && Repeats(b, slots, g, j)
    ensures forall f :: 0 <= f < j && Repeats(b, slots, f, j) ==> f == g
  {
    hide Repeats;
    forall f | 0 <= f < j && Repeats(b, slots, f, j)
      ensures f == g
    {
      OneFirst(b, slots, f, g, j);
    }
  }

  lemma {:induction false} NoStallsIffOnlyTies(b: Basis, slots: seq<seq<byte>>, n: nat)
    requires n <= |slots|
    ensures Run(b, slots, n).Ok? ==> (Stalls(b, slots, n) == 0 <==> OnlyTies(b, slots, n))
  {
    hide Run, Repeats, Stalled, Resolve, Va;
    if n > 0 && Run(b, slots, n).Ok? {
      PrefixRuns(b, slots, n - 1, n);
      NoStallsIffOnlyTies(b, slots, n - 1);
      StallsUnlessTie(b, slots, n - 1);
    }
  }

  // ---- When decoding ends in an error ----

  /** A conflict of pages p and q that nothing catches: p fails its key commitment, or p opens and q does. */
  predicate Deadly(b: Basis, va: nat, p: nat, q: nat) {
    && b.data.Some?
    && var prev := b.open(va == ROOT_VA, Slice(b.data.value, p, p + PAGE_SIZE));
       var new_ := b.open(va == ROOT_VA, Slice(b.data.value, q, q + PAGE_SIZE));
       prev.Fatal? || (prev.Plain? && new_.Fatal?)
  }

  lemma DeadlyRaises(b: Basis, va: nat, p: nat, q: nat)
    ensures Resolve(b, va, p, q).Raise? <==> Deadly(b, va, p, q)
  {
    hide LeValue, Slice;
  }

  /** Slot j is cut short, or is a deadly conflict with the first claim to its address. */
  ghost predicate EndsAt(b: Basis, slots: seq<seq<byte>>, j: nat)
    requires j < |slots|
  {
    |slots[j]| != 16 || exists f: nat :: DeadlyRepeat(b, slots, f, j)
  }

  ghost predicate DeadlyRepeat(b: Basis, slots: seq<seq<byte>>, f: nat, j: nat)
    requires j < |slots|
  {
    && f < j && Repeats(b, slots, f, j)
    && Deadly(b, Va(b, slots[j]), PAGE_SIZE * (f - Stalls(b, slots, f)), PAGE_SIZE * (j - Stalls(b, slots, j)))
  }

  lemma RaisesIff(b: Basis, slots: seq<seq<byte>>, j: nat)
    requires j < |slots| && |slots[j]| == 16
    ensures Run(b, slots, j).Ok? ==> (ActAt(b, slots, j).Raise? <==> exists f: nat :: DeadlyRepeat(b, slots, f, j))
  {
    if !Run(b, slots, j).Ok? { return; }
    FreshIsFirst(b, slots, j);
    if Valid(b, slots[j]) {
      var g := FirstClaim(b, slots, j, j);
      OnlyFirst(b, slots, g, j);
      if g < j {
        FirstSlotDecides(b, slots, g, j);
        NextIsSlotLessStalls(b, slots, j);
        RepeatRaises(b, slots, g, j);
      }
    }
    hide First, Va, Resolve, Stalls, Deadly, Run;
  }

  lemma RepeatRaises(b: Basis, slots: seq<seq<byte>>, g: nat, j: nat)
    requires g < j < |slots| && Repeats(b, slots, g, j) && Run(b, slots, j).Ok?
    requires var t := Run(b, slots, j).value;
             && Va(b, slots[j]) in t.v2p && t.v2p[Va(b, slots[j])] == PAGE_SIZE * (g - Stalls(b, slots, g))
             && t.next == j - Stalls(b, slots, j)
    ensures ActAt(b, slots, j).Raise? <==> DeadlyRepeat(b, slots, g, j)
  {
    hide Run, Stalls, Va, Resolve, Deadly, First;
    var t := Run(b, slots, j).value;
    DeadlyRaises(b, Va(b, slots[j]), t.v2p[Va(b, slots[j])], PAGE_SIZE * t.next);
  }

  /** Decoding ends in an error if and only if some slot is short or meets a deadly conflict. */
  lemma {:induction false} DecodingEndsIff(b: Basis, slots: seq<seq<byte>>, n: nat)
    requires n <= |slots|
    ensures Run(b, slots, n).Err? <==> exists j :: 0 <= j < n && EndsAt(b, slots, j)
  {
    hide Act, Va, DeadlyRepeat;
    if n > 0 {
      DecodingEndsIff(b, slots, n - 1);
      if |slots[n - 1]| == 16 { RaisesIff(b, slots, n - 1); }
      ShortRaises(b, slots, n - 1);
      assert Run(b, slots, n).Err? <==> Run(b, slots, n - 1).Err? || EndsAt(b, slots, n - 1);
    }
  }

  lemma ShortRaises(b: Basis, slots: seq<seq<byte>>, j: nat)
    requires j < |slots|
    ensures Run(b, slots, j).Ok? && |slots[j]| != 16 ==> ActAt(b, slots, j).Raise?
  {
    hide Run;
  }

  lemma TiesAreNotDeadly(b: Basis, slots: seq<seq<byte>>, j: nat)
    requires j < |slots| && OnlyTies(b, slots, j + 1) && Stalls(b, slots, j) == 0
    ensures forall f: nat :: !DeadlyRepeat(b, slots, f, j)
  {
    hide Va, Resolve, First, Deadly, Stalls;
    forall f: nat
      ensures !DeadlyRepeat(b, slots, f, j)
    {
      if f < j && Repeats(b, slots, f, j) {
        StallsMonotonic(b, slots, f, j);
        DeadlyRaises(b, Va(b, slots[j]), PAGE_SIZE * f, PAGE_SIZE * j);
      }
    }
  }

  /** So whole slots that meet only ties decode. */
  lemma {:induction false} OnlyTiesDecode(b: Basis, slots: seq<seq<byte>>, n: nat)
    requires n <= |slots| && (forall j :: 0 <= j < n ==> |slots[j]| == 16) && OnlyTies(b, slots, n)
    ensures Run(b, slots, n).Ok? && Run(b, slots, n).value.next == n
  {
    hide Run, OnlyTies, Stalls, DeadlyRepeat;
    if n == 0 {
      RunStart(b, slots);
    } else {
      FewerTies(b, slots, n - 1);
      OnlyTiesDecode(b, slots, n - 1);
      NoStallsIffOnlyTies(b, slots, n - 1);
      TiesAreNotDeadly(b, slots, n - 1);
      RaisesIff(b, slots, n - 1);
      RunNext(b, slots, n - 1, Run(b, slots, n - 1).value);
      NoStallsIffOnlyTies(b, slots, n);
      NextIsSlotLessStalls(b, slots, n);
    }
  }

  lemma FewerTies(b: Basis, slots: seq<seq<byte>>, n: nat)
    requires n < |slots|
    ensures OnlyTies(b, slots, n + 1) ==> OnlyTies(b, slots, n)
  {
    hide Va, Resolve, Repeats;
  }

  /** So that page is the slot's own exactly when no earlier conflict is anything but a tie. */
  lemma OwnPageIffOnlyTies(b: Basis, slots: seq<seq<byte>>, i: nat, k: nat)
    requires i < k <= |slots|
    ensures Run(b, slots, k).Ok? && First(b, slots, i) ==>
              var va, v2p := Va(b, slots[i]), Run(b, slots, k).value.v2p;
              && va in v2p
              && (v2p[va] == PAGE_SIZE * i <==> OnlyTies(b, slots, i))
  {
    hide Run, Valid, Va, OnlyTies, Stalls;
    FirstSlotDecides(b, slots, i, k);
    PrefixRuns(b, slots, i, k);
    NoStallsIffOnlyTies(b, slots, i);
  }

  ghost predicate Consistent(t: Table) {
    && (forall v :: v in t.v2p ==> t.v2p[v] < PAGE_SIZE * t.next)
    && (forall v :: v in t.v2p ==> t.v2p[v] in t.p2v && t.p2v[t.v2p[v]] == v)
    && (forall v, w :: v in t.v2p && w in t.v2p && t.v2p[v] == t.v2p[w] ==> v == w)
    && (forall p :: p in t.p2v ==> p <= PAGE_SIZE * t.next && t.p2v[p] in t.v2p)
  }

  /** v2p is injective and p2v inverts it, whatever conflicts the run meets. */
  lemma {:induction false} AlwaysConsistent(b: Basis, slots: seq<seq<byte>>, k: nat)
    requires k <= |slots|
    ensures Run(b, slots, k).Ok? ==> Consistent(Run(b, slots, k).value)
  {
    hide Valid, Va, Resolve, Consistent;
    if k == 0 {
      EmptyConsistent();
    } else if Run(b, slots, k).Ok? {
      AlwaysConsistent(b, slots, k - 1);
      var t, slot := Run(b, slots, k - 1).value, slots[k - 1];
      var a := Act(b, t, slot);
      StepConsistent(t, a, if |slot| == 16 then Va(b, slot) else 0);
    }
  }

  lemma EmptyConsistent()
    ensures Consistent(Table(map[], map[], 0))
  {
  }

  lemma StepConsistent(t: Table, a: Action, va: nat)
    requires Consistent(t)
    requires a.Fresh? ==> va !in t.v2p
    requires a.Records() && !a.Fresh? ==> va in t.v2p
    ensures Consistent(Apply(t, a, va))
  {
    if a.Fresh? {
      FreshConsistent(t, va);
    } else {
      if a.Records() { RecordConsistent(t, va); }
      AdvanceConsistent(t);
      AdvanceConsistent(t.(p2v := t.p2v[PAGE_SIZE * t.next := va]));
      hide Consistent;
    }
  }

  lemma FreshConsistent(t: Table, va: nat)
    requires Consistent(t) && va !in t.v2p
    ensures Consistent(Apply(t, Fresh, va))
  {
  }

  lemma RecordConsistent(t: Table, va: nat)
    requires Consistent(t) && va in t.v2p
    ensures Consistent(t.(p2v := t.p2v[PAGE_SIZE * t.next := va]))
  {
  }

  lemma AdvanceConsistent(t: Table)
    ensures Consistent(t) ==> Consistent(t.(next := t.next + 1))
  {
  }

  ghost predicate Writes(b: Basis, slots: seq<seq<byte>>, i: nat, p: nat)
    requires i < |slots|
  {
    Run(b, slots, i).Ok? && ActAt(b, slots, i).Records() && p == PAGE_SIZE * Run(b, slots, i).value.next
  }

  /** The last of the first k slots to record page p. */
  ghost function LastWriter(b: Basis, slots: seq<seq<byte>>, k: nat, p: nat): (i: Option<nat>)
    requires k <= |slots|
    ensures i.Some? ==> i.value < k
  {
    if k == 0 then None else if Writes(b, slots, k - 1, p) then Some(k - 1) else LastWriter(b, slots, k - 1, p)
  }

  lemma {:induction false} LastWriterIsLast(b: Basis, slots: seq<seq<byte>>, k: nat, p: nat, j: nat)
    requires j < k <= |slots|
    ensures var i := LastWriter(b, slots, k, p);
            Writes(b, slots, j, p) ==> i.Some? && j <= i.value && Writes(b, slots, i.value, p)
  {
    hide Writes;
    if j < k - 1 { LastWriterIsLast(b, slots, k - 1, p, j); }
  }

  /** p2v is exactly the record of last writers. */
  lemma {:induction false} LastWriterWins(b: Basis, slots: seq<seq<byte>>, k: nat, p: nat)
    requires k <= |slots|
    ensures Run(b, slots, k).Ok? ==>
              var p2v, i := Run(b, slots, k).value.p2v, LastWriter(b, slots, k, p);
              && (p in p2v <==> i.Some?)
              && (i.Some? ==> |slots[i.value]| == 16 && p2v[p] == Va(b, slots[i.value]))
  {
    hide Va, Act, Writes;
    if k == 0 {
      RunStart(b, slots);
    } else {
      WriteStep(b, slots, k, p);
      LastWriterWins(b, slots, k - 1, p);
    }
  }

  lemma WriteStep(b: Basis, slots: seq<seq<byte>>, k: nat, p: nat)
    requires 0 < k <= |slots|
    ensures Run(b, slots, k).Ok? ==>
              && Run(b, slots, k - 1).Ok?
              && var before, after := Run(b, slots, k - 1).value.p2v, Run(b, slots, k).value.p2v;
              if Writes(b, slots, k - 1, p)
              then |slots[k - 1]| == 16 && p in after && after[p] == Va(b, slots[k - 1])
              else (p in after <==> p in before) && (p in before ==> after[p] == before[p])
  {
    hide Va, Resolve;
  }

  // ---- Without repeated addresses ----

  ghost predicate NoRepeats(b: Basis, slots: seq<seq<byte>>) {
    forall i :: 0 <= i < |slots| && Valid(b, slots[i]) ==> First(b, slots, i)
  }

  /** Every valid slot below k keeps its own page, in both directions, and no other page is recorded. */
  ghost predicate Exact(b: Basis, slots: seq<seq<byte>>, k: nat, t: Table)
    requires k <= |slots|
  {
    && t.next == k
    && (forall i :: 0 <= i < k && Valid(b, slots[i]) ==> Holds(t, Va(b, slots[i]), i))
    && (forall p :: p in t.p2v ==> t.p2v[p] in t.v2p && t.v2p[t.p2v[p]] == p)
  }

  ghost predicate Holds(t: Table, va: nat, i: nat) {
    va in t.v2p && t.v2p[va] == PAGE_SIZE * i && PAGE_SIZE * i in t.p2v && t.p2v[PAGE_SIZE * i] == va
  }

  lemma {:induction false} NoRepeatsExact(b: Basis, slots: seq<seq<byte>>, k: nat)
    requires k <= |slots| && NoRepeats(b, slots) && forall s :: s in slots ==> |s| == 16
    ensures Run(b, slots, k).Ok? && Exact(b, slots, k, Run(b, slots, k).value)
  {
    if k == 0 {
      RunStart(b, slots);
    } else {
      hide Run, Act, First, Valid, Va, NoRepeats, Exact, Apply;
      NoRepeatsExact(b, slots, k - 1);
      var t := Run(b, slots, k - 1).value;
      assert slots[k - 1] in slots;
      NoRepeatAct(b, slots, k - 1, t);
      RunNext(b, slots, k - 1, t);
      ExactStep(b, slots, k, t);
    }
  }

  lemma NoRepeatAct(b: Basis, slots: seq<seq<byte>>, j: nat, t: Table)
    requires j < |slots| && |slots[j]| == 16 && NoRepeats(b, slots) && Run(b, slots, j) == Ok(t)
    ensures Act(b, t, slots[j]) == if Valid(b, slots[j]) then Fresh else Skip
    ensures Valid(b, slots[j]) ==> Va(b, slots[j]) !in t.v2p
  {
    hide Run, Resolve, Va;
    FreshIsFirst(b, slots, j);
  }

  lemma ExactStep(b: Basis, slots: seq<seq<byte>>, k: nat, t: Table)
    requires 0 < k <= |slots| && |slots[k - 1]| == 16 && Exact(b, slots, k - 1, t)
    requires Valid(b, slots[k - 1]) ==> Va(b, slots[k - 1]) !in t.v2p
    ensures Exact(b, slots, k, Apply(t, if Valid(b, slots[k - 1]) then Fresh else Skip, Va(b, slots[k - 1])))
  {
    hide Va, Valid;
    var va := Va(b, slots[k - 1]);
    var t' := Apply(t, if Valid(b, slots[k - 1]) then Fresh else Skip, va);
    forall i | 0 <= i < k - 1 && Valid(b, slots[i])
      ensures Holds(t', Va(b, slots[i]), i)
    {
      assert Holds(t, Va(b, slots[i]), i);
    }
  }

  // ---- Which page of a conflict is mapped ----

  /** A conflict leaves v2p as it was, also when the newcomer's journal is newer. */
  lemma ConflictKeepsMapping(b: Basis, slots: seq<seq<byte>>, i: nat)
    requires i < |slots|
    ensures Run(b, slots, i + 1).Ok? && Valid(b, slots[i]) && !First(b, slots, i) ==>
              && Run(b, slots, i).Ok?
              && Run(b, slots, i + 1).value.v2p == Run(b, slots, i).value.v2p
              && Va(b, slots[i]) in Run(b, slots, i).value.v2p
  {
    hide Valid, Va, Resolve, First;
    FreshIsFirst(b, slots, i);
  }

  /** Journal of the page at p, when it opens. */
  function Journal(b: Basis, va: nat, p: nat): Option<nat> {
    match b.data
    case None => None
    case Some(data) =>
      match b.open(va == ROOT_VA, Slice(data, p, p + PAGE_SIZE))
      case Plain(bytes) => Some(LeValue(Slice(bytes, 0, 4)))
      case Bogus => None
      case Fatal(_) => None
  }

  /**
   When both pages open, the journals alone decide: evict for a newer one, drop an older one, and advance
   on a tie. In each case the page first mapped stays mapped.
   */
  lemma ConflictComparesJournals(b: Basis, slots: seq<seq<byte>>, i: nat)
    requires i < |slots|
    ensures Run(b, slots, i + 1).Ok? && Valid(b, slots[i]) && !First(b, slots, i) ==>
              && Run(b, slots, i).Ok?
              && var va, t, t' := Va(b, slots[i]), Run(b, slots, i).value, Run(b, slots, i + 1).value;
              && va in t.v2p && va in t'.v2p
              && var prev, new_ := Journal(b, va, t.v2p[va]), Journal(b, va, PAGE_SIZE * t.next);
              (prev.Some? && new_.Some? ==>
                 && (ActAt(b, slots, i).Evict? <==> new_.value > prev.value)
                 && (ActAt(b, slots, i).Drop? <==> new_.value < prev.value)
                 && (ActAt(b, slots, i).Tie? <==> new_.value == prev.value)
                 && Journal(b, va, t'.v2p[va]) == prev)
  {
    hide First, LeValue, Valid, Va;
    ConflictKeepsMapping(b, slots, i);
  }

  lemma TieIff(b: Basis, va: nat, prev: nat, new_: nat)
    ensures Resolve(b, va, prev, new_).Tie? <==>
            || b.data.None?
            || (Journal(b, va, prev).Some? && Journal(b, va, prev) == Journal(b, va, new_))
  {
    hide LeValue, Slice;
  }

  /** Among the first k slots, slot j claims va, and no other such slot's page has a greater journal. */
  ghost predicate Newest(b: Basis, slots: seq<seq<byte>>, k: nat, va: nat, j: nat)
    requires k <= |slots|
  {
    && j < k && Claims(b, slots, va, j) && Journal(b, va, PAGE_SIZE * j).Some?
    && forall i :: 0 <= i < k && Claims(b, slots, va, i) && Journal(b, va, PAGE_SIZE * i).Some? ==>
                     Journal(b, va, PAGE_SIZE * i).value <= Journal(b, va, PAGE_SIZE * j).value
  }

  ghost predicate Claims(b: Basis, slots: seq<seq<byte>>, va: nat, j: nat)
    requires j < |slots|
  {
    Valid(b, slots[j]) && Va(b, slots[j]) == va
  }

  /**
   After any run an address is mapped to the newest of the pages claiming it if and only if its first claimant is
   the newest, and no conflict before that one is anything but a tie.
   */
  lemma NewestMappedIff(b: Basis, slots: seq<seq<byte>>, i: nat, k: nat)
    requires i < k <= |slots|
    ensures Run(b, slots, k).Ok? && First(b, slots, i) ==>
              var va, v2p := Va(b, slots[i]), Run(b, slots, k).value.v2p;
              && va in v2p
              && ((exists j: nat :: Newest(b, slots, k, va, j) && v2p[va] == PAGE_SIZE * j) <==>
                  Newest(b, slots, k, va, i) && OnlyTies(b, slots, i))
  {
    hide Run, Va, Valid, Journal, OnlyTies, Stalls;
    FirstSlotDecides(b, slots, i, k);
    OwnPageIffOnlyTies(b, slots, i, k);
    if Run(b, slots, k).Ok? && First(b, slots, i) {
      var va, v2p := Va(b, slots[i]), Run(b, slots, k).value.v2p;
      if j: nat :| Newest(b, slots, k, va, j) && v2p[va] == PAGE_SIZE * j {
        assert j >= i;
      }
    }
  }

  /** A valid entry with given first twelve bytes. */
  function Sealed(head: seq<byte>): Pte
    requires |head| == 12
  {
    head + LeBytes(Hash(head, Block(head[8..12])), 4)
  }

  lemma SealedIsValid(head: seq<byte>)
    requires |head| == 12
    ensures PteValid(Sealed(head)) && Addr(Sealed(head)) == LeValue(head[..7]) * VPAGE_SIZE
  {
    hide Hash, LeBytes, LeValue;
    var pte := Sealed(head);
    HashIsWord(head, Block(head[8..12]));
    LeValueOfBytes(Hash(head, Block(head[8..12])), 4);
    assert pte[..12] == head && pte[8..12] == head[8..12] && pte[..7] == head[..7];
    assert pte[12..] == LeBytes(Hash(head, Block(head[8..12])), 4);
  }

  /** An image whose data pages are stored plainly: pages 0 and 1 with journals 0 and 1. */
  function PlainImage(): Basis {
    Basis((x: Pte) => x, (root, page) => Plain(page),
          Some(seq(2 * PAGE_SIZE, i => if i == PAGE_SIZE then 1 else 0)))
  }

  function Entry(page: byte): Pte {
    Sealed([page, 0, 0, 0, 0, 0, 0, 0, 0, 0, 0, 0])
  }

  lemma EntryFacts(page: byte)
    ensures Valid(PlainImage(), Entry(page)) && Va(PlainImage(), Entry(page)) == page * VPAGE_SIZE
  {
    hide PteValid, Sealed, Hash;
    var head := [page, 0, 0, 0, 0, 0, 0, 0, 0, 0, 0, 0];
    SealedIsValid(head);
    assert head[..7] == [page, 0, 0, 0, 0, 0, 0];
    LeLowFirst(head[..7]);
  }

  /**
   The newer of two pages for one address is not the one mapped, and the slot after the
   conflict is given a page that is not its own.
   */
  lemma NewestCanLose()
    ensures var b, slots := PlainImage(), [Entry(7), Entry(7), Entry(9)];
            var va, other := 7 * VPAGE_SIZE, 9 * VPAGE_SIZE;
            && Run(b, slots, 3).Ok?
            && var v2p := Run(b, slots, 3).value.v2p;
            && v2p == map[va := 0, other := PAGE_SIZE]
            && Journal(b, va, 0) == Some(0) && Journal(b, va, PAGE_SIZE) == Some(1)
  {
    EntryFacts(7);
    EntryFacts(9);
    PlainJournals();
    hide *;
    EvictThenFresh(PlainImage(), Entry(7), Entry(9), 7 * VPAGE_SIZE, 9 * VPAGE_SIZE);
  }

  lemma EvictThenFresh(b: Basis, e: Pte, f: Pte, va: nat, other: nat)
    requires Valid(b, e) && Va(b, e) == va && Valid(b, f) && Va(b, f) == other && va != other
    requires Resolve(b, va, 0, PAGE_SIZE) == Evict
    ensures Run(b, [e, e, f], 3).Ok? && Run(b, [e, e, f], 3).value.v2p == map[va := 0, other := PAGE_SIZE]
  {
    hide Valid, Va, Run, Resolve;
    var slots := [e, e, f];
    var t0 := Table(map[], map[], 0);
    RunStart(b, slots);
    RunNext(b, slots, 0, t0);
    var t1 := Apply(t0, Fresh, va);
    RunNext(b, slots, 1, t1);
    RunNext(b, slots, 2, Apply(t1, Evict, va));
  }

  /** The same with root pages that fail their key commitment. */
  function LockedImage(): Basis {
    PlainImage().(open := (root, page) => if root then Fatal("key commitment") else Plain(page))
  }

  lemma LockedFacts()
    ensures var b := LockedImage();
            && Valid(b, Entry(1)) && Va(b, Entry(1)) == ROOT_VA && Resolve(b, ROOT_VA, 0, PAGE_SIZE).Raise?
  {
    hide Entry, PteValid, Addr;
    EntryFacts(1);
    assert LockedImage().ecb(Entry(1)) == PlainImage().ecb(Entry(1));
  }

  /** Two claims to the root page, of which the first fails its key commitment, end the decoding. */
  lemma CommitmentEndsDecoding()
    ensures Run(LockedImage(), [Entry(1), Entry(1)], 2).Err?
  {
    LockedFacts();
    hide *;
    RaiseEnds(LockedImage(), Entry(1), ROOT_VA);
  }

  lemma RaiseEnds(b: Basis, e: Pte, va: nat)
    requires Valid(b, e) && Va(b, e) == va && Resolve(b, va, 0, PAGE_SIZE).Raise?
    ensures Run(b, [e, e], 2).Err?
  {
    hide Valid, Va, Run, Resolve;
    var slots, t0 := [e, e], Table(map[], map[], 0);
    RunStart(b, slots);
    RunNext(b, slots, 0, t0);
    RunNext(b, slots, 1, Apply(t0, Fresh, va));
  }

  lemma PlainJournals()
    ensures var b := PlainImage();
            && Resolve(b, 7 * VPAGE_SIZE, 0, PAGE_SIZE) == Evict
            && Journal(b, 7 * VPAGE_SIZE, 0) == Some(0) && Journal(b, 7 * VPAGE_SIZE, PAGE_SIZE) == Some(1)
  {
    var data := PlainImage().data.value;
    var p, n := Slice(data, 0, PAGE_SIZE), Slice(data, PAGE_SIZE, 2 * PAGE_SIZE);
    LeZeros(Slice(p, 0, 4));
    LeLowFirst(Slice(n, 0, 4));
  }

  // ---- The loops ----

  function NotBlank(pages: seq<seq<byte>>): seq<seq<byte>> {
    if pages == [] then [] else
    var last := pages[|pages| - 1];
    NotBlank(pages[..|pages| - 1]) + if IsBlank(last) then [] else [last]
  }

  /** The one page of the ten in the make-before-break buffer that is not blank, if there is just one. */
  function Buffered(mbbb: seq<byte>): Option<seq<byte>> {
    var candidates := NotBlank(Chunks(mbbb, 0, 10 * PAGE_SIZE, PAGE_SIZE));
    if |candidates| == 1 then Some(candidates[0]) else None
  }

  /** Page i is the only one that is not blank. */
  ghost predicate OnlyAt(pages: seq<seq<byte>>, i: nat) {
    i < |pages| && !IsBlank(pages[i]) && forall j :: 0 <= j < |pages| && j != i ==> IsBlank(pages[j])
  }

  lemma {:induction false} AllBlank(pages: seq<seq<byte>>)
    ensures NotBlank(pages) == [] <==> forall i :: 0 <= i < |pages| ==> IsBlank(pages[i])
  {
    hide IsBlank;
    if pages != [] {
      var n := |pages| - 1;
      var front := pages[..n];
      AllBlank(front);
      assert forall i :: 0 <= i < n ==> front[i] == pages[i];
      if NotBlank(pages) == [] {
        assert IsBlank(pages[n]) && NotBlank(front) == [];
        forall i | 0 <= i < |pages| ensures IsBlank(pages[i]) { assert i < n ==> IsBlank(front[i]); }
      }
    }
  }

  lemma {:induction false} TakeOnly(pages: seq<seq<byte>>, i: nat)
    requires OnlyAt(pages, i)
    ensures NotBlank(pages) == [pages[i]]
  {
    hide IsBlank;
    var front := pages[..|pages| - 1];
    if i < |front| { TakeOnly(front, i); } else { AllBlank(front); }
  }

  lemma {:induction false} FindOnly(pages: seq<seq<byte>>) returns (i: nat)
    requires |NotBlank(pages)| == 1
    ensures OnlyAt(pages, i)
  {
    hide IsBlank;
    i := |pages| - 1;
    if IsBlank(pages[i]) {
      i := FindOnly(pages[..|pages| - 1]);
    } else {
      AllBlank(pages[..i]);
    }
  }

  lemma OneIsOnly(pages: seq<seq<byte>>)
    ensures |NotBlank(pages)| == 1 <==> exists i: nat :: OnlyAt(pages, i)
    ensures forall i: nat :: OnlyAt(pages, i) ==> i < |pages| && NotBlank(pages) == [pages[i]]
  {
    hide IsBlank, NotBlank;
    forall i: nat | OnlyAt(pages, i) ensures NotBlank(pages) == [pages[i]] { TakeOnly(pages, i); }
    if |NotBlank(pages)| == 1 {
      var i := FindOnly(pages);
      assert OnlyAt(pages, i);
    }
  }

  /** Exactly one page that is not blank is taken; none or several give nothing. */
  lemma BufferedIff(mbbb: seq<byte>, pages: seq<seq<byte>>)
    requires pages == Chunks(mbbb, 0, 10 * PAGE_SIZE, PAGE_SIZE)
    ensures Buffered(mbbb).Some? <==> exists i: nat :: OnlyAt(pages, i)
    ensures forall i: nat :: OnlyAt(pages, i) ==> i < |pages| && Buffered(mbbb) == Some(pages[i])
  {
    hide Chunks, OnlyAt;
    OneIsOnly(pages);
    var candidates := NotBlank(pages);
    assert Buffered(mbbb) == if |candidates| == 1 then Some(candidates[0]) else None;
  }

  method FindMbbb(mbbb: seq<byte>) returns (r: Option<seq<byte>>)
    ensures r == Buffered(mbbb)
  {
    hide Chunks, IsBlank;
    var pages := Chunks(mbbb, 0, 10 * PAGE_SIZE, PAGE_SIZE);
    var candidates := [];
    for k := 0 to |pages|
      invariant candidates == NotBlank(pages[..k])
    {
      assert pages[..k + 1][..k] == pages[..k];
      if !IsBlank(pages[k]) {
        candidates := candidates + [pages[k]];
      }
    }
    assert pages[..|pages|] == pages;
    if |candidates| > 1 {
      r := None;
    } else if |candidates| == 1 {
      r := Some(candidates[0]);
    } else {
      r := None;
    }
  }

  /** The slots read: each page's 256 entries, a blank page replaced by the buffered one. */
  function Slots(pages: seq<seq<byte>>, buffered: Option<seq<byte>>): seq<seq<byte>> {
    if pages == [] then [] else
    var page := if IsBlank(pages[0]) && buffered.Some? then buffered.value else pages[0];
    Chunks(page, 0, PAGE_SIZE, 16) + Slots(pages[1..], buffered)
  }

  lemma {:induction false} SlotsAt(pages: seq<seq<byte>>, buffered: Option<seq<byte>>, q: nat, e: nat)
    requires q < |pages| && e < 256
    ensures |Slots(pages, buffered)| == 256 * |pages|
    ensures var page := if IsBlank(pages[q]) && buffered.Some? then buffered.value else pages[q];
            Slots(pages, buffered)[256 * q + e] == Slice(page, 16 * e, 16 * e + 16)
    decreases |pages|
  {
    hide IsBlank, Slice, Chunks;
    var page := if IsBlank(pages[0]) && buffered.Some? then buffered.value else pages[0];
    ChunksAt(page, 0, 256, 16, e);
    SlotsStep(pages, buffered);
    if |pages| > 1 {
      SlotsAt(pages[1..], buffered, if q > 0 then q - 1 else 0, e);
    } else {
      SlotsStep(pages[1..], buffered);
    }
  }

  /** Slot i of a region of whole pages is its i-th 16 bytes, or those of the buffered page in place of a blank one. */
  lemma SlotIs(img: seq<byte>, n: nat, buffered: Option<seq<byte>>, i: nat)
    requires |img| >= PAGE_SIZE * n && i < 256 * n
    ensures var slots := Slots(Chunks(img, 0, PAGE_SIZE * n, PAGE_SIZE), buffered);
            var q := i / 256;
            && PAGE_SIZE * q + PAGE_SIZE <= |img| && |slots| == 256 * n
            && slots[i] == if IsBlank(img[PAGE_SIZE * q..PAGE_SIZE * q + PAGE_SIZE]) && buffered.Some?
                           then Slice(buffered.value, 16 * (i % 256), 16 * (i % 256) + 16)
                           else img[16 * i..16 * i + 16]
  {
    hide IsBlank, Chunks, Slots, Slice;
    var pages, q, e := Chunks(img, 0, PAGE_SIZE * n, PAGE_SIZE), i / 256, i % 256;
    ChunksAt(img, 0, n, PAGE_SIZE, q);
    SlotsAt(pages, buffered, q, e);
    assert i == 256 * q + e;
    var page := img[PAGE_SIZE * q..PAGE_SIZE * q + PAGE_SIZE];
    SliceIs(img, PAGE_SIZE * q, PAGE_SIZE * q + PAGE_SIZE);
    SliceIs(page, 16 * e, 16 * e + 16);
    SubSlice(img, PAGE_SIZE * q, page, 16 * e);
  }

  lemma SliceIs(s: seq<byte>, lo: nat, hi: nat)
    requires lo <= hi <= |s|
    ensures Slice(s, lo, hi) == s[lo..hi]
  {
  }

  lemma SubSlice(s: seq<byte>, lo: nat, page: seq<byte>, from: nat)
    requires lo + PAGE_SIZE <= |s| && page == s[lo..lo + PAGE_SIZE] && from + 16 <= PAGE_SIZE
    ensures page[from..from + 16] == s[lo + from..lo + from + 16]
  {
    var part, whole := page[from..from + 16], s[lo + from..lo + from + 16];
    assert |part| == |whole|;
    forall k | 0 <= k < |part| ensures part[k] == whole[k] {
      assert part[k] == page[from + k];
    }
  }

  /** One basis of decode_pagetable. */
  method DecodeBasis(img: seq<byte>, entries: nat, b: Basis, mbbb: seq<byte>)
    returns (r: Result<Table>)
    ensures var slots := Slots(Chunks(img, 0, entries * 16, PAGE_SIZE), Buffered(mbbb));
            r == Run(b, slots, |slots|)
  {
    hide Chunks, IsBlank, Act, Slots, Run, Buffered;
    var pages := Chunks(img, 0, entries * 16, PAGE_SIZE);
    var buffered := FindMbbb(mbbb);
    ghost var slots := Slots(pages, buffered);
    ghost var done: seq<seq<byte>> := [];
    var t := Table(map[], map[], 0);
    RunStart(b, slots);
    assert pages[0..] == pages && done + slots == slots;
    for n := 0 to |pages|
      invariant slots == done + Slots(pages[n..], buffered)
      invariant Run(b, slots, |done|) == Ok(t)
    {
      var page := pages[n];
      if IsBlank(page) {
        if buffered.Some? { page := buffered.value; }
      }
      var ptes := Chunks(page, 0, PAGE_SIZE, 16);
      SlotsStep(pages[n..], buffered);
      assert pages[n..][1..] == pages[n + 1..];
      ghost var rest := Slots(pages[n + 1..], buffered);
      assert slots == done + ptes + rest;
      var e;
      e, t := TakePage(b, t, ptes, done, rest);
      if e.Some? { return Err(e.value); }
      done := done + ptes;
    }
    SlotsStep(pages[|pages|..], buffered);
    assert done == slots;
    r := Ok(t);
  }

  /** One page of entries: the inner loop. */
  method TakePage(b: Basis, t0: Table, ptes: seq<seq<byte>>, ghost done: seq<seq<byte>>, ghost rest: seq<seq<byte>>)
    returns (e: Option<string>, t: Table)
    requires Run(b, done + ptes + rest, |done|) == Ok(t0)
    ensures e.None? ==> Run(b, done + ptes + rest, |done + ptes|) == Ok(t)
    ensures e.Some? ==> Run(b, done + ptes + rest, |done + ptes + rest|) == Err(e.value)
  {
    hide Act, Run, Apply, Va;
    ghost var slots := done + ptes + rest;
    e, t := None, t0;
    for k := 0 to |ptes|
      invariant Run(b, slots, |done| + k) == Ok(t)
    {
      assert slots[|done| + k] == ptes[k];
      RunNext(b, slots, |done| + k, t);
      e, t := TakeSlot(b, t, ptes[k]);
      if e.Some? {
        RunStuck(b, slots, |done| + k + 1, |slots|);
        return;
      }
    }
    e := None;
  }

  /** One entry: the body of the innermost loop. */
  method TakeSlot(b: Basis, t: Table, slot: seq<byte>) returns (e: Option<string>, t': Table)
    ensures e == if Act(b, t, slot).Raise? then Some(Act(b, t, slot).error) else None
    ensures e.None? ==> t' == Apply(t, Act(b, t, slot), if |slot| == 16 then Va(b, slot) else 0)
  {
    hide Resolve;
    e, t' := None, t;
    if |slot| != 16 { return Some("short page-table entry"), t; }
    var v2p, p2v := t.v2p, t.p2v;
    if Valid(b, slot) {
      var pAddr := PAGE_SIZE * t.next;
      var va := Va(b, slot);
      if va in v2p {
        var a := Resolve(b, va, v2p[va], pAddr);
        match a {
          case Raise(error) => return Some(error), t;
          case Evict => return None, Table(v2p, p2v[pAddr := va], t.next);
          case Drop => return None, t;
          case _ =>
            ResolveCases(b, va, v2p[va], pAddr);
        }
      } else {
        v2p := v2p[va := pAddr];
      }
      p2v := p2v[pAddr := va];
    }
    t' := Table(v2p, p2v, t.next + 1);
  }

  lemma ResolveCases(b: Basis, va: nat, prev: nat, new_: nat)
    ensures !Resolve(b, va, prev, new_).Skip? && !Resolve(b, va, prev, new_).Fresh?
  {
  }

  lemma RunStart(b: Basis, slots: seq<seq<byte>>)
    ensures Run(b, slots, 0) == Ok(Table(map[], map[], 0))
  {
  }

  lemma RunNext(b: Basis, slots: seq<seq<byte>>, k: nat, t: Table)
    requires k < |slots| && Run(b, slots, k) == Ok(t)
    ensures var a := Act(b, t, slots[k]);
            Run(b, slots, k + 1) ==
            if a.Raise? then Err(a.error)
            else Ok(Apply(t, a, if |slots[k]| == 16 then Va(b, slots[k]) else 0))
  {
  }

  lemma {:induction false} RunStuck(b: Basis, slots: seq<seq<byte>>, k: nat, n: nat)
    requires k <= n <= |slots| && Run(b, slots, k).Err?
    ensures Run(b, slots, n) == Run(b, slots, k)
  {
    hide Act, Va;
    if k < n { RunStuck(b, slots, k, n - 1); }
  }

  lemma SlotsStep(pages: seq<seq<byte>>, buffered: Option<seq<byte>>)
    ensures pages == [] ==> Slots(pages, buffered) == []
    ensures pages != [] ==>
              var page := if IsBlank(pages[0]) && buffered.Some? then buffered.value else pages[0];
              Slots(pages, buffered) == Chunks(page, 0, PAGE_SIZE, 16) + Slots(pages[1..], buffered)
  {
  }
}
