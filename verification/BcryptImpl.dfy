/**
 bcrypt as implemented: tables and halves are integers that are never masked and so grow without bound.
 Every method is held to the 32-bit reference through the low 32 bits of what it computes.
 */
module BcryptImpl {
  import opened Bits
  import opened Bytes
  import opened Blowfish
  import opened Words

  function Low32(a: nat): word {
    a % WORD
  }

  function LowWords(s: seq<nat>): (w: seq<word>)
    ensures |w| == |s|
    ensures forall i :: 0 <= i < |s| ==> w[i] == Low32(s[i])
  {
    seq(|s|, i requires 0 <= i < |s| => Low32(s[i]))
  }

  // ---- Low words commute with the operations ----

  lemma Low32Xor(a: nat, b: nat)
    ensures Low32(Xor(a, b)) == Xor32(Low32(a), Low32(b))
  {
    hide Xor, Low;
    LowWord(a);
    LowWord(b);
    LowWord(Xor(a, b));
    XorLow(a, b, 32);
  }

  lemma Low32Add(a: nat, b: nat)
    ensures Low32(a + b) == Add32(Low32(a), Low32(b))
  {
  }

  lemma Low32Octets(x: nat)
    ensures Low32(x) / 0x100_0000 % 0x100 == x / 0x100_0000 % 0x100
    ensures Low32(x) / 0x1_0000 % 0x100 == x / 0x1_0000 % 0x100
    ensures Low32(x) / 0x100 % 0x100 == x / 0x100 % 0x100
    ensures Low32(x) % 0x100 == x % 0x100
  {
    var q, r := x / WORD, Low32(x);
    hide Low32;
    Octet(x, q, r, 0x100_0000, 1);
    Octet(x, q, r, 0x1_0000, 0x100);
    Octet(x, q, r, 0x100, 0x1_0000);
    Octet(x, q, r, 1, 0x100_0000);
  }

  /** An octet of x that lies within its low word. */
  lemma Octet(x: nat, q: nat, r: nat, d: nat, e: nat)
    requires d > 0 && x == d * 0x100 * e * q + r
    ensures x / d % 0x100 == r / d % 0x100
  {
    var a, b := r / d, r % d;
    var c := 0x100 * e * q + a;
    assert r == d * a + b;
    assert d * 0x100 * e * q == d * (0x100 * e * q);
    assert d * c == d * (0x100 * e * q) + d * a;
    DivUnique(x, d, c, b);
    assert 0x100 * e * q == 0x100 * (e * q);
    DivUnique(c, 0x100, e * q + a / 0x100, a % 0x100);
  }

  /** The round function on unmasked entries. */
  function WideF(s: seq<nat>, x: nat): nat
    requires |s| == 1024
  {
    Xor(s[x / 0x100_0000 % 0x100] + s[0x100 + x / 0x1_0000 % 0x100],
        s[0x200 + x / 0x100 % 0x100]) +
    s[0x300 + x % 0x100]
  }

  lemma WideFIsF(s: seq<nat>, x: nat)
    requires |s| == 1024
    ensures Low32(WideF(s, x)) == F(LowWords(s), Low32(x))
  {
    hide Xor, Xor32, Low32, Add32;
    Low32Octets(x);
    var a, b := s[x / 0x100_0000 % 0x100], s[0x100 + x / 0x1_0000 % 0x100];
    var c, d := s[0x200 + x / 0x100 % 0x100], s[0x300 + x % 0x100];
    Low32Add(a, b);
    Low32Xor(a + b, c);
    Low32Add(Xor(a + b, c), d);
  }

  /** `r ^= F(l) ^ k` carries out one round of the reference, the key of the next round already mixed in. */
  lemma WideRound(s: seq<nat>, l: nat, r: nat, k: nat)
    requires |s| == 1024
    ensures Low32(Xor(r, Xor(WideF(s, l), k))) ==
            Xor32(Xor32(Low32(r), F(LowWords(s), Low32(l))), Low32(k))
  {
    hide Xor, Low32, F, WideF;
    WideFIsF(s, l);
    var f := WideF(s, l);
    Low32Xor(r, Xor(f, k));
    Low32Xor(f, k);
    XorAssoc(Low32(r), Low32(f), Low32(k));
  }

  // ---- Reading a key or salt as an endless stream of words ----

  /** The stream may have been read to any position p. */
  method StreamToWord(data: seq<nat>, off0: nat, ghost p: nat) returns (word: nat, off: nat)
    requires data != [] && off0 == Cyclic(p, |data|)
    ensures word == StreamValue(data, p, 4)
    ensures off == Cyclic(p + 4, |data|)
  {
    hide Or, Shl, Cyclic;
    word, off := 0, off0;
    for i := 0 to 4
      invariant off == Cyclic(p + i, |data|)
      invariant word == StreamValue(data, p, i)
    {
      AppendByte(word, data[off] % 256);
      word := Or(Shl(word, 8), data[off] % 256);
      off := NextOffset(off, |data|, p + i);
    }
  }

  method NextOffset(off: nat, n: nat, ghost x: nat) returns (next: nat)
    requires n > 0 && off == Cyclic(x, n)
    ensures next == Cyclic(x + 1, n)
  {
    next := (off + 1) % n;
    ghost var q := x / n;
    assert x == n * q + off;
    if off + 1 < n {
      DivUnique(x + 1, n, q, off + 1);
      DivUnique(off + 1, n, 0, off + 1);
    } else {
      assert n * (q + 1) == n * q + n;
      DivUnique(x + 1, n, q + 1, 0);
      DivUnique(n, n, 1, 0);
    }
  }

  /** i bytes of the stream from `start` on, big-endian. */
  function StreamValue(data: seq<nat>, start: nat, i: nat): nat
    requires data != []
  {
    if i == 0 then 0 else 256 * StreamValue(data, start, i - 1) + StreamByte(data, start + i - 1)
  }

  lemma StreamValueIsWord(data: seq<nat>, k: nat)
    requires data != []
    ensures StreamValue(data, 4 * k, 4) == StreamWord(data, k)
  {
    hide StreamByte;
    assert StreamValue(data, 4 * k, 1) == StreamByte(data, 4 * k);
    assert StreamValue(data, 4 * k, 2) == 256 * StreamByte(data, 4 * k) + StreamByte(data, 4 * k + 1);
    assert StreamValue(data, 4 * k, 3) == 256 * StreamValue(data, 4 * k, 2) + StreamByte(data, 4 * k + 2);
  }

  class BCrypt {
    const pOrig: PBox
    const sOrig: SBox
    var P: seq<nat>
    var S: seq<nat>

    ghost predicate Valid()
      reads this
    {
      |P| == 18 && |S| == 1024
    }

    ghost function Tables(): State
      requires Valid()
      reads this
    {
      State(LowWords(P), LowWords(S))
    }

    constructor (pOrig: PBox, sOrig: SBox)
      ensures Valid() && this.pOrig == pOrig && this.sOrig == sOrig
    {
      this.pOrig, this.sOrig := pOrig, sOrig;
      P, S := pOrig, sOrig;
    }

    method InitKey()
      modifies this
      ensures Valid() && Tables() == State(pOrig, sOrig)
    {
      P, S := pOrig, sOrig;
      assert LowWords(P) == pOrig;
      assert LowWords(S) == sOrig;
    }

    /** Sixteen rounds, two per turn of the loop and without swaps, in place on lr[off], lr[off + 1]. */
    method EncipherAt(lr: array<nat>, off: nat)
      requires Valid() && off + 1 < lr.Length
      modifies lr
      ensures Pair(Low32(lr[off]), Low32(lr[off + 1])) ==
              old(Encipher(Tables(), Pair(Low32(lr[off]), Low32(lr[off + 1]))))
      ensures forall i :: 0 <= i < lr.Length && i != off && i != off + 1 ==> lr[i] == old(lr[i])
    {
      hide Xor, Xor32, Low32, F, WideF, After;
      ghost var st := Tables();
      ghost var lr0 := Pair(Low32(lr[off]), Low32(lr[off + 1]));
      var l, r := lr[off], lr[off + 1];
      Low32Xor(l, P[0]);
      l := Xor(l, P[0]);
      AfterNone(st, lr0);
      var i := 0;
      while i < 16
        invariant 0 <= i <= 16 && i % 2 == 0
        invariant Low32(l) == Xor32(After(st, lr0, i).l, st.p[i])
        invariant Low32(r) == After(st, lr0, i).r
        modifies {}
      {
        AfterStep(st, lr0, i);
        AfterStep(st, lr0, i + 1);
        WideRound(S, l, r, P[i + 1]);
        r := Xor(r, Xor(WideF(S, l), P[i + 1]));
        WideRound(S, r, l, P[i + 2]);
        l := Xor(l, Xor(WideF(S, r), P[i + 2]));
        i := i + 2;
      }
      Low32Xor(r, P[17]);
      lr[off], lr[off + 1] := Xor(r, P[17]), l;
    }

    /** __key: the key schedule with no salt. */
    method Key(key: seq<nat>)
      requires Valid() && key != []
      modifies this
      ensures Valid() && Tables() == old(Expand(Tables(), NoSalt(), key))
    {
      hide Expand, FillP, FillS, Next, StreamWord, MixKey, Low32, Xor, Xor32, Encipher;
      MixIn(key);
      var lr := new nat[2] [0, 0];
      ghost var st := Tables();
      ExpandDef(old(Tables()), NoSalt(), key, st);
      ZeroPair();
      var i := 0;
      while i < 18
        invariant Valid() && 0 <= i <= 18 && i % 2 == 0 && fresh(lr)
        invariant FillP(Tables(), NoSalt(), Pair(Low32(lr[0]), Low32(lr[1])), i / 2) == FillP(st, NoSalt(), Pair(0, 0), 0)
      {
        FillPStep(Tables(), NoSalt(), Pair(Low32(lr[0]), Low32(lr[1])), i / 2);
        NextUnsalted(Tables(), Pair(Low32(lr[0]), Low32(lr[1])), i);
        EncipherAt(lr, 0);
        SetP(i, lr[0], lr[1]);
        i := i + 2;
      }
      FillPDone(Tables(), NoSalt(), Pair(Low32(lr[0]), Low32(lr[1])));
      ghost var st', lr' := Tables(), Pair(Low32(lr[0]), Low32(lr[1]));
      i := 0;
      while i < 1024
        invariant Valid() && 0 <= i <= 1024 && i % 2 == 0 && fresh(lr)
        invariant FillS(Tables(), NoSalt(), Pair(Low32(lr[0]), Low32(lr[1])), i / 2) == FillS(st', NoSalt(), lr', 0)
      {
        FillSStep(Tables(), NoSalt(), Pair(Low32(lr[0]), Low32(lr[1])), i / 2);
        NextUnsalted(Tables(), Pair(Low32(lr[0]), Low32(lr[1])), 18 + i);
        EncipherAt(lr, 0);
        SetS(i, lr[0], lr[1]);
        i := i + 2;
      }
      FillSDone(Tables(), NoSalt(), Pair(Low32(lr[0]), Low32(lr[1])));
    }

    /** __ekskey: the key schedule with salt. */
    method EksKey(data: seq<nat>, key: seq<nat>)
      requires Valid() && data != [] && key != []
      modifies this
      ensures Valid() && Tables() == old(Expand(Tables(), data, key))
    {
      hide Expand, FillP, FillS, Next, MixKey, Low32, Cyclic;
      MixIn(key);
      var lr := new nat[2] [0, 0];
      ghost var st := Tables();
      ExpandDef(old(Tables()), data, key, st);
      ZeroPair();
      ZeroOffset(|data|);
      var doffp, i := 0, 0;
      while i < 18
        invariant Valid() && 0 <= i <= 18 && i % 2 == 0 && fresh(lr)
        invariant doffp == Cyclic(4 * i, |data|)
        invariant FillP(Tables(), data, Pair(Low32(lr[0]), Low32(lr[1])), i / 2) == FillP(st, data, Pair(0, 0), 0)
      {
        FillPStep(Tables(), data, Pair(Low32(lr[0]), Low32(lr[1])), i / 2);
        doffp := NextSalted(lr, data, doffp, i);
        SetP(i, lr[0], lr[1]);
        i := i + 2;
      }
      FillPDone(Tables(), data, Pair(Low32(lr[0]), Low32(lr[1])));
      ghost var st', lr' := Tables(), Pair(Low32(lr[0]), Low32(lr[1]));
      i := 0;
      while i < 1024
        invariant Valid() && 0 <= i <= 1024 && i % 2 == 0 && fresh(lr)
        invariant doffp == Cyclic(4 * (18 + i), |data|)
        invariant FillS(Tables(), data, Pair(Low32(lr[0]), Low32(lr[1])), i / 2) == FillS(st', data, lr', 0)
      {
        FillSStep(Tables(), data, Pair(Low32(lr[0]), Low32(lr[1])), i / 2);
        doffp := NextSalted(lr, data, doffp, 18 + i);
        SetS(i, lr[0], lr[1]);
        i := i + 2;
      }
      FillSDone(Tables(), data, Pair(Low32(lr[0]), Low32(lr[1])));
    }

    method NextSalted(lr: array<nat>, data: seq<nat>, off0: nat, ghost k: nat) returns (off: nat)
      requires Valid() && data != [] && lr.Length == 2 && off0 == Cyclic(4 * k, |data|)
      modifies lr
      ensures off == Cyclic(4 * (k + 2), |data|)
      ensures Pair(Low32(lr[0]), Low32(lr[1])) ==
              old(Next(Tables(), data, Pair(Low32(lr[0]), Low32(lr[1])), k))
    {
      hide Encipher, StreamWord, Low32, Xor, Xor32, Cyclic;
      var w0, w1;
      w0, off := StreamToWord(data, off0, 4 * k);
      w1, off := StreamToWord(data, off, 4 * (k + 1));
      StreamValueIsWord(data, k);
      StreamValueIsWord(data, k + 1);
      Low32Xor(lr[0], w0);
      Low32Xor(lr[1], w1);
      WordItself(StreamWord(data, k));
      WordItself(StreamWord(data, k + 1));
      lr[0] := Xor(lr[0], w0);
      lr[1] := Xor(lr[1], w1);
      EncipherAt(lr, 0);
    }

    method MixIn(key: seq<nat>)
      requires Valid() && key != []
      modifies this`P
      ensures Valid() && Tables() == State(MixKey(old(LowWords(P)), key), old(LowWords(S)))
    {
      hide StreamWord, Low32, Xor, Xor32;
      ghost var p0 := LowWords(P);
      ZeroOffset(|key|);
      var koffp := 0;
      for i := 0 to 18
        invariant Valid()
        invariant koffp == Cyclic(4 * i, |key|)
        invariant forall j :: 0 <= j < i ==> Low32(P[j]) == MixKey(p0, key)[j]
        invariant forall j :: i <= j < 18 ==> Low32(P[j]) == p0[j]
      {
        var w;
        w, koffp := StreamToWord(key, koffp, 4 * i);
        StreamValueIsWord(key, i);
        Low32Xor(P[i], w);
        WordItself(w);
        P := P[i := Xor(P[i], w)];
      }
    }

    method SetP(i: nat, l: nat, r: nat)
      requires Valid() && i + 1 < 18
      modifies this`P
      ensures Valid() && Tables() == old(WithP(Tables(), i, Pair(Low32(l), Low32(r))))
    {
      hide Low32;
      P := P[i := l][i + 1 := r];
      assert LowWords(P) == WithP(old(Tables()), i, Pair(Low32(l), Low32(r))).p;
    }

    method SetS(i: nat, l: nat, r: nat)
      requires Valid() && i + 1 < 1024
      modifies this`S
      ensures Valid() && Tables() == old(WithS(Tables(), i, Pair(Low32(l), Low32(r))))
    {
      hide Low32;
      S := S[i := l][i + 1 := r];
      assert LowWords(S) == WithS(old(Tables()), i, Pair(Low32(l), Low32(r))).s;
    }

    /** The whole hash agrees with 32-bit bcrypt, byte for byte. */
    method CryptRaw(password: seq<nat>, salt: seq<nat>, logRounds: int) returns (r: Result<seq<byte>>)
      modifies this
      ensures r == if logRounds < 4 || logRounds > 31 then Err("Bad number of rounds")
                   else if |salt| != 16 then Err("Bad salt length")
                   else if password == [] then Err("list index out of range")
                   else Ok(Bcrypt(State(pOrig, sOrig), password, salt, logRounds))
    {
      hide Expand, Repeat, Pow2, EncipherTimes, PairBytes, Low32, Shl;
      if logRounds < 4 || logRounds > 31 { return Err("Bad number of rounds"); }
      var rounds := Shl(1, logRounds);
      ShlOne(logRounds);
      if |salt| != 16 { return Err("Bad salt length"); }
      InitKey();
      if password == [] { return Err("list index out of range"); }
      ghost var st := Expand(Tables(), salt, password);
      EksKey(salt, password);
      RepeatNone(st, password, salt);
      for i := 0 to rounds
        invariant Valid() && Tables() == Repeat(st, password, salt, i)
      {
        RepeatStep(st, password, salt, i);
        Key(password);
        Key(salt);
      }
      var cdata := new nat[6] [0x4f727068, 0x65616e42, 0x65686f6c, 0x64657253, 0x63727944, 0x6f756274];
      MagicWords(cdata[..]);
      EncipherMagic(cdata);
      var bytes := Output(cdata);
      r := Ok(bytes);
    }

    /** Three interleaved pairs, 64 times over. */
    method EncipherMagic(cdata: array<nat>)
      requires Valid() && cdata.Length == 6
      requires forall j :: 0 <= j < 3 ==> PairAt(cdata[..], j) == MAGIC[j]
      modifies cdata
      ensures forall j :: 0 <= j < 3 ==> PairAt(cdata[..], j) == EncipherTimes(Tables(), MAGIC[j], 64)
    {
      hide Low32, EncipherTimes, Encipher;
      ghost var st := Tables();
      TimesNone(st);
      for i := 0 to 64
        invariant forall j :: 0 <= j < 3 ==> PairAt(cdata[..], j) == EncipherTimes(st, MAGIC[j], i)
      {
        TimesStep(st, i);
        for j := 0 to 3
          invariant forall k :: 0 <= k < 3 ==>
            PairAt(cdata[..], k) == EncipherTimes(st, MAGIC[k], if k < j then i + 1 else i)
        {
          ghost var before := cdata[..];
          EncipherAt(cdata, 2 * j);
          assert forall k :: 0 <= k < 3 && k != j ==> PairAt(cdata[..], k) == PairAt(before, k);
        }
      }
    }

    method Output(cdata: array<nat>) returns (ret: seq<byte>)
      requires cdata.Length == 6
      ensures ret == PairBytes(PairAt(cdata[..], 0)) + PairBytes(PairAt(cdata[..], 1)) + PairBytes(PairAt(cdata[..], 2))
    {
      hide Low32, BeBytes;
      ret := [];
      for i := 0 to 6
        invariant ret == WordBytes(cdata[..], i)
      {
        LowBytes(cdata[i]);
        ret := ret + [cdata[i] / 0x100_0000 % 0x100];
        ret := ret + [cdata[i] / 0x1_0000 % 0x100];
        ret := ret + [cdata[i] / 0x100 % 0x100];
        ret := ret + [cdata[i] % 0x100];
        assert cdata[..][i] == cdata[i];
      }
      WordBytesArePairs(cdata[..]);
    }
  }

  function PairAt(c: seq<nat>, j: nat): Pair
    requires 2 * j + 1 < |c|
  {
    Pair(Low32(c[2 * j]), Low32(c[2 * j + 1]))
  }

  function WordBytes(c: seq<nat>, i: nat): seq<byte>
    requires i <= |c|
  {
    if i == 0 then [] else WordBytes(c, i - 1) + BeBytes(Low32(c[i - 1]), 4)
  }

  lemma WordBytesArePairs(c: seq<nat>)
    requires |c| == 6
    ensures WordBytes(c, 6) == PairBytes(PairAt(c, 0)) + PairBytes(PairAt(c, 1)) + PairBytes(PairAt(c, 2))
  {
    hide WordBytes;
    assert WordBytes(c, 0) == [] by { NoWordBytes(c); }
    PairMore(c, 0);
    PairMore(c, 1);
    PairMore(c, 2);
    assert [] + PairBytes(PairAt(c, 0)) == PairBytes(PairAt(c, 0));
  }

  lemma NoWordBytes(c: seq<nat>)
    requires |c| == 6
    ensures WordBytes(c, 0) == []
  {
  }

  lemma PairMore(c: seq<nat>, j: nat)
    requires |c| == 6 && j < 3
    ensures WordBytes(c, 2 * j + 2) == WordBytes(c, 2 * j) + PairBytes(PairAt(c, j))
  {
    hide Low32, BeBytes;
    assert WordBytes(c, 2 * j + 1) == WordBytes(c, 2 * j) + BeBytes(Low32(c[2 * j]), 4);
  }

  lemma LowBytes(x: nat)
    ensures BeBytes(Low32(x), 4) == [x / 0x100_0000 % 0x100, x / 0x1_0000 % 0x100, x / 0x100 % 0x100, x % 0x100]
  {
    hide Low32, BeBytes;
    Low32Octets(x);
    WordOctets(Low32(x));
  }

  lemma MagicWords(c: seq<nat>)
    requires c == [0x4f727068, 0x65616e42, 0x65686f6c, 0x64657253, 0x63727944, 0x6f756274]
    ensures forall j :: 0 <= j < 3 ==> PairAt(c, j) == MAGIC[j]
  {
  }

  lemma RepeatNone(st: State, key: seq<nat>, salt: seq<nat>)
    requires key != [] && salt != []
    ensures Repeat(st, key, salt, 0) == st
  {
  }

  lemma RepeatStep(st: State, key: seq<nat>, salt: seq<nat>, n: nat)
    requires key != [] && salt != []
    ensures Repeat(st, key, salt, n + 1) == Expand(Expand(Repeat(st, key, salt, n), NoSalt(), key), NoSalt(), salt)
  {
  }

  lemma TimesNone(st: State)
    ensures forall lr :: EncipherTimes(st, lr, 0) == lr
  {
  }

  lemma TimesStep(st: State, n: nat)
    ensures forall lr :: EncipherTimes(st, lr, n + 1) == Encipher(st, EncipherTimes(st, lr, n))
  {
  }

  lemma ZeroOffset(n: nat)
    requires n > 0
    ensures Cyclic(0, n) == 0
  {
  }

  lemma WordItself(w: word)
    ensures Low32(w) == w
  {
  }

  lemma ZeroPair()
    ensures Low32(0) == 0
  {
  }

  lemma AfterStep(st: State, lr: Pair, n: nat)
    requires n < 16
    ensures After(st, lr, n + 1) == Round(st, After(st, lr, n), n)
  {
  }

  lemma ExpandDef(st: State, salt: seq<nat>, key: seq<nat>, mixed: State)
    requires salt != [] && key != [] && mixed == State(MixKey(st.p, key), st.s)
    ensures var x := FillP(mixed, salt, Pair(0, 0), 0);
            Expand(st, salt, key) == FillS(x.0, salt, x.1, 0)
  {
  }

  lemma FillPStep(st: State, salt: seq<nat>, lr: Pair, j: nat)
    requires salt != [] && j < 9
    ensures var x := Next(st, salt, lr, 2 * j);
            FillP(st, salt, lr, j) == FillP(WithP(st, 2 * j, x), salt, x, j + 1)
  {
  }

  lemma FillPDone(st: State, salt: seq<nat>, lr: Pair)
    requires salt != []
    ensures FillP(st, salt, lr, 9) == (st, lr)
  {
  }

  lemma FillSStep(st: State, salt: seq<nat>, lr: Pair, j: nat)
    requires salt != [] && j < 512
    ensures var x := Next(st, salt, lr, 18 + 2 * j);
            FillS(st, salt, lr, j) == FillS(WithS(st, 2 * j, x), salt, x, j + 1)
  {
  }

  lemma FillSDone(st: State, salt: seq<nat>, lr: Pair)
    requires salt != []
    ensures FillS(st, salt, lr, 512) == st
  {
  }

  lemma NextUnsalted(st: State, lr: Pair, k: nat)
    ensures Next(st, NoSalt(), lr, k) == Encipher(st, lr)
  {
    hide Encipher, Xor;
    NoSaltIsZero(k);
    NoSaltIsZero(k + 1);
    XorZero(lr.l);
    XorZero(lr.r);
  }
}
