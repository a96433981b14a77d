/** Blowfish and the bcrypt key schedule on 32-bit words: the reference the implementation is held to. */
module Blowfish {
  import opened Bits
  import opened Bytes
  import opened Words

  type PBox = p: seq<word> | |p| == 18 witness seq(18, _ => 0)
  type SBox = s: seq<word> | |s| == 1024 witness seq(1024, _ => 0)

  datatype Pair = Pair(l: word, r: word)
  datatype State = State(p: PBox, s: SBox)

  function Add32(a: word, b: word): word {
    (a + b) % WORD
  }

  /** The round function. */
  function F(s: SBox, x: word): word {
    Add32(Xor32(Add32(s[x / 0x100_0000 % 0x100], s[0x100 + x / 0x1_0000 % 0x100]),
                s[0x200 + x / 0x100 % 0x100]),
          s[0x300 + x % 0x100])
  }

  /** One Feistel round: key, mix, swap. */
  function Round(st: State, lr: Pair, i: nat): Pair
    requires i < 18
  {
    var l := Xor32(lr.l, st.p[i]);
    Pair(Xor32(lr.r, F(st.s, l)), l)
  }

  /** The halves after n rounds. */
  function After(st: State, lr: Pair, n: nat): Pair
    requires n <= 16
  {
    if n == 0 then lr else Round(st, After(st, lr, n - 1), n - 1)
  }

  /** Sixteen rounds, the last swap undone, and the output keys. */
  function Encipher(st: State, lr: Pair): Pair {
    var x := After(st, lr, 16);
    Pair(Xor32(x.r, st.p[17]), Xor32(x.l, st.p[16]))
  }

  // ---- What the round function is ----

  /** A table added to the entries of one of the four boxes. */
  function AddTable(s: SBox, box: nat, t: seq<word>): SBox
    requires box < 4 && |t| == 256
  {
    seq(1024, i requires 0 <= i < 1024 => if i / 256 == box then Add32(s[i], t[i % 256]) else s[i])
  }

  function XorTable(s: SBox, box: nat, t: seq<word>): SBox
    requires box < 4 && |t| == 256
  {
    seq(1024, i requires 0 <= i < 1024 => if i / 256 == box then Xor32(s[i], t[i % 256]) else s[i])
  }

  ghost predicate ZeroFrom(s: SBox, box: nat) {
    forall i :: 256 * box <= i < 1024 ==> s[i] == 0
  }

  /** The fourth box is added last, at the lowest octet. */
  lemma FourthBox(s: SBox, t: seq<word>, x: word)
    requires |t| == 256
    ensures F(AddTable(s, 3, t), x) == Add32(F(s, x), t[x % 0x100])
  {
    hide Xor32;
    AddMore(Xor32(Add32(s[x / 0x100_0000 % 0x100], s[0x100 + x / 0x1_0000 % 0x100]), s[0x200 + x / 0x100 % 0x100]),
            s[0x300 + x % 0x100], t[x % 0x100]);
  }

  lemma AddMore(a: word, b: word, c: word)
    ensures Add32(a, Add32(b, c)) == Add32(Add32(a, b), c)
  {
  }

  lemma AddZero(a: word)
    ensures Add32(a, 0) == a
  {
  }

  /** Before it the third box is xored in, at the second lowest octet. */
  lemma ThirdBox(s: SBox, t: seq<word>, x: word)
    requires |t| == 256 && ZeroFrom(s, 3)
    ensures F(XorTable(s, 2, t), x) == Xor32(F(s, x), t[x / 0x100 % 0x100])
  {
    hide Xor;
    var a := Add32(s[x / 0x100_0000 % 0x100], s[0x100 + x / 0x1_0000 % 0x100]);
    XorAssoc(a, s[0x200 + x / 0x100 % 0x100], t[x / 0x100 % 0x100]);
  }

  /** Before that the second box is added, at the second highest octet. */
  lemma SecondBox(s: SBox, t: seq<word>, x: word)
    requires |t| == 256 && ZeroFrom(s, 2)
    ensures F(AddTable(s, 1, t), x) == Add32(F(s, x), t[x / 0x1_0000 % 0x100])
  {
    hide Xor32, Add32;
    var a, b, d := s[x / 0x100_0000 % 0x100], s[0x100 + x / 0x1_0000 % 0x100], t[x / 0x1_0000 % 0x100];
    AddMore(a, b, d);
    XorWithZero(Add32(a, b));
    XorWithZero(Add32(a, Add32(b, d)));
    AddZero(Add32(a, b));
    AddZero(Add32(a, Add32(b, d)));
  }

  /** And it all starts with the first box, at the highest octet. */
  lemma FirstBox(s: SBox, x: word)
    requires ZeroFrom(s, 1)
    ensures F(s, x) == s[x / 0x100_0000]
  {
    hide Xor;
    XorWithZero(s[x / 0x100_0000]);
  }

  lemma XorWithZero(a: word)
    ensures Xor32(a, 0) == a
  {
    hide Xor;
    XorZero(a);
    XorComm(a, 0);
  }

  // ---- Where the subkeys go in ----

  function XorKey(st: State, i: nat, m: word): State
    requires i < 18
  {
    State(st.p[i := Xor32(st.p[i], m)], st.s)
  }

  /** A change of a key before or after the rounds is one of the input or of the output. */
  lemma OuterKeys(st: State, lr: Pair, m: word)
    ensures Encipher(XorKey(st, 0, m), lr) == Encipher(st, Pair(Xor32(lr.l, m), lr.r))
    ensures Encipher(XorKey(st, 1, m), lr) == Encipher(st, Pair(lr.l, Xor32(lr.r, m)))
    ensures Encipher(XorKey(st, 16, m), lr) == Pair(Encipher(st, lr).l, Xor32(Encipher(st, lr).r, m))
    ensures Encipher(XorKey(st, 17, m), lr) == Pair(Xor32(Encipher(st, lr).l, m), Encipher(st, lr).r)
  {
    hide After, Xor32, Round;
    FirstKey(st, lr, m, 16);
    SecondKey(st, lr, m, 16);
    OtherKeys(st, XorKey(st, 16, m), lr, 16);
    OtherKeys(st, XorKey(st, 17, m), lr, 16);
    var x := After(st, lr, 16);
    Xor32Assoc(x.l, st.p[16], m);
    Xor32Assoc(x.r, st.p[17], m);
  }

  lemma Xor32Assoc(a: word, b: word, c: word)
    ensures Xor32(a, Xor32(b, c)) == Xor32(Xor32(a, b), c)
    ensures Xor32(Xor32(a, c), b) == Xor32(Xor32(a, b), c)
  {
    hide Xor;
    XorAssoc(a, b, c);
    XorAssoc(a, c, b);
    XorComm(b, c);
  }

  lemma {:induction false} OtherKeys(st: State, st': State, lr: Pair, n: nat)
    requires n <= 16 && st.s == st'.s && forall i :: 0 <= i < n ==> st.p[i] == st'.p[i]
    ensures After(st, lr, n) == After(st', lr, n)
  {
    hide F, Xor32;
    if n > 0 { OtherKeys(st, st', lr, n - 1); }
  }

  lemma {:induction false} FirstKey(st: State, lr: Pair, m: word, n: nat)
    requires 1 <= n <= 16
    ensures After(XorKey(st, 0, m), lr, n) == After(st, Pair(Xor32(lr.l, m), lr.r), n)
  {
    hide F, Xor32;
    if n == 1 {
      Xor32Assoc(lr.l, st.p[0], m);
      assert After(XorKey(st, 0, m), lr, 0) == lr;
    } else {
      FirstKey(st, lr, m, n - 1);
    }
  }

  lemma {:induction false} SecondKey(st: State, lr: Pair, m: word, n: nat)
    requires 2 <= n <= 16
    ensures After(XorKey(st, 1, m), lr, n) == After(st, Pair(lr.l, Xor32(lr.r, m)), n)
  {
    hide F, Xor32;
    if n == 2 {
      var l := Xor32(lr.l, st.p[0]);
      Xor32Assoc(lr.r, F(st.s, l), m);
      Xor32Assoc(Xor32(lr.r, F(st.s, l)), st.p[1], m);
      assert After(XorKey(st, 1, m), lr, 0) == lr;
      assert After(XorKey(st, 1, m), lr, 1) == Pair(Xor32(lr.r, F(st.s, l)), l);
      assert After(st, Pair(lr.l, Xor32(lr.r, m)), 0) == Pair(lr.l, Xor32(lr.r, m));
      assert After(st, Pair(lr.l, Xor32(lr.r, m)), 1) == Pair(Xor32(Xor32(lr.r, m), F(st.s, l)), l);
    } else {
      SecondKey(st, lr, m, n - 1);
    }
  }

  // ---- Encipher is a permutation ----

  function Reversed(p: PBox): PBox {
    seq(18, i requires 0 <= i < 18 => p[17 - i])
  }

  function Inverse(st: State): State {
    State(Reversed(st.p), st.s)
  }

  /** One round of the reversed network takes back one round. */
  lemma RoundUndone(st: State, lr: Pair, i: nat)
    requires i < 16
    ensures var out := Round(st, lr, i);
            Round(Inverse(st), Pair(Xor32(out.r, st.p[i + 2]), Xor32(out.l, st.p[i + 1])), 15 - i) ==
            Pair(Xor32(lr.r, st.p[i + 1]), Xor32(lr.l, st.p[i]))
  {
    hide Xor32, F;
    var out := Round(st, lr, i);
    var f := F(st.s, out.r);
    Xor32Cancel(out.r, st.p[i + 2]);
    Xor32Swap(lr.r, f, st.p[i + 1]);
  }

  lemma Xor32Swap(a: word, f: word, k: word)
    ensures Xor32(Xor32(Xor32(a, f), k), f) == Xor32(a, k)
  {
    hide Xor;
    XorAssoc(a, f, k);
    XorComm(f, k);
    XorAssoc(a, k, f);
    XorCancel(Xor(a, k), f);
  }

  lemma {:induction false} RoundsUndone(st: State, lr: Pair, k: nat)
    requires k <= 16
    ensures var x := After(st, lr, 16 - k);
            After(Inverse(st), Encipher(st, lr), k) == Pair(Xor32(x.r, st.p[17 - k]), Xor32(x.l, st.p[16 - k]))
  {
    hide Xor32, F, Round, Reversed;
    if k > 0 {
      RoundsUndone(st, lr, k - 1);
      RoundUndone(st, After(st, lr, 16 - k), 16 - k);
    }
  }

  /** The network with its keys reversed inverts the network. */
  lemma DecipherEncipher(st: State, lr: Pair)
    ensures Encipher(Inverse(st), Encipher(st, lr)) == lr
  {
    hide Xor32, F, Round, After;
    RoundsUndone(st, lr, 16);
    assert After(st, lr, 0) == lr by { AfterNone(st, lr); }
    Xor32Cancel(lr.l, st.p[0]);
    Xor32Cancel(lr.r, st.p[1]);
  }

  lemma AfterNone(st: State, lr: Pair)
    ensures After(st, lr, 0) == lr
  {
  }

  lemma EncipherDecipher(st: State, lr: Pair)
    ensures Encipher(st, Encipher(Inverse(st), lr)) == lr
  {
    hide Xor32, F, Round, After, Encipher;
    DecipherEncipher(Inverse(st), lr);
    assert Inverse(Inverse(st)) == st;
  }

  // ---- The expensive key schedule ----

  /** Word k of the data repeated without end, bytes most significant first. */
  function StreamWord(data: seq<nat>, k: nat): word
    requires data != []
  {
    StreamByte(data, 4 * k) * 0x100_0000 + StreamByte(data, 4 * k + 1) * 0x1_0000
    + StreamByte(data, 4 * k + 2) * 0x100 + StreamByte(data, 4 * k + 3)
  }

  function StreamByte(data: seq<nat>, i: nat): byte
    requires data != []
  {
    data[Cyclic(i, |data|)] % 256
  }

  /** Position i of an endlessly repeated string of n bytes. */
  function Cyclic(i: nat, n: nat): (r: nat)
    requires n > 0
    ensures r < n
  {
    i % n
  }

  function MixKey(p: PBox, key: seq<nat>): PBox
    requires key != []
  {
    seq(18, i requires 0 <= i < 18 => Xor32(p[i], StreamWord(key, i)))
  }

  /** Encipher the running pair, two salt words mixed in. */
  function Next(st: State, salt: seq<nat>, lr: Pair, k: nat): Pair
    requires salt != []
  {
    Encipher(st, Pair(Xor32(lr.l, StreamWord(salt, k)), Xor32(lr.r, StreamWord(salt, k + 1))))
  }

  function WithP(st: State, i: nat, x: Pair): State
    requires i + 1 < 18
  {
    State(st.p[i := x.l][i + 1 := x.r], st.s)
  }

  function WithS(st: State, i: nat, x: Pair): State
    requires i + 1 < 1024
  {
    State(st.p, st.s[i := x.l][i + 1 := x.r])
  }

  /** Replace subkey pairs from j on, each enciphered with the tables as replaced so far. */
  function FillP(st: State, salt: seq<nat>, lr: Pair, j: nat): (State, Pair)
    requires salt != [] && j <= 9
    decreases 9 - j
  {
    if j == 9 then (st, lr) else
    var x := Next(st, salt, lr, 2 * j);
    FillP(WithP(st, 2 * j, x), salt, x, j + 1)
  }

  function FillS(st: State, salt: seq<nat>, lr: Pair, j: nat): State
    requires salt != [] && j <= 512
    decreases 512 - j
  {
    if j == 512 then st else
    var x := Next(st, salt, lr, 18 + 2 * j);
    FillS(WithS(st, 2 * j, x), salt, x, j + 1)
  }

  /** ExpandKey(state, salt, key) */
  function Expand(st: State, salt: seq<nat>, key: seq<nat>): State
    requires salt != [] && key != []
  {
    var (st', lr) := FillP(State(MixKey(st.p, key), st.s), salt, Pair(0, 0), 0);
    FillS(st', salt, lr, 0)
  }

  function NoSalt(): (z: seq<nat>)
    ensures |z| == 16
  {
    seq(16, _ => 0)
  }

  function Repeat(st: State, key: seq<nat>, salt: seq<nat>, n: nat): State
    requires key != [] && salt != []
  {
    if n == 0 then st else
    Expand(Expand(Repeat(st, key, salt, n - 1), NoSalt(), key), NoSalt(), salt)
  }

  function EksBlowfishSetup(init: State, logRounds: nat, salt: seq<nat>, key: seq<nat>): State
    requires key != [] && salt != []
  {
    Repeat(Expand(init, salt, key), key, salt, Pow2(logRounds))
  }

  function EncipherTimes(st: State, lr: Pair, n: nat): Pair {
    if n == 0 then lr else Encipher(st, EncipherTimes(st, lr, n - 1))
  }

  function PairBytes(lr: Pair): (b: seq<byte>)
    ensures |b| == 8
  {
    BeBytes(lr.l, 4) + BeBytes(lr.r, 4)
  }

  /** "OrpheanBeholderScryDoubt" as three pairs of words. */
  const MAGIC: seq<Pair> := [Pair(0x4f727068, 0x65616e42), Pair(0x65686f6c, 0x64657253), Pair(0x63727944, 0x6f756274)]

  /** The 24 bytes of bcrypt. */
  function Bcrypt(init: State, key: seq<nat>, salt: seq<nat>, logRounds: nat): (out: seq<byte>)
    requires key != [] && salt != []
    ensures |out| == 24
  {
    var st := EksBlowfishSetup(init, logRounds, salt, key);
    PairBytes(EncipherTimes(st, MAGIC[0], 64)) +
    PairBytes(EncipherTimes(st, MAGIC[1], 64)) +
    PairBytes(EncipherTimes(st, MAGIC[2], 64))
  }

  // ---- The key schedule as one loop over one table ----

  /** Subkeys and boxes as one table. */
  function Flat(st: State): (t: seq<word>)
    ensures |t| == 1042
  {
    st.p + st.s
  }

  function Unflat(t: seq<word>): State
    requires |t| == 1042
  {
    State(t[..18], t[18..])
  }

  /** Entries 2n and 2n + 1: the two before them, xored with the salt, enciphered with the table as it is. */
  function FlatStep(t: seq<word>, salt: seq<nat>, n: nat): (t': seq<word>)
    requires |t| == 1042 && n < 521 && salt != []
    ensures |t'| == 1042
  {
    var before := if n == 0 then Pair(0, 0) else Pair(t[2 * n - 2], t[2 * n - 1]);
    var l, r := Xor32(before.l, StreamWord(salt, 2 * n)), Xor32(before.r, StreamWord(salt, 2 * n + 1));
    var x := Encipher(Unflat(t), Pair(l, r));
    t[2 * n := x.l][2 * n + 1 := x.r]
  }

  function FlatLoop(t: seq<word>, salt: seq<nat>, n: nat): seq<word>
    requires |t| == 1042 && n <= 521 && salt != []
    decreases 521 - n
  {
    if n == 521 then t else FlatLoop(FlatStep(t, salt, n), salt, n + 1)
  }

  ghost predicate Last(st: State, n: nat, lr: Pair)
    requires n <= 521
  {
    lr == if n == 0 then Pair(0, 0) else Pair(Flat(st)[2 * n - 2], Flat(st)[2 * n - 1])
  }

  lemma FlatP(st: State, salt: seq<nat>, lr: Pair, j: nat)
    requires salt != [] && j < 9 && Last(st, j, lr)
    ensures var x := Next(st, salt, lr, 2 * j);
            FlatStep(Flat(st), salt, j) == Flat(WithP(st, 2 * j, x)) && Last(WithP(st, 2 * j, x), j + 1, x)
  {
    hide Encipher, StreamWord, Xor32;
    assert Unflat(Flat(st)) == st;
    var x := Next(st, salt, lr, 2 * j);
    assert Flat(st)[2 * j := x.l][2 * j + 1 := x.r] == Flat(WithP(st, 2 * j, x));
  }

  lemma FlatS(st: State, salt: seq<nat>, lr: Pair, j: nat)
    requires salt != [] && j < 512 && Last(st, 9 + j, lr)
    ensures var x := Next(st, salt, lr, 18 + 2 * j);
            FlatStep(Flat(st), salt, 9 + j) == Flat(WithS(st, 2 * j, x)) && Last(WithS(st, 2 * j, x), 10 + j, x)
  {
    hide Encipher, StreamWord, Xor32;
    assert Unflat(Flat(st)) == st;
    var x := Next(st, salt, lr, 18 + 2 * j);
    assert Flat(st)[18 + 2 * j := x.l][19 + 2 * j := x.r] == Flat(WithS(st, 2 * j, x));
  }

  lemma {:induction false} FillPFlat(st: State, salt: seq<nat>, lr: Pair, j: nat)
    requires salt != [] && j <= 9 && Last(st, j, lr)
    ensures var (st', lr') := FillP(st, salt, lr, j);
            FlatLoop(Flat(st), salt, j) == FlatLoop(Flat(st'), salt, 9) && Last(st', 9, lr')
    decreases 9 - j
  {
    hide Flat, Last, Next, FlatStep, WithP;
    if j < 9 {
      FlatP(st, salt, lr, j);
      var x := Next(st, salt, lr, 2 * j);
      FillPFlat(WithP(st, 2 * j, x), salt, x, j + 1);
    }
  }

  lemma {:induction false} FillSFlat(st: State, salt: seq<nat>, lr: Pair, j: nat)
    requires salt != [] && j <= 512 && Last(st, 9 + j, lr)
    ensures FlatLoop(Flat(st), salt, 9 + j) == Flat(FillS(st, salt, lr, j))
    decreases 512 - j
  {
    hide Flat, Last, Next, FlatStep, WithS;
    if j < 512 {
      FlatS(st, salt, lr, j);
      var x := Next(st, salt, lr, 18 + 2 * j);
      FillSFlat(WithS(st, 2 * j, x), salt, x, j + 1);
    }
  }

  /** After the key is xored into the subkeys, all entries of the table are replaced in order, two at a time. */
  lemma ExpandIsOneLoop(st: State, salt: seq<nat>, key: seq<nat>)
    requires salt != [] && key != []
    ensures Flat(Expand(st, salt, key)) == FlatLoop(Flat(State(MixKey(st.p, key), st.s)), salt, 0)
  {
    hide Flat, FillP, FillS, FlatLoop, MixKey;
    var mixed := State(MixKey(st.p, key), st.s);
    FillPFlat(mixed, salt, Pair(0, 0), 0);
    var (st', lr) := FillP(mixed, salt, Pair(0, 0), 0);
    FillSFlat(st', salt, lr, 0);
  }

  /** The bytes of word k are the next four of the data, which starts again at its end. */
  lemma StreamBytes(data: seq<nat>, k: nat, j: nat)
    requires data != [] && j < 4
    ensures BeBytes(StreamWord(data, k), 4)[j] == data[(4 * k + j) % |data|] % 256
  {
    var i := 4 * k;
    var b0, b1 := StreamByte(data, i), StreamByte(data, i + 1);
    var b2, b3 := StreamByte(data, i + 2), StreamByte(data, i + 3);
    hide StreamByte, BeBytes;
    OctetsAre(StreamWord(data, k), b0, b1, b2, b3);
    StreamByteIs(data, 4 * k + j);
  }

  /** What the key changes in the subkeys is, as 72 bytes, the key itself, started again at its end. */
  lemma MixedBytes(p: PBox, key: seq<nat>, i: nat)
    requires key != [] && i < 72
    ensures BeBytes(Xor32(MixKey(p, key)[i / 4], p[i / 4]), 4)[i % 4] == key[i % |key|] % 256
  {
    hide StreamWord, BeBytes, Xor;
    var k := i / 4;
    var w := StreamWord(key, k);
    assert Xor32(Xor32(p[k], w), p[k]) == w by {
      XorComm(p[k], w);
      XorCancel(w, p[k]);
    }
    StreamBytes(key, k, i % 4);
    assert 4 * k + i % 4 == i;
  }

  lemma StreamByteIs(data: seq<nat>, i: nat)
    requires data != []
    ensures StreamByte(data, i) == data[i % |data|] % 256
  {
  }

  // ---- The cost loop ----

  /** Password and salt take turns, the password first. */
  lemma {:induction false} TakingTurns(st: State, key: seq<nat>, salt: seq<nat>, n: nat)
    requires key != [] && salt != []
    ensures Expand(Repeat(st, key, salt, n), NoSalt(), key) == Repeat(Expand(st, NoSalt(), key), salt, key, n)
  {
    hide Expand;
    if n > 0 { TakingTurns(st, key, salt, n - 1); }
  }

  lemma {:induction false} RepeatSum(st: State, key: seq<nat>, salt: seq<nat>, m: nat, n: nat)
    requires key != [] && salt != []
    ensures Repeat(st, key, salt, m + n) == Repeat(Repeat(st, key, salt, m), key, salt, n)
  {
    hide Expand;
    if n > 0 { RepeatSum(st, key, salt, m, n - 1); }
  }

  /** Without rounds beyond the first, and without salt; and each further unit of cost repeats all turns so far. */
  lemma SetupLaws(init: State, logRounds: nat, salt: seq<nat>, key: seq<nat>)
    requires key != [] && salt != []
    ensures EksBlowfishSetup(init, 0, NoSalt(), key) ==
            Expand(Expand(Expand(init, NoSalt(), key), NoSalt(), key), NoSalt(), NoSalt())
    ensures EksBlowfishSetup(init, 0, salt, key) ==
            Expand(Expand(Expand(init, salt, key), NoSalt(), key), NoSalt(), salt)
    ensures EksBlowfishSetup(init, logRounds + 1, salt, key) ==
            Repeat(EksBlowfishSetup(init, logRounds, salt, key), key, salt, Pow2(logRounds))
  {
    hide Expand;
    assert Pow2(0) == 1;
    RepeatOnce(Expand(init, salt, key), key, salt);
    RepeatOnce(Expand(init, NoSalt(), key), key, NoSalt());
    RepeatSum(Expand(init, salt, key), key, salt, Pow2(logRounds), Pow2(logRounds));
  }

  lemma RepeatOnce(st: State, key: seq<nat>, salt: seq<nat>)
    requires key != [] && salt != []
    ensures Repeat(st, key, salt, 1) == Expand(Expand(st, NoSalt(), key), NoSalt(), salt)
  {
    hide Expand;
    assert Repeat(st, key, salt, 0) == st;
  }

  // ---- What the output hides ----

  function DecipherTimes(st: State, lr: Pair, n: nat): Pair
    decreases n
  {
    if n == 0 then lr else DecipherTimes(st, Encipher(Inverse(st), lr), n - 1)
  }

  lemma {:induction false} DecipherAll(st: State, lr: Pair, n: nat)
    ensures DecipherTimes(st, EncipherTimes(st, lr, n), n) == lr
  {
    hide Encipher, Inverse;
    if n > 0 {
      DecipherEncipher(st, EncipherTimes(st, lr, n - 1));
      DecipherAll(st, lr, n - 1);
    }
  }

  function Ascii(text: string): (b: seq<byte>)
    ensures |b| == |text|
  {
    seq(|text|, i requires 0 <= i < |text| => text[i] as int % 256)
  }

  /** A pair from its eight bytes. */
  function PairOf(b: seq<byte>): Pair
    requires |b| == 8
  {
    BeValueBound(b[..4]);
    BeValueBound(b[4..]);
    Pow2Word();
    Pair(BeValue(b[..4]), BeValue(b[4..]))
  }

  lemma PairOfBytes(lr: Pair)
    ensures PairOf(PairBytes(lr)) == lr
  {
    hide BeBytes, BeValue, Pow2;
    Pow2Word();
    var b := PairBytes(lr);
    assert b[..4] == BeBytes(lr.l, 4) && b[4..] == BeBytes(lr.r, 4);
    BeValueOfBytes(lr.l, 4);
    BeValueOfBytes(lr.r, 4);
  }

  /** Deciphered 64 times with the tables of password and salt, the output is the text "OrpheanBeholderScryDoubt". */
  lemma OutputHidesText(init: State, key: seq<nat>, salt: seq<nat>, logRounds: nat)
    requires key != [] && salt != []
    ensures var out, st := Bcrypt(init, key, salt, logRounds), EksBlowfishSetup(init, logRounds, salt, key);
            PairBytes(DecipherTimes(st, PairOf(out[..8]), 64)) +
            PairBytes(DecipherTimes(st, PairOf(out[8..16]), 64)) +
            PairBytes(DecipherTimes(st, PairOf(out[16..]), 64)) == Ascii("OrpheanBeholderScryDoubt")
  {
    hide EksBlowfishSetup, EncipherTimes, DecipherTimes, PairBytes, PairOf;
    var out, st := Bcrypt(init, key, salt, logRounds), EksBlowfishSetup(init, logRounds, salt, key);
    var a, b, c := EncipherTimes(st, MAGIC[0], 64), EncipherTimes(st, MAGIC[1], 64), EncipherTimes(st, MAGIC[2], 64);
    assert out[..8] == PairBytes(a) && out[8..16] == PairBytes(b) && out[16..] == PairBytes(c);
    PairOfBytes(a);
    PairOfBytes(b);
    PairOfBytes(c);
    DecipherAll(st, MAGIC[0], 64);
    DecipherAll(st, MAGIC[1], 64);
    DecipherAll(st, MAGIC[2], 64);
    MagicText();
  }

  lemma OctetsAre(w: word, a: byte, b: byte, c: byte, d: byte)
    requires w == 0x100_0000 * a as int + 0x1_0000 * b as int + 0x100 * c as int + d as int
    ensures BeBytes(w, 4) == [a, b, c, d]
  {
    WordOctets(w);
    hide BeBytes;
    var x: nat, y: nat, z: nat := a, b, c;
    DivUnique(w, 0x100_0000, x, w - 0x100_0000 * x);
    DivUnique(w, 0x1_0000, 0x100 * x + y, w - 0x1_0000 * (0x100 * x + y));
    DivUnique(w, 0x100, 0x1_0000 * x + 0x100 * y + z, d);
    DivUnique(0x100 * x + y, 0x100, x, y);
    DivUnique(0x1_0000 * x + 0x100 * y + z, 0x100, 0x100 * x + y, z);
  }

  lemma MagicText()
    ensures PairBytes(MAGIC[0]) + PairBytes(MAGIC[1]) + PairBytes(MAGIC[2]) == Ascii("OrpheanBeholderScryDoubt")
  {
    hide BeBytes;
    OctetsAre(MAGIC[0].l, 'O' as int, 'r' as int, 'p' as int, 'h' as int);
    OctetsAre(MAGIC[0].r, 'e' as int, 'a' as int, 'n' as int, 'B' as int);
    OctetsAre(MAGIC[1].l, 'e' as int, 'h' as int, 'o' as int, 'l' as int);
    OctetsAre(MAGIC[1].r, 'd' as int, 'e' as int, 'r' as int, 'S' as int);
    OctetsAre(MAGIC[2].l, 'c' as int, 'r' as int, 'y' as int, 'D' as int);
    OctetsAre(MAGIC[2].r, 'o' as int, 'u' as int, 'b' as int, 't' as int);
  }

  lemma NoSaltIsZero(k: nat)
    ensures StreamWord(NoSalt(), k) == 0
  {
  }
}
