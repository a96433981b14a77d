/** BIP-39 recovery phrases: 11-bit words repacked into bytes, and the checksum of the entropy. */
module Bip39 {
  import opened Bits
  import opened Bytes

  type Index = i: nat | i < 2048

  /** 2048 different words. */
  ghost predicate IsWordlist(list: seq<string>) {
    |list| == 2048 && forall i, j :: 0 <= i < j < 2048 ==> list[i] != list[j]
  }

  // ---- The standard: "Generating the mnemonic" ----

  predicate EntropyLength(n: nat) {
    n in {16, 20, 24, 28, 32}
  }

  /** The first |e|/4 bits of the hash of e; `sha` gives the first byte of SHA-256. */
  function Checksum(sha: seq<byte> -> byte, e: seq<byte>): nat
    requires EntropyLength(|e|)
  {
    Shr(sha(e), 8 - |e| / 4)
  }

  /** v in n words of 11 bits, most significant first. */
  function Digits(v: nat, n: nat): (ix: seq<Index>)
    ensures |ix| == n
  {
    if n == 0 then [] else Digits(v / 2048, n - 1) + [v % 2048]
  }

  /** Entropy, checksum appended, cut into groups of 11 bits. */
  function Mnemonic(sha: seq<byte> -> byte, e: seq<byte>): seq<Index>
    requires EntropyLength(|e|)
  {
    Digits(Shl(BeValue(e), |e| / 4) + Checksum(sha, e), |e| / 4 * 3)
  }

  // ---- Values of word sequences ----

  function WordsValue(ix: seq<Index>): nat {
    if ix == [] then 0 else 2048 * WordsValue(ix[..|ix| - 1]) + ix[|ix| - 1]
  }

  lemma {:induction false} DigitsOfValue(ix: seq<Index>)
    ensures Digits(WordsValue(ix), |ix|) == ix
  {
    if ix != [] { DigitsOfValue(ix[..|ix| - 1]); }
  }

  lemma Pow2Eleven(n: nat)
    ensures Pow2(n + 11) == 2048 * Pow2(n)
  {
    Pow2Byte(n + 3);
    assert Pow2(n + 2) == 4 * Pow2(n);
    assert Pow2(n + 3) == 8 * Pow2(n);
  }

  lemma {:induction false} ValueOfDigits(v: nat, n: nat)
    requires v < Pow2(11 * n)
    ensures WordsValue(Digits(v, n)) == v
  {
    if n > 0 {
      hide Pow2;
      Pow2Eleven(11 * n - 11);
      ValueOfDigits(v / 2048, n - 1);
      assert Digits(v, n)[..n - 1] == Digits(v / 2048, n - 1);
    }
  }

  // ---- Repacking ----

  /** Bytes emitted so far and bits left over. */
  datatype Pack = Pack(data: seq<byte>, bucket: nat, bits: nat)

  /** The bits of the words are those of the bytes followed by those of the bucket. */
  ghost predicate Holds(p: Pack, ix: seq<Index>) {
    && p.bucket < Pow2(p.bits)
    && 8 * |p.data| + p.bits == 11 * |ix|
    && Shl(BeValue(p.data), p.bits) + p.bucket == WordsValue(ix)
  }

  /** `bucket & (0xFFFF_FFFF ^ (0xFF << n))` clears the byte just emitted. */
  function ClearByte(bucket: nat, n: nat): nat {
    And(bucket, Xor(0xFFFF_FFFF, Shl(0xFF, n)))
  }

  /** 2^n - 1 is all ones. */
  lemma OnesHalves(n: nat)
    requires n > 0
    ensures (Pow2(n) - 1) / 2 == Pow2(n - 1) - 1 && (Pow2(n) - 1) % 2 == 1 && Pow2(n) == 2 * Pow2(n - 1)
  {
    var p := Pow2(n - 1);
    assert Pow2(n) == 2 * p;
    hide Pow2;
    DivUnique(2 * p - 1, 2, p - 1, 1);
  }

  lemma {:induction false} AndClear(b: nat, k: nat, w: nat)
    requires k <= w && b < Pow2(k)
    ensures And(b, Xor(Pow2(w) - 1, Pow2(k) - 1)) == 0
  {
    hide Xor, And;
    if k == 0 {
      AndZero(Xor(Pow2(w) - 1, 0));
    } else {
      hide Pow2;
      OnesHalves(w);
      OnesHalves(k);
      AndClear(b / 2, k - 1, w - 1);
      var p, q := Pow2(w) - 1, Pow2(k) - 1;
      var m := Xor(p, q);
      XorHalves(p, q);
      assert m / 2 == Xor(p / 2, q / 2) && m % 2 == 0;
      AndHalves(b, m);
      assert And(b, m) / 2 == 0 && And(b, m) % 2 == 0;
    }
  }

  lemma AndHalves(a: nat, b: nat)
    ensures And(a, b) / 2 == And(a / 2, b / 2)
    ensures And(a, b) % 2 == if a % 2 == 1 && b % 2 == 1 then 1 else 0
  {
  }

  lemma {:induction false} AndKeep(b: nat, n: nat, w: nat)
    requires n + 8 <= w && b < Pow2(n + 8)
    ensures And(b, Xor(Pow2(w) - 1, Shl(0xFF, n))) == Low(b, n)
  {
    hide Xor, And, Low, Pow2, Shl;
    if n == 0 {
      AndKeepNone(b, w);
    } else {
      OnesHalves(w);
      OnesHalves(n + 8);
      ShlStep(0xFF, n);
      AndKeep(b / 2, n - 1, w - 1);
      var p, f := Pow2(w) - 1, Shl(0xFF, n);
      var m := Xor(p, f);
      XorHalves(p, f);
      assert m / 2 == Xor(p / 2, f / 2) && m % 2 == 1;
      AndHalves(b, m);
      LowHalves(b, n);
      assert And(b, m) / 2 == Low(b, n) / 2 && And(b, m) % 2 == Low(b, n) % 2;
    }
  }

  lemma AndKeepNone(b: nat, w: nat)
    requires 8 <= w && b < Pow2(8)
    ensures And(b, Xor(Pow2(w) - 1, Shl(0xFF, 0))) == Low(b, 0)
  {
    hide Xor, And;
    Shift8(0);
    AndClear(b, 8, w);
  }

  lemma ShlStep(x: nat, n: nat)
    requires n > 0
    ensures Shl(x, n) == 2 * Shl(x, n - 1)
  {
  }

  lemma ClearsByte(b: nat, n: nat)
    requires n <= 24 && b < Pow2(n + 8)
    ensures ClearByte(b, n) == Low(b, n)
  {
    hide And, Xor, Low, Shl, Pow2;
    AndKeep(b, n, 32);
    Shift8(0);
    Pow2Byte(8);
    Pow2Byte(16);
    Pow2Byte(24);
  }

  /** One word is shifted in. */
  lemma PushWord(p: Pack, ix: seq<Index>, i: Index)
    requires Holds(p, ix)
    ensures Holds(Pack(p.data, Or(Shl(p.bucket, 11), i), p.bits + 11), ix + [i])
  {
    hide Or, Pow2, BeValue;
    Pow2Eleven(0);
    assert Pow2(0) == 1 by { Shift8(0); Pow2Byte(0); }
    OrDisjoint(p.bucket, i, 11);
    ShlMul(p.bucket, 11);
    Pow2Eleven(p.bits);
    ShlShl(BeValue(p.data), p.bits, 11);
    ShlMul(Shl(BeValue(p.data), p.bits), 11);
    assert (ix + [i])[..|ix|] == ix;
  }

  /** One byte is emitted. */
  lemma EmitByte(p: Pack, ix: seq<Index>)
    requires Holds(p, ix) && p.bits >= 8
    ensures var n := p.bits - 8;
            && Shr(p.bucket, n) < 256
            && Holds(Pack(p.data + [Shr(p.bucket, n)], Low(p.bucket, n), n), ix)
  {
    hide Shr, Low, Shl, Pow2;
    var n := p.bits - 8;
    var b := Shr(p.bucket, n);
    Split(p.bucket, n);
    Pow2Byte(n);
    ShlMul(b, n);
    TopByte(b, Pow2(n), p.bucket);
    var v := BeValue(p.data);
    ShlShl(v, 8, n);
    ShlSum(256 * v, b, n);
    Shift8(v);
    assert (p.data + [b])[..|p.data|] == p.data;
    assert BeValue(p.data + [b]) == 256 * v + b;
  }

  lemma TopByte(b: nat, p: nat, x: nat)
    requires b * p <= x < 256 * p
    ensures b < 256
  {
    MulMono(256, b, p);
  }

  method Repack(ix: seq<Index>) returns (p: Pack)
    ensures Holds(p, ix) && p.bits < 8
  {
    hide Holds, Or, Shl, Shr, Low, ClearByte;
    p := Pack([], 0, 0);
    PackNothing();
    for k := 0 to |ix|
      invariant Holds(p, ix[..k]) && p.bits < 8
    {
      PushWord(p, ix[..k], ix[k]);
      assert ix[..k + 1] == ix[..k] + [ix[k]];
      p := Pack(p.data, Or(Shl(p.bucket, 11), ix[k]), p.bits + 11);
      while p.bits >= 8
        invariant Holds(p, ix[..k + 1]) && p.bits < 19
        decreases p.bits
      {
        EmitByte(p, ix[..k + 1]);
        BucketFits(p, ix[..k + 1]);
        var n := p.bits - 8;
        ByteItself(Shr(p.bucket, n));
        ClearsByte(p.bucket, n);
        p := Pack(p.data + [Shr(p.bucket, n) % 256], ClearByte(p.bucket, n), n);
      }
    }
    assert ix[..|ix|] == ix;
  }

  lemma PackNothing()
    ensures Holds(Pack([], 0, 0), [])
  {
  }

  lemma BucketFits(p: Pack, ix: seq<Index>)
    requires Holds(p, ix)
    ensures p.bucket < Pow2(p.bits)
  {
  }

  lemma ByteItself(b: nat)
    ensures b < 256 ==> b % 256 == b
  {
  }

  /** Words determine what is packed from them. */
  lemma PackUnique(p: Pack, q: Pack, ix: seq<Index>)
    requires Holds(p, ix) && Holds(q, ix) && p.bits == q.bits
    ensures p == q
  {
    hide Shl, BeValue, WordsValue, Pow2;
    Join(BeValue(p.data), p.bucket, p.bits);
    Join(BeValue(q.data), q.bucket, q.bits);
    BeBytesOfValue(p.data);
    BeBytesOfValue(q.data);
  }

  // ---- Entropy and its phrase ----

  /** What the words of e's phrase pack to. */
  function Packed(sha: seq<byte> -> byte, e: seq<byte>): Pack
    requires EntropyLength(|e|)
  {
    Pack(e, Checksum(sha, e), |e| / 4)
  }

  lemma ChecksumBound(sha: seq<byte> -> byte, e: seq<byte>)
    requires EntropyLength(|e|)
    ensures Checksum(sha, e) < Pow2(|e| / 4)
  {
    hide Shr, Shl, Low, Pow2;
    var cs := |e| / 4;
    var b: nat := sha(e);
    Shift8(0);
    Small(b, 8);
    ShrShr(b, 8 - cs, cs);
    Small(Shr(b, 8 - cs), cs);
  }

  /** The phrase of e, and no other words, hold e and its checksum. */
  lemma PhraseHolds(sha: seq<byte> -> byte, e: seq<byte>, ix: seq<Index>)
    requires EntropyLength(|e|)
    ensures ix == Mnemonic(sha, e) <==> Holds(Packed(sha, e), ix)
  {
    hide Checksum, Shl, BeValue, WordsValue, Digits, Pow2;
    var cs := |e| / 4;
    var v := Shl(BeValue(e), cs) + Checksum(sha, e);
    ChecksumBound(sha, e);
    PhraseBound(BeValue(e), Checksum(sha, e), 8 * |e|, cs, e);
    ValueOfDigits(v, 3 * cs);
    DigitsOfValue(ix);
  }

  lemma PhraseBound(x: nat, c: nat, n: nat, cs: nat, e: seq<byte>)
    requires x == BeValue(e) && n == 8 * |e| && c < Pow2(cs)
    ensures Shl(x, cs) + c < Pow2(n + cs)
  {
    hide Shl, Shr, Low, BeValue;
    BeValueBound(e);
    Join(x, c, cs);
    ShrShr(Shl(x, cs) + c, cs, n);
    Small(x, n);
    Small(Shl(x, cs) + c, n + cs);
    assert cs + n == n + cs;
  }

  // ---- Decoding ----

  function IndexOf(list: seq<string>, word: string, from: nat): (r: Option<nat>)
    ensures r.Some? ==> from <= r.value < |list| && list[r.value] == word
    ensures r.None? ==> forall i :: from <= i < |list| ==> list[i] != word
    decreases if from < |list| then |list| - from else 0
  {
    if from >= |list| then None
    else if list[from] == word then Some(from)
    else IndexOf(list, word, from + 1)
  }

  /** The words at given places of the list. */
  function Spelled(list: seq<string>, ix: seq<Index>): (w: seq<string>)
    requires |list| == 2048
    ensures |w| == |ix|
  {
    if ix == [] then [] else Spelled(list, ix[..|ix| - 1]) + [list[ix[|ix| - 1]]]
  }

  predicate PhraseLength(n: nat) {
    n in {12, 15, 18, 21, 24}
  }

  method LookupLoop(list: seq<string>, words: seq<string>) returns (ix: Option<seq<Index>>)
    requires IsWordlist(list)
    ensures ix.None? ==> forall jx: seq<Index> :: Spelled(list, jx) != words
    ensures ix.Some? ==> forall jx: seq<Index> :: Spelled(list, jx) == words <==> jx == ix.value
  {
    hide IndexOf;
    var found: seq<Index> := [];
    for k := 0 to |words|
      invariant Spelled(list, found) == words[..k]
    {
      var i := IndexOf(list, words[k], 0);
      if i.None? {
        forall jx: seq<Index>
          ensures Spelled(list, jx) != words
        {
          if Spelled(list, jx) == words { SpelledAt(list, jx, k); }
        }
        return None;
      }
      ghost var before := found;
      found := found + [i.value];
      assert found[..|found| - 1] == before;
    }
    assert words[..|words|] == words;
    forall jx: seq<Index> | Spelled(list, jx) == words
      ensures jx == found
    {
      SpellingUnique(list, jx, found);
    }
    ix := Some(found);
  }

  lemma {:induction false} SpelledAt(list: seq<string>, ix: seq<Index>, k: nat)
    requires |list| == 2048 && k < |ix|
    ensures Spelled(list, ix)[k] == list[ix[k]]
  {
    if k < |ix| - 1 { SpelledAt(list, ix[..|ix| - 1], k); }
  }

  lemma SpellingUnique(list: seq<string>, ix: seq<Index>, jx: seq<Index>)
    requires IsWordlist(list) && Spelled(list, ix) == Spelled(list, jx)
    ensures ix == jx
  {
    hide Spelled;
    forall k | 0 <= k < |ix|
      ensures ix[k] == jx[k]
    {
      SpelledAt(list, ix, k);
      SpelledAt(list, jx, k);
    }
  }

  /** The entropy of a phrase: accepted exactly when the phrase is the mnemonic of what is returned. */
  method ToBits(list: seq<string>, sha: seq<byte> -> byte, words: seq<string>) returns (r: Result<seq<byte>>)
    requires IsWordlist(list)
    ensures r.Ok? ==> EntropyLength(|r.value|)
    ensures forall e: seq<byte> :: EntropyLength(|e|) ==> (r == Ok(e) <==> words == Spelled(list, Mnemonic(sha, e)))
  {
    hide Mnemonic, Spelled, Checksum, Holds, Shr;
    if !PhraseLength(|words|) {
      WrongLength(list, sha, words);
      return Err("BIP-39 phrase has incorrect length");
    }
    var ix := LookupLoop(list, words);
    if ix.None? { return Err("not a BIP-39 word"); }
    assert Spelled(list, ix.value) == words;
    var p := Repack(ix.value);
    PackShape(p, ix.value);
    var data, entered;
    if p.bits == 0 {
      entered := p.data[|p.data| - 1];
      data := p.data[..|p.data| - 1];
      LastByteIsChecksum(p, ix.value);
    } else {
      entered := p.bucket;
      data := p.data;
    }
    var checksumBits := |data| / 4;
    assert Holds(Pack(data, entered, checksumBits), ix.value);
    var checksum := Shr(sha(data), 8 - checksumBits);
    ChecksumDef(sha, data);
    PhraseHolds(sha, data, ix.value);
    forall e: seq<byte> | EntropyLength(|e|)
      ensures words == Spelled(list, Mnemonic(sha, e)) <==> e == data && checksum == entered
    {
      if ix.value == Mnemonic(sha, e) {
        PhraseHolds(sha, e, ix.value);
        SameShape(Pack(data, entered, checksumBits), Packed(sha, e), ix.value);
        PackUnique(Pack(data, entered, checksumBits), Packed(sha, e), ix.value);
      }
    }
    if checksum == entered { return Ok(data); }
    return Err("checksum did not match on BIP-39 phrase");
  }

  lemma ChecksumDef(sha: seq<byte> -> byte, e: seq<byte>)
    requires EntropyLength(|e|)
    ensures Checksum(sha, e) == Shr(sha(e), 8 - |e| / 4)
  {
  }

  /** As a number, the phrase is the entropy followed by the first bits of its hash. */
  lemma MnemonicValue(sha: seq<byte> -> byte, e: seq<byte>)
    requires EntropyLength(|e|)
    ensures var bits := |e| / 4;
            && |Mnemonic(sha, e)| == 3 * bits
            && WordsValue(Mnemonic(sha, e)) == BeValue(e) * Pow2(bits) + sha(e) / Pow2(8 - bits)
  {
    var bits := |e| / 4;
    PhraseHolds(sha, e, Mnemonic(sha, e));
    hide Mnemonic, WordsValue, BeValue, Shl, Shr, Pow2;
    MnemonicLength(sha, e);
    ShlMul(BeValue(e), bits);
    ShrDiv(sha(e), 8 - bits, Pow2(8 - bits));
  }

  lemma MnemonicLength(sha: seq<byte> -> byte, e: seq<byte>)
    requires EntropyLength(|e|)
    ensures |Mnemonic(sha, e)| == |e| / 4 * 3
  {
  }

  lemma WrongLength(list: seq<string>, sha: seq<byte> -> byte, words: seq<string>)
    requires |list| == 2048 && !PhraseLength(|words|)
    ensures forall e: seq<byte> :: EntropyLength(|e|) ==> words != Spelled(list, Mnemonic(sha, e))
  {
    hide Mnemonic, Spelled;
    forall e: seq<byte> | EntropyLength(|e|)
      ensures words != Spelled(list, Mnemonic(sha, e))
    {
      MnemonicLength(sha, e);
    }
  }

  lemma PackShape(p: Pack, ix: seq<Index>)
    requires Holds(p, ix) && p.bits < 8 && PhraseLength(|ix|)
    ensures p.bits == 0 ==> |p.data| == 33
    ensures p.bits != 0 ==> EntropyLength(|p.data|) && p.bits == |p.data| / 4
  {
  }

  lemma SameShape(p: Pack, q: Pack, ix: seq<Index>)
    requires Holds(p, ix) && Holds(q, ix) && p.bits == |p.data| / 4 && q.bits == |q.data| / 4
    requires EntropyLength(|p.data|) && EntropyLength(|q.data|)
    ensures p.bits == q.bits
  {
  }

  lemma LastByteIsChecksum(p: Pack, ix: seq<Index>)
    requires Holds(p, ix) && p.bits == 0 && |p.data| == 33
    ensures Holds(Pack(p.data[..32], p.data[32], 8), ix)
  {
    hide BeValue, Shl;
    Shift8(BeValue(p.data[..32]));
    assert Pow2(0) == 1 && Shl(BeValue(p.data), 0) == BeValue(p.data) by { ZeroBits(BeValue(p.data)); }
    LastByte(p.data);
  }

  lemma ZeroBits(a: nat)
    ensures Pow2(0) == 1 && Shl(a, 0) == a
  {
  }

  lemma LastByte(s: seq<byte>)
    requires s != []
    ensures BeValue(s) == 256 * BeValue(s[..|s| - 1]) + s[|s| - 1]
  {
  }
}
