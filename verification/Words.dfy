/** 32-bit words. */
module Words {
  import opened Bits
  import opened Bytes

  const WORD := 0x1_0000_0000

  type word = w: nat | w < WORD

  lemma Pow2Word()
    ensures Pow2(32) == WORD
  {
    hide Pow2;
    Shift8(0);
    Pow2Byte(8);
    Pow2Byte(16);
    Pow2Byte(24);
  }

  lemma XorWordBound(a: word, b: word)
    ensures Xor(a, b) < WORD
  {
    hide Xor, Pow2;
    Pow2Word();
    XorBound(a, b, 32);
  }

  function Xor32(a: word, b: word): word {
    XorWordBound(a, b);
    Xor(a, b)
  }

  lemma Xor32Cancel(a: word, b: word)
    ensures Xor32(Xor32(a, b), b) == a
  {
    hide Xor;
    XorCancel(a, b);
  }

  lemma LowWord(a: nat)
    ensures Low(a, 32) == a % WORD
  {
    hide Low, Shr, Shl, Pow2;
    Pow2Word();
    Split(a, 32);
    ShlMul(Shr(a, 32), 32);
  }

  lemma WordOctets(x: word)
    ensures BeBytes(x, 4) == [x / 0x100_0000 % 256, x / 0x1_0000 % 256, x / 0x100 % 256, x % 256]
  {
    assert BeBytes(x / 0x100_0000, 1) == [x / 0x100_0000 % 256];
    assert x / 0x1_0000 / 256 == x / 0x100_0000 && x / 0x100 / 256 == x / 0x1_0000;
    assert BeBytes(x / 0x1_0000, 2) == BeBytes(x / 0x100_0000, 1) + [x / 0x1_0000 % 256];
    assert BeBytes(x / 0x100, 3) == BeBytes(x / 0x1_0000, 2) + [x / 0x100 % 256];
  }
}
