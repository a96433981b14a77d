/**
 Bitwise operators of unbounded non-negative integers, as Python's ints have them.
 All are defined by halving, so that every law below is an induction over bits.
 */
module Bits {

  function Pow2(n: nat): (r: nat)
    ensures r > 0
  {
    if n == 0 then 1 else 2 * Pow2(n - 1)
  }

  /** `a << n` */
  function Shl(a: nat, n: nat): nat {
    if n == 0 then a else 2 * Shl(a, n - 1)
  }

  /** `a >> n` */
  function Shr(a: nat, n: nat): nat {
    if n == 0 then a else Shr(a / 2, n - 1)
  }

  /** `a & (2^n - 1)`, the low n bits */
  function Low(a: nat, n: nat): nat {
    if n == 0 then 0 else a % 2 + 2 * Low(a / 2, n - 1)
  }

  /** `a ^ b` */
  function Xor(a: nat, b: nat): nat
    decreases a + b
  {
    if a == 0 && b == 0 then 0
    else (if a % 2 == b % 2 then 0 else 1) + 2 * Xor(a / 2, b / 2)
  }

  /** `a | b` */
  function Or(a: nat, b: nat): nat
    decreases a + b
  {
    if a == 0 && b == 0 then 0
    else (if a % 2 == 0 && b % 2 == 0 then 0 else 1) + 2 * Or(a / 2, b / 2)
  }

  /** `a & b` */
  function And(a: nat, b: nat): nat
    decreases a + b
  {
    if a == 0 && b == 0 then 0
    else (if a % 2 == 1 && b % 2 == 1 then 1 else 0) + 2 * And(a / 2, b / 2)
  }

  // ---- Arithmetic ----

  lemma MulMono(a: int, b: int, d: nat)
    ensures a <= b ==> a * d <= b * d
  {
    if a <= b { assert (b - a) * d >= 0; }
  }

  lemma DivUnique(x: int, d: nat, q: int, r: nat)
    requires x == d * q + r && r < d
    ensures x / d == q && x % d == r
  {
    var q', r' := x / d, x % d;
    assert x == d * q' + r';
    MulMono(q + 1, q', d);
    MulMono(q' + 1, q, d);
  }

  lemma MultipleSum(a: nat, b: nat, d: nat)
    requires d > 0 && a % d == 0 && b % d == 0
    ensures (a + b) % d == 0
  {
    var i, j := a / d, b / d;
    assert a == d * i && b == d * j && a + b == d * (i + j);
    DivUnique(a + b, d, i + j, 0);
  }

  // ---- Shifts and masks ----

  lemma ShlZero(n: nat)
    ensures Shl(0, n) == 0 && Shr(0, n) == 0 && Low(0, n) == 0
  {
  }

  lemma {:induction false} ShlSum(a: nat, b: nat, n: nat)
    ensures Shl(a + b, n) == Shl(a, n) + Shl(b, n)
  {
    if n > 0 { ShlSum(a, b, n - 1); }
  }

  lemma {:induction false} ShlOne(n: nat)
    ensures Shl(1, n) == Pow2(n)
  {
    if n > 0 { ShlOne(n - 1); }
  }

  lemma {:induction false} ShlMul(a: nat, n: nat)
    ensures Shl(a, n) == a * Pow2(n)
  {
    if n > 0 { ShlMul(a, n - 1); }
  }

  lemma {:induction false} ShlShl(a: nat, m: nat, n: nat)
    ensures Shl(Shl(a, m), n) == Shl(a, m + n)
  {
    if n > 0 { ShlShl(a, m, n - 1); }
  }

  lemma {:induction false} ShrShr(a: nat, m: nat, n: nat)
    ensures Shr(Shr(a, m), n) == Shr(a, m + n)
  {
    if m > 0 { ShrShr(a / 2, m - 1, n); }
  }

  lemma {:induction false} Pow2Mono(m: nat, n: nat)
    requires m <= n
    ensures Pow2(m) <= Pow2(n)
  {
    if m < n { Pow2Mono(m, n - 1); }
  }

  lemma {:induction false} LowBound(a: nat, n: nat)
    ensures Low(a, n) < Pow2(n)
  {
    if n > 0 { LowBound(a / 2, n - 1); }
  }

  /** Division with remainder by 2^n. */
  lemma {:induction false} Split(a: nat, n: nat)
    ensures a == Shl(Shr(a, n), n) + Low(a, n)
    ensures Low(a, n) < Pow2(n)
  {
    if n > 0 { Split(a / 2, n - 1); }
  }

  /** Quotient and remainder are unique. */
  lemma {:induction false} Join(a: nat, b: nat, n: nat)
    requires b < Pow2(n)
    ensures Shr(Shl(a, n) + b, n) == a && Low(Shl(a, n) + b, n) == b
  {
    if n > 0 {
      var x := Shl(a, n) + b;
      assert x / 2 == Shl(a, n - 1) + b / 2;
      Join(a, b / 2, n - 1);
    }
  }

  lemma Small(a: nat, n: nat)
    ensures a < Pow2(n) <==> Shr(a, n) == 0
    ensures a < Pow2(n) <==> Low(a, n) == a
  {
    Split(a, n);
    ShlZero(n);
    if a < Pow2(n) { Join(0, a, n); }
  }

  lemma ShrDiv(x: nat, n: nat, p: nat)
    requires p == Pow2(n)
    ensures Shr(x, n) == x / p && Low(x, n) == x % p
  {
    hide Shr, Low, Shl, Pow2;
    Split(x, n);
    ShlMul(Shr(x, n), n);
    DivUnique(x, p, Shr(x, n), Low(x, n));
  }

  lemma LowHalves(a: nat, n: nat)
    requires n > 0
    ensures Low(a, n) / 2 == Low(a / 2, n - 1)
    ensures Low(a, n) % 2 == a % 2
  {
  }

  // ---- Xor ----

  lemma XorZero(a: nat)
    ensures Xor(a, 0) == a && Xor(0, a) == a
  {
    if a > 0 { XorZero(a / 2); }
  }

  lemma XorHalves(a: nat, b: nat)
    ensures Xor(a, b) / 2 == Xor(a / 2, b / 2)
    ensures Xor(a, b) % 2 == if a % 2 == b % 2 then 0 else 1
  {
  }

  lemma {:induction false} XorComm(a: nat, b: nat)
    ensures Xor(a, b) == Xor(b, a)
    decreases a + b
  {
    if a + b > 0 { XorComm(a / 2, b / 2); }
  }

  lemma {:induction false} XorSelf(a: nat)
    ensures Xor(a, a) == 0
  {
    if a > 0 { XorSelf(a / 2); }
  }

  lemma {:induction false} XorAssoc(a: nat, b: nat, c: nat)
    ensures Xor(Xor(a, b), c) == Xor(a, Xor(b, c))
    decreases a + b + c
  {
    if a + b + c > 0 {
      XorAssoc(a / 2, b / 2, c / 2);
      hide Xor;
      XorHalves(a, b);
      XorHalves(b, c);
      XorHalves(Xor(a, b), c);
      XorHalves(a, Xor(b, c));
    }
  }

  /** `y` cancels: the involution behind every xor-based cipher. */
  lemma XorCancel(a: nat, y: nat)
    ensures Xor(Xor(a, y), y) == a
  {
    hide Xor;
    XorAssoc(a, y, y);
    XorSelf(y);
    XorZero(a);
  }

  lemma XorInjective(a: nat, b: nat, y: nat)
    requires Xor(a, y) == Xor(b, y)
    ensures a == b
  {
    hide Xor;
    XorCancel(a, y);
    XorCancel(b, y);
  }

  lemma XorEqualZero(a: nat, b: nat)
    ensures Xor(a, b) == 0 <==> a == b
  {
    hide Xor;
    XorSelf(b);
    if Xor(a, b) == 0 { XorInjective(a, b, b); }
  }

  /** The middle two of four terms may be swapped. */
  lemma XorSwap(a: nat, b: nat, c: nat, d: nat)
    ensures Xor(Xor(a, b), Xor(c, d)) == Xor(Xor(a, c), Xor(b, d))
  {
    hide Xor;
    XorAssoc(a, b, Xor(c, d));
    XorAssoc(b, c, d);
    XorComm(b, c);
    XorAssoc(c, b, d);
    XorAssoc(a, c, Xor(b, d));
  }

  lemma {:induction false} XorShr(a: nat, b: nat, n: nat)
    ensures Shr(Xor(a, b), n) == Xor(Shr(a, n), Shr(b, n))
  {
    hide Xor;
    if n > 0 {
      XorHalves(a, b);
      XorShr(a / 2, b / 2, n - 1);
    }
  }

  lemma {:induction false} XorLow(a: nat, b: nat, n: nat)
    ensures Low(Xor(a, b), n) == Xor(Low(a, n), Low(b, n))
  {
    if n > 0 {
      XorLow(a / 2, b / 2, n - 1);
      hide Xor, Low;
      XorHalves(a, b);
      LowHalves(a, n);
      LowHalves(b, n);
      LowHalves(Xor(a, b), n);
      XorHalves(Low(a, n), Low(b, n));
    }
  }

  lemma {:induction false} XorShl(a: nat, b: nat, n: nat)
    ensures Xor(Shl(a, n), Shl(b, n)) == Shl(Xor(a, b), n)
  {
    hide Xor;
    if n > 0 {
      XorShl(a, b, n - 1);
      var x, y := Shl(a, n - 1), Shl(b, n - 1);
      XorHalves(2 * x, 2 * y);
    }
  }

  lemma XorBound(a: nat, b: nat, n: nat)
    requires a < Pow2(n) && b < Pow2(n)
    ensures Xor(a, b) < Pow2(n)
  {
    hide Xor, Shr, Low;
    Small(a, n);
    Small(b, n);
    XorLow(a, b, n);
    Small(Xor(a, b), n);
  }

  /** Disjoint bit ranges: xor is addition. */
  lemma XorDisjoint(a: nat, b: nat, n: nat)
    requires b < Pow2(n)
    ensures Xor(Shl(a, n), b) == Shl(a, n) + b
  {
    hide Xor, Shr, Low;
    var x := Shl(a, n);
    Join(a, 0, n);
    Small(b, n);
    XorShr(x, b, n);
    XorLow(x, b, n);
    XorZero(a);
    XorZero(b);
    Split(Xor(x, b), n);
  }

  /** A leading bit survives a xor with anything shorter. */
  lemma XorLead(a: nat, b: nat, n: nat)
    requires Pow2(n) <= a < Pow2(n + 1) && b < Pow2(n)
    ensures Pow2(n) <= Xor(a, b) < Pow2(n + 1)
  {
    hide Xor, Shr, Low;
    Small(b, n);
    Small(a, n);
    XorShr(a, b, n);
    XorZero(Shr(a, n));
    Small(Xor(a, b), n);
    XorBound(a, b, n + 1);
  }

  /** Two equal leading bits cancel. */
  lemma XorTrail(a: nat, b: nat, n: nat)
    requires Pow2(n) <= a < Pow2(n + 1) && Pow2(n) <= b < Pow2(n + 1)
    ensures Xor(a, b) < Pow2(n)
  {
    hide Xor, Shr, Low, Shl;
    ShlOne(n);
    Join(1, a - Pow2(n), n);
    Join(1, b - Pow2(n), n);
    XorShr(a, b, n);
    XorSelf(1);
    Small(Xor(a, b), n);
  }

  // ---- Or and And ----

  lemma OrHalves(a: nat, b: nat)
    ensures Or(a, b) / 2 == Or(a / 2, b / 2)
    ensures Or(a, b) % 2 == if a % 2 == 0 && b % 2 == 0 then 0 else 1
  {
  }

  lemma {:induction false} OrZero(a: nat)
    ensures Or(a, 0) == a && Or(0, a) == a
  {
    if a > 0 { OrZero(a / 2); }
  }

  lemma {:induction false} OrDisjoint(a: nat, b: nat, n: nat)
    requires b < Pow2(n)
    ensures Or(Shl(a, n), b) == Shl(a, n) + b
  {
    if n == 0 {
      OrZero(a);
    } else {
      OrDisjoint(a, b / 2, n - 1);
    }
  }

  lemma {:induction false} AndLow(a: nat, n: nat)
    ensures And(a, Pow2(n) - 1) == Low(a, n)
  {
    if n == 0 {
      AndZero(a);
    } else {
      AndLow(a / 2, n - 1);
      assert (Pow2(n) - 1) / 2 == Pow2(n - 1) - 1;
    }
  }

  lemma {:induction false} AndZero(a: nat)
    ensures And(a, 0) == 0 && And(0, a) == 0
  {
    if a > 0 { AndZero(a / 2); }
  }

  lemma {:induction false} OrShr(a: nat, b: nat, n: nat)
    ensures Shr(Or(a, b), n) == Or(Shr(a, n), Shr(b, n))
  {
    if n > 0 {
      hide Or;
      OrHalves(a, b);
      OrShr(a / 2, b / 2, n - 1);
    }
  }

  lemma {:induction false} OrLow(a: nat, b: nat, n: nat)
    ensures Low(Or(a, b), n) == Or(Low(a, n), Low(b, n))
  {
    if n == 0 {
      OrZero(0);
    } else {
      OrLow(a / 2, b / 2, n - 1);
      hide Or, Low;
      OrHalves(a, b);
      LowHalves(a, n);
      LowHalves(b, n);
      LowHalves(Or(a, b), n);
      OrHalves(Low(a, n), Low(b, n));
    }
  }

  // ---- Xor of given numbers ----

  /** Numbers cut after n bits. */
  lemma XorCut(a: nat, b: nat, x: nat, y: nat, n: nat, p: nat)
    requires p == Pow2(n) && x < p && y < p
    ensures Xor(p * a + x, p * b + y) == p * Xor(a, b) + Xor(x, y)
  {
    hide Xor, Shl, Shr, Low, Pow2;
    ShlMul(a, n);
    ShlMul(b, n);
    Join(a, x, n);
    Join(b, y, n);
    var c, d := Shl(a, n) + x, Shl(b, n) + y;
    XorShr(c, d, n);
    XorLow(c, d, n);
    Split(Xor(c, d), n);
    ShlMul(Xor(a, b), n);
  }

  lemma TwoBits()
    ensures Xor(0, 0) == 0 && Xor(0, 1) == 1 && Xor(0, 2) == 2 && Xor(0, 3) == 3
    ensures Xor(1, 0) == 1 && Xor(1, 1) == 0 && Xor(1, 2) == 3 && Xor(1, 3) == 2
    ensures Xor(2, 0) == 2 && Xor(2, 1) == 3 && Xor(2, 2) == 0 && Xor(2, 3) == 1
    ensures Xor(3, 0) == 3 && Xor(3, 1) == 2 && Xor(3, 2) == 1 && Xor(3, 3) == 0
  {
  }

  /** Half a hexadecimal digit. */
  lemma XorHalf(a: nat, b: nat, x: nat, y: nat)
    requires x < 4 && y < 4
    ensures Xor(4 * a + x, 4 * b + y) == 4 * Xor(a, b) + Xor(x, y)
  {
    XorCut(a, b, x, y, 2, 4);
  }

  /** One hexadecimal digit. */
  lemma XorDigit(a: nat, b: nat, x: nat, y: nat)
    requires x < 16 && y < 16
    ensures Xor(16 * a + x, 16 * b + y) == 16 * Xor(a, b) + Xor(x, y)
  {
    assert Pow2(4) == 16 by { assert Pow2(2) == 4; }
    XorCut(a, b, x, y, 4, 16);
  }
}
