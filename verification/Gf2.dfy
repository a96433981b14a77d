/** Polynomials over GF(2), coefficient i in bit i: carry-less products and remainders. */
module Gf2 {
  import opened Bits

  /** Carry-less product. */
  function Clmul(a: nat, b: nat): nat
    decreases b
  {
    if b == 0 then 0 else Xor(if b % 2 == 1 then a else 0, 2 * Clmul(a, b / 2))
  }

  lemma XorDouble(a: nat, b: nat)
    ensures Xor(2 * a, 2 * b) == 2 * Xor(a, b)
  {
    hide Xor;
    XorHalves(2 * a, 2 * b);
  }

  lemma ClmulStep(a: nat, b: nat)
    ensures Clmul(a, b) == Xor(if b % 2 == 1 then a else 0, 2 * Clmul(a, b / 2))
  {
    XorZero(0);
  }

  lemma {:induction false} ClmulZero(b: nat)
    ensures Clmul(0, b) == 0
  {
    if b > 0 {
      ClmulZero(b / 2);
      XorZero(0);
    }
  }

  lemma {:induction false} ClmulOne(b: nat)
    ensures Clmul(b, 1) == b && Clmul(1, b) == b
  {
    hide Xor;
    XorZero(b);
    if b > 0 {
      ClmulOne(b / 2);
      assert Shl(b / 2, 1) == 2 * (b / 2);
      XorDisjoint(b / 2, b % 2, 1);
      XorComm(b % 2, 2 * (b / 2));
    }
  }

  lemma ClmulEven(a: nat, b: nat)
    ensures Clmul(a, 2 * b) == 2 * Clmul(a, b)
  {
    hide Xor;
    ClmulStep(a, 2 * b);
    XorZero(2 * Clmul(a, b));
  }

  lemma {:induction false} ClmulShl(a: nat, b: nat, n: nat)
    ensures Clmul(a, Shl(b, n)) == Shl(Clmul(a, b), n)
  {
    hide Clmul;
    if n > 0 {
      ClmulShl(a, b, n - 1);
      ClmulEven(a, Shl(b, n - 1));
    }
  }

  lemma {:induction false} DistributesRight(a: nat, b: nat, c: nat)
    ensures Clmul(a, Xor(b, c)) == Xor(Clmul(a, b), Clmul(a, c))
    decreases b + c
  {
    if b + c > 0 {
      DistributesRight(a, b / 2, c / 2);
      hide Clmul, Xor;
      XorHalves(b, c);
      ClmulStep(a, b);
      ClmulStep(a, c);
      ClmulStep(a, Xor(b, c));
      var b0, c0 := if b % 2 == 1 then a else 0, if c % 2 == 1 then a else 0;
      XorSwap(b0, 2 * Clmul(a, b / 2), c0, 2 * Clmul(a, c / 2));
      XorDouble(Clmul(a, b / 2), Clmul(a, c / 2));
      XorZero(a);
      XorSelf(a);
      XorSelf(0);
    } else {
      XorZero(0);
    }
  }

  lemma {:induction false} DistributesLeft(a: nat, b: nat, c: nat)
    ensures Clmul(Xor(a, b), c) == Xor(Clmul(a, c), Clmul(b, c))
    decreases c
  {
    hide Xor;
    XorZero(0);
    if c > 0 {
      DistributesLeft(a, b, c / 2);
      hide Clmul;
      ClmulStep(a, c);
      ClmulStep(b, c);
      ClmulStep(Xor(a, b), c);
      var odd := c % 2 == 1;
      XorSwap(if odd then a else 0, 2 * Clmul(a, c / 2), if odd then b else 0, 2 * Clmul(b, c / 2));
      XorDouble(Clmul(a, c / 2), Clmul(b, c / 2));
    }
  }

  lemma {:induction false} ClmulDouble(a: nat, b: nat)
    ensures Clmul(2 * a, b) == 2 * Clmul(a, b)
    decreases b
  {
    hide Xor;
    if b > 0 {
      ClmulDouble(a, b / 2);
      XorDouble(if b % 2 == 1 then a else 0, 2 * Clmul(a, b / 2));
    }
  }

  lemma {:induction false} Commutes(a: nat, b: nat)
    ensures Clmul(a, b) == Clmul(b, a)
    decreases b
  {
    hide Xor;
    ClmulZero(a);
    if b > 0 {
      Commutes(a, b / 2);
      ClmulStep(a, b);
      hide Clmul;
      assert Shl(b / 2, 1) == 2 * (b / 2);
      XorDisjoint(b / 2, b % 2, 1);
      XorComm(b % 2, 2 * (b / 2));
      DistributesLeft(b % 2, 2 * (b / 2), a);
      ClmulDouble(b / 2, a);
      ClmulOne(a);
    }
  }

  lemma {:induction false} Associates(a: nat, b: nat, c: nat)
    ensures Clmul(Clmul(a, b), c) == Clmul(a, Clmul(b, c))
    decreases c
  {
    if c > 0 {
      Associates(a, b, c / 2);
      hide Xor, Clmul;
      ClmulStep(Clmul(a, b), c);
      ClmulStep(b, c);
      DistributesRight(a, if c % 2 == 1 then b else 0, 2 * Clmul(b, c / 2));
      ClmulEven(a, Clmul(b, c / 2));
      ClmulZero(a);
      Commutes(a, 0);
    }
  }

  /** Position of the leading coefficient. */
  function Degree(a: nat): nat
    requires a > 0
  {
    if a == 1 then 0 else 1 + Degree(a / 2)
  }

  lemma {:induction false} DegreeBounds(a: nat)
    requires a > 0
    ensures Pow2(Degree(a)) <= a < Pow2(Degree(a) + 1)
  {
    if a > 1 { DegreeBounds(a / 2); }
  }

  lemma {:induction false} DegreeUnique(a: nat, d: nat)
    requires Pow2(d) <= a < Pow2(d + 1)
    ensures Degree(a) == d
  {
    if d > 0 { DegreeUnique(a / 2, d - 1); }
  }

  /** Degrees add, so there are no zero divisors. */
  lemma {:induction false} DegreeOfProduct(a: nat, b: nat)
    requires a > 0 && b > 0
    ensures Pow2(Degree(a) + Degree(b)) <= Clmul(a, b) < Pow2(Degree(a) + Degree(b) + 1)
    decreases b
  {
    hide Xor, Clmul;
    DegreeBounds(a);
    if b == 1 {
      ClmulOne(a);
    } else {
      DegreeOfProduct(a, b / 2);
      ClmulStep(a, b);
      var n := Degree(a) + Degree(b);
      var x, y := if b % 2 == 1 then a else 0, 2 * Clmul(a, b / 2);
      Pow2Mono(Degree(a) + 1, n);
      XorLead(y, x, n);
      XorComm(x, y);
    }
  }

  // ---- Remainders ----

  /** Horner's rule: read a from its leading bit, subtracting m whenever the degree is reached. */
  function Rem(a: nat, m: nat): (r: nat)
    requires m > 0
    decreases a
  {
    if a == 0 then 0 else
    var t := 2 * Rem(a / 2, m) + a % 2;
    if t < Pow2(Degree(m)) then t else Xor(t, m)
  }

  function Quo(a: nat, m: nat): nat
    requires m > 0
    decreases a
  {
    if a == 0 then 0 else
    var t := 2 * Rem(a / 2, m) + a % 2;
    2 * Quo(a / 2, m) + if t < Pow2(Degree(m)) then 0 else 1
  }

  lemma {:induction false} RemBound(a: nat, m: nat)
    requires m > 0
    ensures Rem(a, m) < Pow2(Degree(m))
    decreases a
  {
    hide Xor;
    if a > 0 {
      RemBound(a / 2, m);
      DegreeBounds(m);
      var t := 2 * Rem(a / 2, m) + a % 2;
      if t >= Pow2(Degree(m)) { XorTrail(t, m, Degree(m)); }
    }
  }

  /** Division with remainder. */
  lemma {:induction false} Division(a: nat, m: nat)
    requires m > 0
    ensures a == Xor(Clmul(m, Quo(a, m)), Rem(a, m))
    decreases a
  {
    hide Xor, Clmul;
    if a == 0 {
      ClmulStep(m, 0);
      ClmulEven(m, 0);
      XorZero(0);
    } else {
      Division(a / 2, m);
      var q, r := Quo(a / 2, m), Rem(a / 2, m);
      var t := 2 * r + a % 2;
      DivisionStep(a, Clmul(m, q), r);
      ClmulStep(m, Quo(a, m));
      XorZero(2 * Clmul(m, q));
      if t >= Pow2(Degree(m)) {
        XorComm(m, 2 * Clmul(m, q));
        XorAssoc(2 * Clmul(m, q), m, Xor(t, m));
        XorComm(m, Xor(t, m));
        XorCancel(t, m);
      }
    }
  }

  lemma DivisionStep(a: nat, p: nat, r: nat)
    requires a / 2 == Xor(p, r)
    ensures a == Xor(2 * p, 2 * r + a % 2)
  {
    hide Xor;
    XorHalves(2 * p, 2 * r + a % 2);
  }

  lemma {:induction false} SmallMultiple(q: nat, m: nat)
    requires m > 0 && Clmul(m, q) < Pow2(Degree(m))
    ensures q == 0
  {
    hide Clmul;
    if q > 0 {
      DegreeOfProduct(m, q);
      Pow2Mono(Degree(m), Degree(m) + Degree(q));
    }
  }

  /** Only one residue below the degree of m is congruent to a. */
  lemma RemUnique(a: nat, m: nat, q: nat, r: nat)
    requires m > 0 && a == Xor(Clmul(m, q), r) && r < Pow2(Degree(m))
    ensures Rem(a, m) == r
  {
    hide Xor, Clmul, Rem, Quo;
    var q', r' := Quo(a, m), Rem(a, m);
    Division(a, m);
    RemBound(a, m);
    XorSwap(Clmul(m, q), r, Clmul(m, q'), r');
    XorSelf(a);
    DistributesRight(m, q, q');
    XorEqualZero(Clmul(m, Xor(q, q')), Xor(r, r'));
    XorBound(r, r', Degree(m));
    SmallMultiple(Xor(q, q'), m);
    XorEqualZero(q, q');
    XorSelf(Clmul(m, q));
    XorComm(Xor(r, r'), 0);
    XorZero(Xor(r, r'));
    XorEqualZero(r, r');
  }

  lemma RemSmall(a: nat, m: nat)
    requires m > 0 && a < Pow2(Degree(m))
    ensures Rem(a, m) == a
  {
    hide Xor, Rem;
    XorZero(a);
    RemUnique(a, m, 0, a);
  }

  lemma RemXor(a: nat, b: nat, m: nat)
    requires m > 0
    ensures Rem(Xor(a, b), m) == Xor(Rem(a, m), Rem(b, m))
  {
    hide Xor, Clmul, Rem, Quo;
    Division(a, m);
    Division(b, m);
    var qa, ra, qb, rb := Quo(a, m), Rem(a, m), Quo(b, m), Rem(b, m);
    XorSwap(Clmul(m, qa), ra, Clmul(m, qb), rb);
    DistributesRight(m, qa, qb);
    RemBound(a, m);
    RemBound(b, m);
    XorBound(ra, rb, Degree(m));
    RemUnique(Xor(a, b), m, Xor(qa, qb), Xor(ra, rb));
  }

  /** A factor may be reduced first. */
  lemma RemMul(a: nat, b: nat, m: nat)
    requires m > 0
    ensures Rem(Clmul(a, b), m) == Rem(Clmul(Rem(a, m), b), m)
  {
    hide Xor, Clmul, Rem, Quo;
    var q, r := Quo(a, m), Rem(a, m);
    Division(a, m);
    DistributesLeft(Clmul(m, q), r, b);
    Associates(m, q, b);
    var p := Clmul(q, b);
    RemXor(Clmul(m, p), Clmul(r, b), m);
    XorZero(Clmul(m, p));
    RemUnique(Clmul(m, p), m, p, 0);
    XorZero(Rem(Clmul(r, b), m));
  }
}
