/** The field of POLYVAL (section 3 of RFC 8452), GF(2^128) modulo x^128 + x^127 + x^126 + x^121 + 1. */
module Field {
  import opened Bits
  import opened Gf2

  function Modulus(): nat {
    Shl(1, 128) + Shl(1, 127) + Shl(1, 126) + Shl(1, 121) + 1
  }

  /** x^-128 */
  function InverseOfX128(): nat {
    Shl(1, 127) + Shl(1, 124) + Shl(1, 121) + Shl(1, 114) + 1
  }

  /** The powers in play as multiples of 2^114. */
  lemma Powers()
    ensures Pow2(114) > 1
    ensures Pow2(121) == 128 * Pow2(114) && Pow2(124) == 1024 * Pow2(114)
    ensures Pow2(126) == 4096 * Pow2(114) && Pow2(127) == 8192 * Pow2(114)
    ensures Pow2(128) == 16384 * Pow2(114) && Pow2(129) == 32768 * Pow2(114)
  {
    Pow2Mono(1, 114);
    assert Pow2(116) == 4 * Pow2(114);
    assert Pow2(118) == 16 * Pow2(114);
    assert Pow2(120) == 64 * Pow2(114);
    assert Pow2(122) == 256 * Pow2(114);
    assert Pow2(125) == 2048 * Pow2(114);
  }

  lemma Constants()
    ensures Modulus() == Pow2(128) + Pow2(127) + Pow2(126) + Pow2(121) + 1
    ensures InverseOfX128() == Pow2(127) + Pow2(124) + Pow2(121) + Pow2(114) + 1
  {
    hide Shl, Pow2;
    ShlOne(128);
    ShlOne(127);
    ShlOne(126);
    ShlOne(124);
    ShlOne(121);
    ShlOne(114);
  }

  lemma ModulusDegree()
    ensures Modulus() > 0 && Degree(Modulus()) == 128
  {
    hide *;
    Constants();
    Powers();
    DegreeUnique(Modulus(), 128);
  }

  /** Product of two field elements. */
  function Mul(x: nat, y: nat): nat {
    Rem(Clmul(x, y), Modulus())
  }

  /** dot(a, b) = a * b * x^-128 */
  function Dot(a: nat, b: nat): nat {
    Mul(Mul(a, b), InverseOfX128())
  }

  predicate Reduced(a: nat) {
    a < Pow2(128)
  }

  // ---- The loops of the implementation ----

  /** Shift-and-subtract reduction, for any modulus. */
  method ReduceLoop(a0: nat, m: nat) returns (a: nat)
    requires m > 0
    ensures a < Pow2(Degree(m))
    ensures a0 == Xor(Clmul(m, Quo(a0, m)), a)
    ensures a == Rem(a0, m)
  {
    hide Xor, Clmul, Rem, Quo, Degree;
    ghost var d := Degree(m);
    DegreeBounds(m);
    a := a0;
    var m2: nat, i: int := m, 0;
    while m2 < a
      invariant i >= 0 && m2 == Shl(m, i)
      invariant Pow2(d + i) <= m2 < Pow2(d + i + 1)
      decreases a - m2
    {
      m2, i := m2 * 2, i + 1;
    }
    ghost var q := 0;
    ClmulZero(m);
    Commutes(0, m);
    XorZero(a);
    while i >= 0
      invariant i >= -1
      invariant a < Pow2(d + i + 1)
      invariant i >= 0 ==> m2 == Shl(m, i) && Pow2(d + i) <= m2 < Pow2(d + i + 1)
      invariant a0 == Xor(Clmul(m, q), a)
    {
      var a2 := Xor(a, m2);
      if a < Pow2(d + i) {
        XorLead(m2, a, d + i);
        XorComm(a, m2);
      } else {
        XorTrail(a, m2, d + i);
      }
      if a2 < a {
        SubtractShifted(m, q, a, i);
        q := Xor(q, Shl(1, i));
        a := a2;
      }
      m2, i := m2 / 2, i - 1;
    }
    RemUnique(a0, m, q, a);
    Division(a0, m);
  }

  lemma SubtractShifted(m: nat, q: nat, a: nat, i: nat)
    ensures Xor(Clmul(m, Xor(q, Shl(1, i))), Xor(a, Shl(m, i))) == Xor(Clmul(m, q), a)
  {
    hide Xor, Clmul, Shl;
    DistributesRight(m, q, Shl(1, i));
    ClmulShl(m, 1, i);
    ClmulOne(m);
    XorSwap(Clmul(m, q), Shl(m, i), a, Shl(m, i));
    XorSelf(Shl(m, i));
    XorZero(Xor(Clmul(m, q), a));
  }

  /** Schoolbook product: bits of y above 127 are not looked at. */
  method MulLoop(x: nat, y: nat) returns (r: nat)
    ensures r == Mul(x, Low(y, 128))
    ensures Reduced(y) ==> r == Mul(x, y)
    ensures Reduced(r)
  {
    hide Xor, Clmul, Rem, Quo, Modulus, Degree;
    var res := 0;
    ClmulStep(x, 0);
    XorZero(0);
    ClmulEven(x, 0);
    for bit := 0 to 128
      invariant res == Clmul(x, Low(y, bit))
    {
      AddShifted(x, y, bit);
      if Shr(y, bit) % 2 == 1 {
        res := Xor(res, Shl(x, bit));
      }
    }
    ModulusDegree();
    Small(y, 128);
    r := ReduceLoop(res, Modulus());
  }

  lemma {:induction false} LowNext(y: nat, n: nat)
    ensures Low(y, n + 1) == Shl(Shr(y, n) % 2, n) + Low(y, n)
  {
    if n > 0 { LowNext(y / 2, n - 1); }
  }

  lemma AddShifted(x: nat, y: nat, n: nat)
    ensures Clmul(x, Low(y, n + 1)) ==
            if Shr(y, n) % 2 == 1 then Xor(Clmul(x, Low(y, n)), Shl(x, n)) else Clmul(x, Low(y, n))
  {
    hide Xor, Clmul, Low, Shr, Shl;
    LowNext(y, n);
    LowBound(y, n);
    if Shr(y, n) % 2 == 1 {
      XorDisjoint(1, Low(y, n), n);
      DistributesRight(x, Shl(1, n), Low(y, n));
      ClmulShl(x, 1, n);
      ClmulOne(x);
      XorComm(Shl(x, n), Clmul(x, Low(y, n)));
    } else {
      ShlZero(n);
    }
  }

  method DotLoop(a: nat, b: nat) returns (r: nat)
    ensures r == Dot(a, Low(b, 128))
    ensures Reduced(b) ==> r == Dot(a, b)
    ensures Reduced(r)
  {
    InverseReduced();
    hide Mul;
    var ab := MulLoop(a, b);
    r := MulLoop(ab, InverseOfX128());
  }

  lemma InverseReduced()
    ensures Reduced(InverseOfX128())
  {
    hide Pow2, InverseOfX128;
    Constants();
    Powers();
  }

  // ---- Field laws ----

  lemma MulReduced(x: nat, y: nat)
    ensures Reduced(Mul(x, y))
  {
    hide Rem, Clmul, Modulus, Degree;
    ModulusDegree();
    RemBound(Clmul(x, y), Modulus());
  }

  lemma MulCommutes(x: nat, y: nat)
    ensures Mul(x, y) == Mul(y, x)
  {
    hide Rem, Clmul, Modulus, Degree;
    ModulusDegree();
    Commutes(x, y);
  }

  lemma MulAssociates(x: nat, y: nat, z: nat)
    ensures Mul(Mul(x, y), z) == Mul(x, Mul(y, z))
  {
    hide Rem, Clmul, Modulus, Degree;
    ModulusDegree();
    var m := Modulus();
    RemMul(Clmul(x, y), z, m);
    Associates(x, y, z);
    RemMul(Clmul(y, z), x, m);
    Commutes(x, Clmul(y, z));
    Commutes(x, Rem(Clmul(y, z), m));
  }

  lemma MulDistributes(x: nat, y: nat, z: nat)
    ensures Mul(Xor(x, y), z) == Xor(Mul(x, z), Mul(y, z))
  {
    hide Rem, Clmul, Modulus, Degree, Xor;
    ModulusDegree();
    DistributesLeft(x, y, z);
    RemXor(Clmul(x, z), Clmul(y, z), Modulus());
  }

  lemma MulOne(x: nat)
    requires Reduced(x)
    ensures Mul(x, 1) == x
  {
    hide Rem, Clmul, Modulus, Degree;
    ModulusDegree();
    ClmulOne(x);
    RemSmall(x, Modulus());
  }

  /** Both constants in terms of t = x^121 (1 + x^5 + x^6). */
  lemma ConstantsFactored()
    ensures Modulus() == Xor(Shl(1, 128), Xor(Shl(97, 121), 1))
    ensures InverseOfX128() == Xor(Shl(9345, 114), 1)
  {
    hide *;
    Constants();
    Powers();
    ShlMul(97, 121);
    ShlMul(9345, 114);
    ShlOne(128);
    XorDisjoint(97, 1, 121);
    XorDisjoint(1, Shl(97, 121) + 1, 128);
    XorDisjoint(9345, 1, 114);
  }

  /** (1 + t)^2 = 1 + t^2 */
  lemma SquareOfOnePlus(t: nat)
    ensures Clmul(Xor(t, 1), Xor(t, 1)) == Xor(Clmul(t, t), 1)
  {
    hide Xor, Clmul;
    DistributesLeft(t, 1, Xor(t, 1));
    DistributesRight(t, t, 1);
    ClmulOne(t);
    ClmulOne(Xor(t, 1));
    XorAssoc(Clmul(t, t), t, Xor(t, 1));
    XorAssoc(t, t, 1);
    XorSelf(t);
    XorZero(1);
  }

  lemma XorOf97And40()
    ensures Xor(97, 40) == 73
  {
    hide Xor;
    XorHalves(97, 40);
    XorHalves(48, 20);
    XorHalves(24, 10);
    XorHalves(12, 5);
    XorHalves(6, 2);
    XorHalves(3, 1);
    XorZero(1);
  }

  /** u^2 = 1 + x^10 + x^12 and u x^7 + u^2 = 1 + x^7 + x^10 + x^13, for u = 1 + x^5 + x^6. */
  lemma SmallProducts()
    ensures Clmul(97, 97) == 5121 && Xor(12416, 5121) == 9345 && Shl(97, 7) == 12416
  {
    hide Xor, Clmul;
    XorDisjoint(1, 1, 1);
    ClmulShl(2, 1, 1);
    ClmulOne(2);
    SquareOfOnePlus(2);
    XorDisjoint(1, 1, 2);
    assert Clmul(3, 3) == 5;
    ClmulShl(96, 3, 5);
    Commutes(96, 3);
    ClmulShl(3, 3, 5);
    XorDisjoint(3, 1, 5);
    SquareOfOnePlus(96);
    XorDisjoint(5, 1, 10);
    XorOf97And40();
    XorShl(97, 40, 7);
    XorDisjoint(40, 1, 7);
    XorAssoc(12416, 5120, 1);
    XorDisjoint(73, 1, 7);
  }

  lemma ModulusMultiple()
    ensures Clmul(Modulus(), Xor(Shl(97, 121), 1)) == Xor(Shl(9345, 242), Xor(Shl(1, 128), 1))
  {
    ConstantsFactored();
    SmallProducts();
    hide *;
    var t := Shl(97, 121);
    var q := Xor(t, 1);
    var s := Shl(1, 128);
    DistributesLeft(s, q, q);
    SquareOfOnePlus(t);
    // s * q = x^128 + x^128 t
    Commutes(s, q);
    ClmulShl(q, 1, 128);
    ClmulOne(q);
    XorShl(t, 1, 128);
    ShlShl(97, 121, 128);
    ShlShl(97, 7, 242);
    // t^2
    ClmulShl(t, 97, 121);
    Commutes(t, 97);
    ClmulShl(97, 97, 121);
    ShlShl(5121, 121, 121);
    XorSwap(Shl(12416, 242), s, Shl(5121, 242), 1);
    XorShl(12416, 5121, 242);
  }

  /** INV is the inverse of x^128. */
  lemma InverseIsInverse()
    ensures Mul(InverseOfX128(), Pow2(128)) == 1
  {
    hide Xor, Clmul, Shl, Modulus, InverseOfX128, Rem, Degree, Pow2;
    ConstantsFactored();
    ModulusMultiple();
    ModulusDegree();
    ShlOne(128);
    Powers();
    var s := Shl(1, 128);
    ClmulShl(InverseOfX128(), 1, 128);
    ClmulOne(InverseOfX128());
    XorShl(Shl(9345, 114), 1, 128);
    ShlShl(9345, 114, 128);
    XorAssoc(Shl(9345, 242), Xor(s, 1), 1);
    XorCancel(s, 1);
    RemUnique(Shl(InverseOfX128(), 128), Modulus(), Xor(Shl(97, 121), 1), 1);
  }

  // ---- Laws of dot ----

  /** dot(a, b) is the one reduced d with d * x^128 = a * b. */
  lemma DotIsDivision(a: nat, b: nat, d: nat)
    requires Reduced(d)
    ensures d == Dot(a, b) <==> Mul(d, Pow2(128)) == Mul(a, b)
  {
    hide Mul, Pow2, InverseOfX128;
    var inv, x128, ab := InverseOfX128(), Pow2(128), Mul(a, b);
    InverseIsInverse();
    MulAssociates(ab, inv, x128);
    MulReduced(a, b);
    MulOne(ab);
    MulAssociates(d, x128, inv);
    MulCommutes(x128, inv);
    MulOne(d);
  }

  lemma DotReduced(a: nat, b: nat)
    ensures Reduced(Dot(a, b))
  {
    hide Mul;
    MulReduced(Mul(a, b), InverseOfX128());
  }

  lemma DotCommutes(a: nat, b: nat)
    ensures Dot(a, b) == Dot(b, a)
  {
    hide Mul;
    MulCommutes(a, b);
  }

  lemma DotAssociates(a: nat, b: nat, c: nat)
    ensures Dot(Dot(a, b), c) == Dot(a, Dot(b, c))
  {
    hide Mul, InverseOfX128;
    var inv := InverseOfX128();
    MulAssociates(Mul(a, b), inv, c);
    MulCommutes(inv, c);
    MulAssociates(Mul(a, b), c, inv);
    MulAssociates(a, b, c);
    MulAssociates(a, Mul(b, c), inv);
  }

  lemma DotDistributes(a: nat, b: nat, c: nat)
    ensures Dot(Xor(a, b), c) == Xor(Dot(a, c), Dot(b, c))
  {
    hide Mul, Xor;
    MulDistributes(a, b, c);
    MulDistributes(Mul(a, c), Mul(b, c), InverseOfX128());
  }

  // ---- Powers of x under dot ----

  /** dot with x^(128 + n) shifts by n. */
  lemma DotByPower(a: nat, n: nat)
    ensures Dot(a, Rem(Pow2(128 + n), Modulus())) == Rem(Shl(a, n), Modulus())
  {
    hide Clmul, Rem, Modulus, Dot, Pow2, Shl, Degree;
    ModulusDegree();
    var m, b := Modulus(), Rem(Pow2(128 + n), Modulus());
    var d := Rem(Shl(a, n), m);
    RemBound(Shl(a, n), m);
    DotIsDivision(a, b, d);
    RemMul(Shl(a, n), Pow2(128), m);
    Commutes(a, b);
    RemMul(Pow2(128 + n), a, m);
    Commutes(Pow2(128 + n), a);
    ClmulPower(Shl(a, n), 128);
    ClmulPower(a, 128 + n);
    ShlShl(a, n, 128);
  }

  lemma ClmulPower(a: nat, n: nat)
    ensures Clmul(a, Pow2(n)) == Shl(a, n)
  {
    hide Clmul, Shl, Pow2;
    ShlOne(n);
    ClmulShl(a, 1, n);
    ClmulOne(a);
  }

  /** x^129, reduced. */
  function X129(): nat {
    35 * Pow2(121) + 3
  }

  lemma X129IsPower()
    ensures Rem(Pow2(129), Modulus()) == X129() && Reduced(X129())
  {
    hide Xor, Clmul, Rem, Degree, Pow2, Shl, Modulus;
    Constants();
    Powers();
    ModulusDegree();
    var p, m := Pow2(121), Modulus();
    assert m == 225 * p + 1 && Pow2(129) == 256 * p;
    Pow2Mono(2, 121);
    ClmulThree(m);
    XorCut(225, 450, 1, 2, 121, p);
    XorCut(291, 35, 3, 3, 121, p);
    SmallXors();
    RemUnique(Pow2(129), m, 3, X129());
  }

  lemma ClmulThree(m: nat)
    ensures Clmul(m, 3) == Xor(m, 2 * m)
  {
    hide Xor, Clmul;
    ClmulPower(m, 1);
    ClmulOne(m);
    assert Pow2(0) == 1 && Shl(m, 0) == m;
    assert Xor(1, 2) == 3 by { TwoBits(); }
    DistributesRight(m, 1, 2);
  }

  lemma SmallXors()
    ensures Xor(225, 450) == 291 && Xor(291, 35) == 256 && Xor(1, 2) == 3 && Xor(3, 3) == 0
  {
    hide Xor;
    TwoBits();
    XorDigit(14, 28, 1, 2);
    XorDigit(0, 1, 14, 12);
    XorHalf(3, 3, 2, 0);
    XorDigit(18, 2, 3, 3);
    XorDigit(1, 0, 2, 2);
    XorSelf(2);
    XorSelf(3);
  }

  /** dot with x^129 doubles what does not overflow. */
  lemma DotDoubles(a: nat)
    requires a < Pow2(127)
    ensures Dot(a, X129()) == 2 * a
  {
    hide Rem, Modulus, Dot, Degree, Pow2;
    ModulusDegree();
    X129IsPower();
    DotByPower(a, 1);
    assert Shl(a, 1) == 2 * a by { assert Shl(a, 0) == a; }
    Powers();
    RemSmall(2 * a, Modulus());
  }
}
