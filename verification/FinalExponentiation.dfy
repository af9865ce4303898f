/**
 The final exponentiation.  A non-zero element of the degree-12 extension field is represented by
 its discrete logarithm modulo p^12 - 1, so that products add, Frobenius multiplies by p, and
 conjugation multiplies by p^6.
 */
module FinalExponentiation {
  import opened Modular

  /** The two BN polynomials: field characteristic and group order. */
  function P(u: int): int { 36 * u * u * u * u + 36 * u * u * u + 24 * u * u + 6 * u + 1 }
  function Order(u: int): int { 36 * u * u * u * u + 36 * u * u * u + 18 * u * u + 6 * u + 1 }

  /** The curve parameter in the source. */
  const U := 4965661367192848881

  /** It makes the field characteristic of BN254, and the order that the prover checks keys against. */
  lemma CurveConstants()
    ensures P(U) == 21888242871839275222246405745257275088696311157297823662689037894645226208583
    ensures Order(U) == 21888242871839275222246405745257275088548364400416034343698204186575808495617
  {
  }

  /** p^6 and p^12 - 1, the order of the multiplicative group. */
  function P6(u: int): int { Pow(P(u), 6) }
  function GroupSize(u: int): int { P6(u) * P6(u) - 1 }

  /** The exponent of the easy part, (p^6 - 1)(p^2 + 1). */
  function Easy(u: int): int { (P6(u) - 1) * (P(u) * P(u) + 1) }

  /** The exponent that the addition chain builds from y0 .. y6. */
  function Hard(p: int, u: int): int
  {
    p + p * p + p * p * p - 2 + 6 * (u * u * p * p) - 12 * (u * p) - 18 * (u + u * u * p)
    - 30 * (u * u) - 36 * (u * u * u + u * u * u * p)
  }

  /**
   The hard part is exact: the chain's exponent times the group order is p^4 - p^2 + 1, for every
   value of the curve parameter.
   */
  lemma HardTimesOrder(u: int)
    ensures var p := P(u); Hard(p, u) * Order(u) == p * p * p * p - p * p + 1
  {
  }

  lemma P6Expand(u: int)
    ensures var c := P(u) * P(u); P6(u) == c * c * c
  {
    var p := P(u);
    assert Pow(p, 1) == p * Pow(p, 0) && Pow(p, 2) == p * Pow(p, 1) == p * p;
    PowAdd(p, 2, 2);
    PowAdd(p, 4, 2);
  }

  lemma SumOfCubes(c: int)
    ensures c * c * c + 1 == (c + 1) * (c * c - c + 1)
  {
  }

  lemma SquareMinusOne(x: int)
    ensures x * x - 1 == (x - 1) * (x + 1)
  {
  }

  lemma FactorGroupSize(x: int, c: int, e: int, r: int)
    requires x == c * c * c && e * r == c * c - c + 1
    ensures ((x - 1) * (c + 1)) * e * r == x * x - 1
  {
    SumOfCubes(c);
    SquareMinusOne(x);
    Assoc(x - 1, c + 1, e, r);
  }

  /** (p^6 - 1)(p^2 + 1) · E · r = p^12 - 1. */
  lemma EasyHardOrder(u: int)
    ensures Easy(u) * Hard(P(u), u) * Order(u) == GroupSize(u)
  {
    hide P, Hard, Order, P6;
    var p := P(u);
    P6Expand(u);
    HardTimesOrder(u);
    assert p * p * p * p == (p * p) * (p * p);
    FactorGroupSize(P6(u), p * p, Hard(p, u), Order(u));
  }

  lemma Assoc(a: int, b: int, e: int, r: int)
    ensures (a * b) * e * r == a * (b * (e * r))
  {
    var ab := a * b;
    assert ab * e * r == ab * (e * r);
    var er := e * r;
    assert (a * b) * er == a * (b * er);
  }

  lemma GroupSizePositive(u: int)
    requires u > 0
    ensures P(u) > 1 && Order(u) > 1 && GroupSize(u) > 0
  {
    var p := P(u);
    assert u * u > 0 && u * u * u > 0 && u * u * u * u > 0;
    PowGrows(p, 6);
    assert P6(u) * P6(u) > 1;
  }

  lemma {:induction false} PowGrows(x: int, k: nat)
    requires x > 1
    ensures Pow(x, k) > 0 && (k > 0 ==> Pow(x, k) > 1)
  {
    if k == 0 {
    } else {
      PowGrows(x, k - 1);
      assert x * Pow(x, k - 1) >= 2 * Pow(x, k - 1);
    }
  }

  /** Elements after the easy part: multiples of its exponent. */
  ghost predicate Cyclotomic(u: int, base: int, x: int, e: int)
    requires GroupSize(u) > 0
  {
    Cong(GroupSize(u), x, Easy(u) * base * e)
  }

  /** After the easy part conjugation inverts. */
  lemma ConjugateInverts(u: int, base: int, x: int, e: int)
    requires GroupSize(u) > 0 && Cyclotomic(u, base, x, e)
    ensures Cyclotomic(u, base, (x * P6(u)) % GroupSize(u), -e)
  {
    var m, x6, k := GroupSize(u), P6(u), P(u) * P(u) + 1;
    var z := base * e;
    assert Easy(u) * base * e == Easy(u) * z && Easy(u) * base * -e == -(Easy(u) * z) by {
      assert Easy(u) * base * e == Easy(u) * (base * e);
      assert Easy(u) * base * -e == -(Easy(u) * base * e);
    }
    CongMul(m, x, Easy(u) * z, x6, x6);
    CongMod(m, x * x6);
    SquareMinusOne(x6);
    assert (Easy(u) * z) * x6 == -(Easy(u) * z) + m * (k * z) by {
      var a := x6 - 1;
      assert Easy(u) == a * k && m == a * (x6 + 1);
      var az := a * (k * z);
      assert (a * k * z) == az;
      assert m * (k * z) == az * (x6 + 1);
    }
    CongIntro(m, (Easy(u) * z) * x6, -(Easy(u) * z), k * z);
  }

  lemma Times(u: int, base: int, x: int, e: int, c: int)
    requires GroupSize(u) > 0 && Cyclotomic(u, base, x, e)
    ensures Cyclotomic(u, base, (x * c) % GroupSize(u), e * c)
  {
    CongMul(GroupSize(u), x, Easy(u) * base * e, c, c);
    CongMod(GroupSize(u), x * c);
    var b := Easy(u) * base;
    assert (b * e) * c == b * (e * c);
  }

  lemma Plus(u: int, base: int, x: int, e: int, y: int, e': int)
    requires GroupSize(u) > 0 && Cyclotomic(u, base, x, e) && Cyclotomic(u, base, y, e')
    ensures Cyclotomic(u, base, (x + y) % GroupSize(u), e + e')
  {
    CongAdd(GroupSize(u), x, Easy(u) * base * e, y, Easy(u) * base * e');
    CongMod(GroupSize(u), x + y);
    var b := Easy(u) * base;
    assert b * e + b * e' == b * (e + e');
  }

  /** Field operations on logarithms. */
  class F12 {
    const u: int

    constructor (u: int)
      requires u > 0
      ensures this.u == u
    {
      this.u := u;
    }

    ghost predicate Valid() { u > 0 && GroupSize(u) > 0 && P(u) > 1 && Order(u) > 1 }

    method Mul(x: int, y: int, ghost base: int, ghost e: int, ghost e': int) returns (z: int)
      requires Valid() && Cyclotomic(u, base, x, e) && Cyclotomic(u, base, y, e')
      ensures Cyclotomic(u, base, z, e + e')
    {
      Plus(u, base, x, e, y, e');
      z := (x + y) % GroupSize(u);
    }

    method Square(x: int, ghost base: int, ghost e: int) returns (z: int)
      requires Valid() && Cyclotomic(u, base, x, e)
      ensures Cyclotomic(u, base, z, 2 * e)
    {
      z := Mul(x, x, base, e, e);
    }

    method Frobenius(x: int, ghost base: int, ghost e: int) returns (z: int)
      requires Valid() && Cyclotomic(u, base, x, e)
      ensures Cyclotomic(u, base, z, e * P(u))
    {
      Times(u, base, x, e, P(u));
      z := (x * P(u)) % GroupSize(u);
    }

    method FrobeniusP2(x: int, ghost base: int, ghost e: int) returns (z: int)
      requires Valid() && Cyclotomic(u, base, x, e)
      ensures Cyclotomic(u, base, z, e * (P(u) * P(u)))
    {
      Times(u, base, x, e, P(u) * P(u));
      z := (x * (P(u) * P(u))) % GroupSize(u);
    }

    method Exp(x: int, ghost base: int, ghost e: int) returns (z: int)
      requires Valid() && Cyclotomic(u, base, x, e)
      ensures Cyclotomic(u, base, z, e * u)
    {
      Times(u, base, x, e, u);
      z := (x * u) % GroupSize(u);
    }

    method Conjugate(x: int, ghost base: int, ghost e: int) returns (z: int)
      requires Valid() && Cyclotomic(u, base, x, e)
      ensures Cyclotomic(u, base, z, -e)
    {
      ConjugateInverts(u, base, x, e);
      z := (x * P6(u)) % GroupSize(u);
    }

    /** in^((p^6 - 1)(p^2 + 1)): conjugate over in, then times its p²-Frobenius. */
    method EasyPart(x: int) returns (t1: int)
      requires Valid()
      ensures Cyclotomic(u, x, t1, 1)
    {
      var m := GroupSize(u);
      t1 := (x * P6(u)) % m;
      var inv := (-x) % m;
      t1 := (t1 + inv) % m;
      ghost var e := x * (P6(u) - 1);
      assert Cong(m, t1, e) by {
        CongMod(m, x * P6(u));
        CongMod(m, -x);
        CongAdd(m, (x * P6(u)) % m, x * P6(u), inv, -x);
        CongMod(m, (x * P6(u)) % m + inv);
        assert x * P6(u) + -x == e;
      }
      var t2 := (t1 * (P(u) * P(u))) % m;
      CongMul(m, t1, e, P(u) * P(u), P(u) * P(u));
      CongMod(m, t1 * (P(u) * P(u)));
      CongAdd(m, t1, e, t2, e * (P(u) * P(u)));
      CongMod(m, t1 + t2);
      t1 := (t1 + t2) % m;
      EasyShape(x, P6(u) - 1, P(u) * P(u));
    }

    lemma EasyShape(x: int, a: int, c: int)
      ensures x * a + (x * a) * c == (a * (c + 1)) * x * 1
    {
      var y := x * a;
      assert y + y * c == y * (c + 1);
      assert (a * (c + 1)) * x == (x * a) * (c + 1);
    }

    /** The addition chain of the hard part. */
    method FinalExponentiation(x: int) returns (t0: int)
      requires Valid()
      ensures Cyclotomic(u, x, t0, Hard(P(u), u))
    {
      hide Cyclotomic, P;
      ghost var p := P(u);
      var t1 := EasyPart(x);
      var fp := Frobenius(t1, x, 1);
      var fp2 := FrobeniusP2(t1, x, 1);
      var fp3 := Frobenius(fp2, x, 1 * (p * p));
      var fu := Exp(t1, x, 1);
      var fu2 := Exp(fu, x, 1 * u);
      var fu3 := Exp(fu2, x, 1 * u * u);
      var y3 := Frobenius(fu, x, 1 * u);
      var fu2p := Frobenius(fu2, x, 1 * u * u);
      var fu3p := Frobenius(fu3, x, 1 * u * u * u);
      var y2 := FrobeniusP2(fu2, x, 1 * u * u);
      var y0 := Mul(fp, fp2, x, 1 * p, 1 * (p * p));
      y0 := Mul(y0, fp3, x, 1 * p + 1 * (p * p), 1 * (p * p) * p);
      var y1 := Conjugate(t1, x, 1);
      var y5 := Conjugate(fu2, x, 1 * u * u);
      y3 := Conjugate(y3, x, 1 * u * p);
      var y4 := Mul(fu, fu2p, x, 1 * u, 1 * u * u * p);
      y4 := Conjugate(y4, x, 1 * u + 1 * u * u * p);
      var y6 := Mul(fu3, fu3p, x, 1 * u * u * u, 1 * u * u * u * p);
      y6 := Conjugate(y6, x, 1 * u * u * u + 1 * u * u * u * p);
      ghost var e0, e1, e2, e3, e4, e5, e6 :=
        1 * p + 1 * (p * p) + 1 * (p * p) * p, -1, 1 * u * u * (p * p), -(1 * u * p),
        -(1 * u + 1 * u * u * p), -(1 * u * u), -(1 * u * u * u + 1 * u * u * u * p);
      t0 := Chain(x, y0, y1, y2, y3, y4, y5, y6, e0, e1, e2, e3, e4, e5, e6);
      HardShape(p);
    }

    lemma HardShape(p: int)
      ensures (1 * p + 1 * (p * p) + 1 * (p * p) * p) + 2 * -1 + 6 * (1 * u * u * (p * p)) + 12 * -(1 * u * p)
        + 18 * -(1 * u + 1 * u * u * p) + 30 * -(1 * u * u) + 36 * -(1 * u * u * u + 1 * u * u * u * p) == Hard(p, u)
    {
      assert u * u * (p * p) == u * u * p * p;
    }

    /** y0·y1²·y2^6·y3^12·y4^18·y5^30·y6^36 with four squarings and nine products. */
    method Chain(x: int, y0: int, y1: int, y2: int, y3: int, y4: int, y5: int, y6: int,
                 ghost e0: int, ghost e1: int, ghost e2: int, ghost e3: int, ghost e4: int, ghost e5: int,
                 ghost e6: int)
      returns (t0: int)
      requires Valid()
      requires Cyclotomic(u, x, y0, e0) && Cyclotomic(u, x, y1, e1) && Cyclotomic(u, x, y2, e2)
        && Cyclotomic(u, x, y3, e3)
      requires Cyclotomic(u, x, y4, e4) && Cyclotomic(u, x, y5, e5) && Cyclotomic(u, x, y6, e6)
      ensures Cyclotomic(u, x, t0, e0 + 2 * e1 + 6 * e2 + 12 * e3 + 18 * e4 + 30 * e5 + 36 * e6)
    {
      hide Cyclotomic;
      t0 := Square(y6, x, e6);
      t0 := Mul(t0, y4, x, 2 * e6, e4);
      ghost var s := 2 * e6 + e4;
      t0 := Mul(t0, y5, x, s, e5);
      s := s + e5;
      var t1 := Mul(y3, y5, x, e3, e5);
      t1 := Mul(t1, t0, x, e3 + e5, s);
      ghost var r := e3 + e5 + s;
      t0 := Mul(t0, y2, x, s, e2);
      s := s + e2;
      t1 := Square(t1, x, r);
      t1 := Mul(t1, t0, x, 2 * r, s);
      r := 2 * r + s;
      t1 := Square(t1, x, r);
      r := 2 * r;
      t0 := Mul(t1, y1, x, r, e1);
      t1 := Mul(t1, y0, x, r, e0);
      t0 := Square(t0, x, r + e1);
      t0 := Mul(t0, t1, x, 2 * (r + e1), r + e0);
    }
  }

  /**
   The result is one exactly for the elements whose logarithm is a multiple of the group order:
   the final exponentiation kills nothing else.
   */
  lemma OneIffOrderDivides(u: int, x: int, t: int)
    requires u > 0 && GroupSize(u) > 0 && Order(u) > 0 && Cyclotomic(u, x, t, Hard(P(u), u))
    ensures Cong(GroupSize(u), t, 0) <==> Cong(Order(u), x, 0)
  {
    var m, r, h := GroupSize(u), Order(u), Easy(u) * Hard(P(u), u);
    EasyHardOrder(u);
    assert m == h * r;
    assert Easy(u) * x * Hard(P(u), u) == h * x by {
      var a, b := Easy(u), Hard(P(u), u);
      assert a * x * b == (a * b) * x;
    }
    if Cong(r, x, 0) {
      var k := CongElim(r, x, 0);
      assert h * x == m * k by { assert h * (r * k) == (h * r) * k; }
      CongIntro(m, h * x, 0, k);
    }
    if Cong(m, t, 0) {
      assert Cong(m, h * x, 0);
      var k := CongElim(m, h * x, 0);
      CancelLeft(h, x, r, k);
      CongIntro(r, x, 0, k);
    }
  }

  lemma CancelLeft(h: int, x: int, r: int, k: int)
    requires h * x == (h * r) * k && h * r != 0
    ensures x == r * k
  {
    assert (h * r) * k == h * (r * k);
    assert h * (x - r * k) == 0;
  }
}
