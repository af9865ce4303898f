/** Fermat's little theorem by way of binomial coefficients, and fifth powers modulo a prime. */
module Fermat {
  import opened Modular
  import opened Euclid

  function Choose(n: nat, k: nat): nat
  {
    if k == 0 then 1
    else if n == 0 then 0
    else Choose(n - 1, k - 1) + Choose(n - 1, k)
  }

  lemma {:induction false} ChooseEdge(n: nat, k: nat)
    requires k >= n
    ensures Choose(n, k) == if k == n then 1 else 0
  {
    if n == 0 {
    } else {
      ChooseEdge(n - 1, k - 1);
      ChooseEdge(n - 1, k);
    }
  }

  /** k C(n, k) = n C(n - 1, k - 1) */
  lemma {:induction false} Absorption(n: nat, k: nat)
    requires n > 0 && k > 0
    ensures k * Choose(n, k) == n * Choose(n - 1, k - 1)
  {
    if n == 1 {
      ChooseEdge(1, k);
      ChooseEdge(0, k - 1);
      assert k * 0 == 0;
    } else if k == 1 {
      Absorption(n - 1, 1);
    } else {
      Absorption(n - 1, k);
      Absorption(n - 1, k - 1);
      var a, b, c := Choose(n - 1, k - 1), Choose(n - 1, k), Choose(n - 2, k - 1);
      var d := Choose(n - 2, k - 2);
      assert Choose(n, k) == a + b && a == d + c;
      AbsorbStep(n, k, a, b, c, d);
    }
  }

  lemma AbsorbStep(n: int, k: int, a: int, b: int, c: int, d: int)
    requires k * b == (n - 1) * c && (k - 1) * a == (n - 1) * d && a == d + c
    ensures k * (a + b) == n * a
  {
    assert k * (a + b) == (k - 1) * a + a + k * b;
    assert (n - 1) * d + (n - 1) * c == (n - 1) * a;
    assert (n - 1) * a + a == n * a;
  }

  lemma NotMultiple(p: int, k: int)
    requires 0 < k < p
    ensures !Cong(p, k, 0)
  {
    ModUnique(p, k, 0, k);
  }

  lemma PrimeDividesChoose(p: int, k: int)
    requires Prime(p) && 0 < k < p
    ensures Cong(p, Choose(p, k), 0)
  {
    hide Prime, Choose;
    Absorption(p, k);
    CongIntro(p, k * Choose(p, k), 0, Choose(p - 1, k - 1));
    PrimeProduct(p, k, Choose(p, k));
    NotMultiple(p, k);
  }

  /** The terms of (a + 1)^n up to the k-th. */
  function Terms(a: int, n: nat, k: nat): int
  {
    if k == 0 then 1 else Terms(a, n, k - 1) + Choose(n, k) * Pow(a, k)
  }

  lemma {:induction false} TermsStep(a: int, n: nat, k: nat)
    ensures (a + 1) * Terms(a, n, k) == Terms(a, n + 1, k) + Choose(n, k) * Pow(a, k + 1)
  {
    if k == 0 {
      assert Pow(a, 1) == a * Pow(a, 0);
    } else {
      TermsStep(a, n, k - 1);
      PascalTerm(a, Choose(n, k), Choose(n, k - 1), Pow(a, k), Terms(a, n, k - 1), Terms(a, n + 1, k - 1));
    }
  }

  lemma PascalTerm(a: int, c: int, b: int, x: int, s: int, t: int)
    requires (a + 1) * s == t + b * x
    ensures (a + 1) * (s + c * x) == t + (b + c) * x + c * (a * x)
  {
    assert (a + 1) * (c * x) == c * (a * x) + c * x;
    assert (a + 1) * (s + c * x) == (a + 1) * s + (a + 1) * (c * x);
  }

  lemma {:induction false} Binomial(a: int, n: nat)
    ensures Pow(a + 1, n) == Terms(a, n, n)
  {
    if n == 0 {
    } else {
      Binomial(a, n - 1);
      TermsStep(a, n - 1, n - 1);
      ChooseEdge(n - 1, n - 1);
      ChooseEdge(n, n);
    }
  }

  lemma {:induction false} InnerTermsVanish(p: int, a: int, k: nat)
    requires Prime(p) && k < p
    ensures Cong(p, Terms(a, p, k), 1)
  {
    hide Cong, Prime;
    if k == 0 {
      CongIntro(p, 1, 1, 0);
    } else {
      InnerTermsVanish(p, a, k - 1);
      PrimeDividesChoose(p, k);
      CongMul(p, Choose(p, k), 0, Pow(a, k), Pow(a, k));
      CongAdd(p, Terms(a, p, k - 1), 1, Choose(p, k) * Pow(a, k), 0);
    }
  }

  /** a^p is a, modulo a prime p. */
  lemma {:induction false} PowPrime(p: int, a: nat)
    requires Prime(p)
    ensures Cong(p, Pow(a, p), a)
  {
    if a == 0 {
      assert Pow(0, p) == 0 * Pow(0, p - 1);
    } else {
      PowPrime(p, a - 1);
      Binomial(a - 1, p);
      InnerTermsVanish(p, a - 1, p - 1);
      ChooseEdge(p, p);
      CongAdd(p, Terms(a - 1, p, p - 1), 1, Pow(a - 1, p), a - 1);
    }
  }

  /** Fermat's little theorem. */
  lemma FermatLittle(p: int, a: int)
    requires Prime(p) && !Cong(p, a, 0)
    ensures Cong(p, Pow(a, p - 1), 1)
  {
    var b := a % p;
    CongMod(p, a);
    PowPrime(p, b);
    var inv := PrimeInverse(p, b);
    hide Prime;
    assert Pow(b, p) == b * Pow(b, p - 1);
    CongCancel(p, b, inv, Pow(b, p - 1), 1);
    CongPow(p, a, b, p - 1);
  }

  /** The exponent that undoes fifth powers: five times it is one more than a multiple of p - 1. */
  function FifthRoot(p: int): nat
    requires p > 1
  {
    var k, r := (p - 1) / 5, (p - 1) % 5;
    if r == 1 then 4 * k + 1 else if r == 2 then 2 * k + 1 else if r == 3 then 3 * k + 2 else k + 1
  }

  lemma FifthRootTimesFive(p: int) returns (m: nat)
    requires p > 1 && (p - 1) % 5 != 0
    ensures 5 * FifthRoot(p) == 1 + (p - 1) * m
  {
    var r := (p - 1) % 5;
    assert p - 1 == 5 * ((p - 1) / 5) + r;
    if r == 1 {
      m := 4;
    } else if r == 2 {
      m := 2;
    } else if r == 3 {
      m := 3;
    } else {
      m := 1;
    }
  }

  lemma FifthPowerUndone(p: int, x: int)
    requires Prime(p) && (p - 1) % 5 != 0
    ensures Cong(p, Pow(Pow(x, 5), FifthRoot(p)), x)
  {
    assert p > 1;
    var k := FifthRootTimesFive(p);
    hide Prime, Cong, FifthRoot, Pow;
    var d := FifthRoot(p);
    PowPow(x, 5, d);
    if Cong(p, x, 0) {
      CongPow(p, x, 0, 5 * d);
      PowZero(5 * d);
      ToZero(p, Pow(x, 5 * d), x);
    } else {
      FermatLittle(p, x);
      PowAdd(x, 1, (p - 1) * k);
      PowPow(x, p - 1, k);
      CongPow(p, Pow(x, p - 1), 1, k);
      PowOne(k);
      PowFirst(x);
      CongScale(p, x, Pow(x, (p - 1) * k), 1);
    }
  }

  lemma PowZero(k: nat)
    requires k > 0
    ensures Pow(0, k) == 0
  {
    assert 0 * Pow(0, k - 1) == 0;
  }

  lemma PowFirst(x: int)
    ensures Pow(x, 1) == x
  {
    assert Pow(x, 1) == x * Pow(x, 0);
  }

  lemma ToZero(p: int, a: int, b: int)
    requires p > 0 && Cong(p, a, 0) && Cong(p, b, 0)
    ensures Cong(p, a, b)
  {
  }

  /** Fifth powers are injective modulo a prime p when 5 does not divide p - 1. */
  lemma FifthPowerInjective(p: int, x: int, y: int)
    requires Prime(p) && (p - 1) % 5 != 0 && Cong(p, Pow(x, 5), Pow(y, 5))
    ensures Cong(p, x, y)
  {
    FifthPowerUndone(p, x);
    FifthPowerUndone(p, y);
    CongPow(p, Pow(x, 5), Pow(y, 5), FifthRoot(p));
  }
}
