/** Pocklington's criterion for primes, its certificates, and trial division. */
module Primality {
  import opened Modular
  import opened Euclid
  import opened Fermat

  /** v^e modulo n is y. */
  ghost predicate Power(n: int, v: int, e: nat, y: int)
  {
    n > 0 && Cong(n, y, Pow(v, e))
  }

  lemma PowerOne(n: int, v: int)
    requires n > 0
    ensures Power(n, v, 1, v)
  {
    PowFirst(v);
  }

  /** One bit of an exponent: square, and multiply by the base for a one. */
  lemma SquareAndMultiply(n: int, v: int, e: nat, y: int, bit: int, z: int)
    requires Power(n, v, e, y) && (bit == 0 || bit == 1)
    requires z == (if bit == 1 then y * y * v else y * y) % n
    ensures Power(n, v, 2 * e + bit, z)
  {
    var x, t := Pow(v, e), if bit == 1 then y * y * v else y * y;
    hide Cong, Pow;
    CongMod(n, t);
    CongMul(n, y, x, y, x);
    PowAdd(v, e, e);
    if bit == 1 {
      CongScale(n, v, y * y, x * x);
      PowAdd(v, 1, 2 * e);
      PowFirst(v);
      assert v * (y * y) == y * y * v;
    }
    CongTransitive(n, z, t, Pow(v, 2 * e + bit));
  }

  lemma CongDivisor(p: int, n: int, a: int, b: int)
    requires p > 0 && n > 0 && Divides(p, n) && Cong(n, a, b)
    ensures Cong(p, a, b)
  {
    var k :| n == p * k;
    var l := CongElim(n, a, b);
    assert n * l == p * (k * l);
    CongIntro(p, a, b, k * l);
  }

  /** v has q-th power one modulo n, and v - 1 is invertible. */
  ghost predicate Certified(n: int, q: int, v: int, w: int)
  {
    n > 1 && Prime(q) && Power(n, v, q, 1) && (v - 1) * w % n == 1
  }

  /** Then q divides p - 1 for every prime divisor p of n. */
  lemma CertifiedDivides(n: int, q: int, v: int, w: int, p: int)
    requires Certified(n, q, v, w) && Prime(p) && Divides(p, n)
    ensures Cong(q, p - 1, 0)
  {
    assert q > 1 && p > 1;
    CongDivisor(p, n, Pow(v, q), 1);
    ModUnique(n, 1, 0, 1);
    CongDivisor(p, n, (v - 1) * w, 1);
    NotOne(p, v, w);
    if !Cong(q, p - 1, 0) {
      hide Prime, Cong, Pow;
      PowerIsZero(p, v, q);
      FermatLittle(p, v);
      OrderOne(p, q, v);
      assert false;
    }
  }

  lemma NotOne(p: int, v: int, w: int)
    requires p > 1 && Cong(p, (v - 1) * w, 1)
    ensures !Cong(p, v, 1)
  {
    if Cong(p, v, 1) {
      CongSub(p, v, 1, 1, 1);
      CongMul(p, v - 1, 0, w, w);
      assert 0 * w == 0;
      ModUnique(p, 1, 0, 1);
      ModUnique(p, 0, 0, 0);
    }
  }

  lemma PowerIsZero(p: int, v: int, q: nat)
    requires p > 1 && q > 0 && Cong(p, Pow(v, q), 1)
    ensures !Cong(p, v, 0)
  {
    if Cong(p, v, 0) {
      CongPow(p, v, 0, q);
      PowZero(q);
      ModUnique(p, 1, 0, 1);
      ModUnique(p, 0, 0, 0);
    }
  }

  /** Two coprime exponents that give one make v one. */
  lemma OrderOne(p: int, q: int, v: int)
    requires Prime(p) && Prime(q) && p > 1 && q > 1 && !Cong(q, p - 1, 0)
    requires Cong(p, Pow(v, q), 1) && Cong(p, Pow(v, p - 1), 1)
    ensures Cong(p, v, 1)
  {
    var inv := PrimeInverse(q, p - 1);
    var m := inv % q;
    CongMod(q, inv);
    hide Prime;
    CongScale(q, p - 1, m, inv);
    var k := CongElim(q, (p - 1) * m, 1);
    NonNegativeQuotient(q, (p - 1) * m, k);
    hide Cong, Pow;
    PowPow(v, p - 1, m);
    CongPow(p, Pow(v, p - 1), 1, m);
    PowOne(m);
    PowAdd(v, 1, q * k);
    PowPow(v, q, k);
    CongPow(p, Pow(v, q), 1, k);
    PowOne(k);
    PowFirst(v);
    CongScale(p, v, Pow(v, q * k), 1);
    CongTransitive(p, v, Pow(v, 1 + q * k), 1);
  }

  lemma NonNegativeQuotient(q: int, x: int, k: int)
    requires q > 1 && x >= 0 && x == 1 + q * k
    ensures k >= 0
  {
    MulAtLeast(q, k);
  }

  /** A number that is not prime has a prime divisor whose square is no larger. */
  lemma SmallPrimeFactor(n: int) returns (p: int)
    requires n > 1 && !Prime(n)
    ensures Prime(p) && Divides(p, n) && p * p <= n
    decreases n
  {
    var d: int :| d > 0 && Divides(d, n) && d != 1 && d != n;
    var e :| n == d * e;
    assert e > 1 by {
      MulAtLeast(d, e - 1);
      assert d * (e - 1) == n - d;
      FactorSign(d, e, n);
    }
    var s := if d <= e then d else e;
    SmallerFactor(d, e, n);
    if Prime(s) {
      p := s;
    } else {
      p := SmallPrimeFactor(s);
      DividesTransitive(p, s, n);
    }
  }

  lemma FactorSign(d: int, e: int, n: int)
    requires d > 1 && d != n && n > 1 && n == d * e
    ensures e > 1
  {
    if e <= 0 {
      MulAtLeast(d, e);
      assert false;
    }
  }

  lemma SmallerFactor(d: int, e: int, n: int)
    requires d > 1 && e > 1 && n == d * e
    ensures var s := if d <= e then d else e; 1 < s < n && s * s <= n && Divides(s, n)
  {
    assert n == e * d;
    if d <= e {
      assert d * (e - d) >= 0;
      assert d * (e - d) == d * e - d * d;
      assert d * (e - 1) > 0 && d * (e - 1) == n - d;
    } else {
      assert e * (d - e) >= 0;
      assert e * (d - e) == e * d - e * e;
      assert e * (d - 1) > 0 && e * (d - 1) == n - e;
    }
  }

  lemma DividesTransitive(a: int, b: int, c: int)
    requires Divides(a, b) && Divides(b, c)
    ensures Divides(a, c)
  {
    var k :| b == a * k;
    var l :| c == b * l;
    assert c == a * (k * l);
  }

  /**
   Pocklington's criterion, in the form of Brillhart, Lehmer and Selfridge: with one certified factor q of n - 1,
   where (n - 1) / q is a * q + b and b is neither too small nor above q, n is prime.
   */
  lemma PrimeByFactor(n: int, q: int, v: int, w: int, a: nat, b: nat)
    requires Certified(n, q, v, w) && n - 1 == q * (a * q + b) && a + 1 < b < q
    ensures Prime(n)
  {
    if !Prime(n) {
      var p := SmallPrimeFactor(n);
      CertifiedDivides(n, q, v, w, p);
      var e: int :| n == p * e;
      hide Prime, Power;
      var k := CongElim(q, p - 1, 0);
      MulAtLeast(q, k);
      TwoFactors(q, a, b, p, e, k);
    }
  }

  /** A product of two numbers that are one modulo q has other base-q digits. */
  lemma TwoFactors(q: nat, a: nat, b: nat, p: int, e: int, k: int)
    requires a + 1 < b < q && p == q * k + 1 && k >= 1 && p > 1 && p * p <= p * e
    ensures p * e - 1 != q * (a * q + b)
  {
    Expand(p, e, p);
    MulAtLeast(p, e - p);
    var u, v := a * q + b, k * e;
    var l := u - v;
    Expand(q, u, v);
    Regroup(q, k, e);
    MulAtLeast(q, l);
    if p * e - 1 == q * u {
      TwoDigits(q, a, b, k, l, e);
    }
  }

  lemma Expand(x: int, y: int, z: int)
    ensures x * (y - z) == x * y - x * z
  {
  }

  lemma Regroup(q: int, k: int, e: int)
    ensures q * (k * e) == (q * k + 1) * e - e
  {
    assert q * (k * e) == (q * k) * e;
  }

  lemma TwoDigits(q: nat, a: nat, b: nat, k: int, l: int, e: int)
    requires a + 1 < b < q && k >= 1 && l >= 1 && e == q * l + 1
    ensures a * q + b != k * e + l
  {
    var m := k * l;
    var d := a - m;
    assert k * e == m * q + k;
    assert (k - 1) * (l - 1) == m - k - l + 1;
    assert q * d == a * q - m * q;
    MulAtLeast(q, d);
  }

  lemma SquareGrows(a: nat, b: nat)
    requires a <= b
    ensures a * a <= b * b
  {
    assert b * b == a * a + a * (b - a) + (b - a) * b;
    assert a * (b - a) >= 0 && (b - a) * b >= 0;
  }

  /** No number from 2 to k divides n. */
  predicate NoFactorTo(n: nat, k: nat)
  {
    k < 2 || (n % k != 0 && NoFactorTo(n, k - 1))
  }

  lemma {:induction false} NoFactorMeans(n: nat, k: nat, d: nat)
    requires NoFactorTo(n, k) && 2 <= d <= k
    ensures n % d != 0
  {
    if d >= k {
    } else {
      NoFactorMeans(n, k - 1, d);
    }
  }

  lemma TrialDivision(n: nat, k: nat)
    requires n > 1 && NoFactorTo(n, k) && (k + 1) * (k + 1) > n
    ensures Prime(n)
  {
    if !Prime(n) {
      var p := SmallPrimeFactor(n);
      DividesIffCong(p, n);
      ModUnique(p, 0, 0, 0);
      if p <= k {
        NoFactorMeans(n, k, p);
      } else {
        SquareGrows(k + 1, p);
      }
    }
  }
}
