/** The extended Euclidean algorithm, modular inverses, and primes. */
module Euclid {
  import opened Modular
  import opened Wrappers

  /** Remainder and quotient that round towards minus infinity. */
  function FloorMod(b: int, a: int): (r: int)
    requires a != 0
    ensures a > 0 ==> 0 <= r < a
    ensures a < 0 ==> a < r <= 0
  {
    var r := b % a;
    if a < 0 && r != 0 then r + a else r
  }

  function FloorDiv(b: int, a: int): int
    requires a != 0
  {
    if a < 0 && b % a != 0 then b / a - 1 else b / a
  }

  lemma FloorDivMod(b: int, a: int)
    requires a != 0
    ensures b == a * FloorDiv(b, a) + FloorMod(b, a)
  {
    assert b == a * (b / a) + b % a;
    assert a * (b / a - 1) == a * (b / a) - a;
  }

  function Abs(a: int): nat { if a < 0 then -a else a }

  /** `egcd` */
  function Egcd(a: int, b: int): (int, int, int)
    decreases Abs(a)
  {
    if a == 0 then (b, 0, 1)
    else
      var (g, y, x) := Egcd(FloorMod(b, a), a);
      (g, x - FloorDiv(b, a) * y, y)
  }

  ghost predicate Divides(g: int, a: int) { exists k :: a == g * k }

  lemma DividesCombination(g: int, a: int, b: int, u: int, v: int)
    requires Divides(g, a) && Divides(g, b)
    ensures Divides(g, a * u + b * v)
  {
    var k :| a == g * k;
    var l :| b == g * l;
    assert a * u == g * (k * u) && b * v == g * (l * v);
    assert a * u + b * v == g * (k * u + l * v);
  }

  lemma BackSubstitute(a: int, b: int, m: int, d: int, x: int, y: int)
    requires b == a * d + m
    ensures a * (x - d * y) + b * y == m * y + a * x
  {
    assert a * (x - d * y) == a * x - a * d * y;
    assert (a * d + m) * y == a * d * y + m * y;
  }

  /** Bezout coefficients, and a common divisor; for non-negative arguments it is non-negative. */
  lemma {:induction false} EgcdBezout(a: int, b: int)
    ensures var (g, x, y) := Egcd(a, b);
            a * x + b * y == g && Divides(g, a) && Divides(g, b) && (a >= 0 && b >= 0 ==> g >= 0)
    decreases Abs(a)
  {
    hide Divides, FloorDiv, FloorMod;
    if a == 0 {
      DividesSelf(b);
    } else {
      var m, d := FloorMod(b, a), FloorDiv(b, a);
      EgcdBezout(m, a);
      var (g, y, x) := Egcd(m, a);
      FloorDivMod(b, a);
      BackSubstitute(a, b, m, d, x, y);
      DividesCombination(g, a, m, d, 1);
      assert a * d + m * 1 == b;
    }
  }

  /** Once an argument is negative and the other is not positive, the divisor found is negative. */
  lemma {:induction false} EgcdNegative(a: int, b: int)
    requires a <= 0 && b < 0
    ensures Egcd(a, b).0 < 0
    decreases Abs(a)
  {
    if a == 0 {
    } else {
      EgcdNegative(FloorMod(b, a), a);
    }
  }

  lemma DividesSelf(b: int)
    ensures Divides(b, 0) && Divides(b, b)
  {
    assert 0 == b * 0 && b == b * 1;
  }

  /** `modinv`; None where the source raises. */
  function ModInv(a: int, m: int): Option<int>
    requires m > 0
  {
    var (g, x, y) := Egcd(a, m);
    if g != 1 then None else Some(FloorMod(x, m))
  }

  lemma DividesOne(g: int)
    requires g >= 0 && Divides(g, 1)
    ensures g == 1
  {
    var k :| 1 == g * k;
    if g > 0 {
      MulAtLeast(g, k);
    }
  }

  /** Whatever has an inverse modulo m is coprime to m. */
  lemma InvertibleCoprime(a: int, m: int, r: int)
    requires m > 0 && a >= 0 && Cong(m, a * r, 1)
    ensures Egcd(a, m).0 == 1
  {
    EgcdBezout(a, m);
    var k := CongElim(m, a * r, 1);
    hide Divides;
    DividesCombination(Egcd(a, m).0, a, m, r, -k);
    assert m * -k == -(m * k);
    DividesOne(Egcd(a, m).0);
  }

  lemma BezoutInverse(a: int, m: int, x: int, y: int)
    requires m > 0 && a * x + m * y == 1
    ensures Cong(m, a * FloorMod(x, m), 1) && 0 <= FloorMod(x, m) < m
  {
    hide Cong;
    CongMod(m, x);
    CongScale(m, a, FloorMod(x, m), x);
    assert m * -y == -(m * y);
    CongIntro(m, a * x, 1, -y);
    CongTransitive(m, a * FloorMod(x, m), a * x, 1);
  }

  /** A returned value is the inverse; one is returned exactly for non-negative arguments that have any. */
  lemma ModInvInverts(a: int, m: int)
    requires m > 0
    ensures ModInv(a, m).Some? ==> 0 <= ModInv(a, m).value < m && Cong(m, a * ModInv(a, m).value, 1)
    ensures ModInv(a, m).Some? <==> a >= 0 && exists r :: Cong(m, a * r, 1)
  {
    if a < 0 {
      EgcdNegative(FloorMod(m, a), a);
    }
    hide Divides, Cong, Egcd, FloorMod;
    EgcdBezout(a, m);
    var (g, x, y) := Egcd(a, m);
    if g == 1 {
      BezoutInverse(a, m, x, y);
    }
    if a >= 0 && (exists r :: Cong(m, a * r, 1)) {
      var r :| Cong(m, a * r, 1);
      InvertibleCoprime(a, m, r);
    }
  }

  // ---------------------------------------------------------------------------------------
  // Primes
  // ---------------------------------------------------------------------------------------

  ghost predicate Prime(p: int)
  {
    p > 1 && forall d: int :: d > 0 && Divides(d, p) ==> d == 1 || d == p
  }

  lemma DividesIffCong(p: int, a: int)
    requires p > 0
    ensures Divides(p, a) <==> Cong(p, a, 0)
  {
    if Divides(p, a) {
      var k :| a == p * k;
      CongIntro(p, a, 0, k);
    }
    if Cong(p, a, 0) {
      var k := CongElim(p, a, 0);
      assert a == p * k;
    }
  }

  /** Modulo a prime everything but zero has an inverse. */
  lemma PrimeInverse(p: int, a: int) returns (inv: int)
    requires Prime(p) && !Cong(p, a, 0)
    ensures Cong(p, a * inv, 1)
  {
    var a' := a % p;
    CongMod(p, a);
    EgcdBezout(a', p);
    var (g, x, y) := Egcd(a', p);
    CoprimeToPrime(p, a', g);
    inv := x;
    hide Cong, Divides, Prime;
    CongIntro(p, a' * x, 1, -y);
    CongMul(p, a', a, x, x);
    CongTransitive(p, a * x, a' * x, 1);
  }

  lemma CoprimeToPrime(p: int, a: int, g: int)
    requires Prime(p) && g >= 0 && Divides(g, a) && Divides(g, p) && !Cong(p, a, 0)
    ensures g == 1
  {
    DividesIffCong(p, a);
    if g == 0 {
      var k :| p == g * k;
    }
  }

  /** A prime that divides a product divides a factor. */
  lemma PrimeProduct(p: int, a: int, b: int)
    requires Prime(p) && Cong(p, a * b, 0)
    ensures Cong(p, a, 0) || Cong(p, b, 0)
  {
    if !Cong(p, a, 0) {
      var inv := PrimeInverse(p, a);
      assert a * 0 == 0;
      CongCancel(p, a, inv, b, 0);
    }
  }
}
