/** Congruence of integers, and powers, as used by the field arithmetic of the prover. */
module Modular {

  /** a and b are the same residue modulo q. */
  ghost predicate Cong(q: int, a: int, b: int)
    requires q > 0
  {
    a % q == b % q
  }

  lemma ModUnique(q: int, a: int, k: int, r: int)
    requires q > 0 && a == q * k + r && 0 <= r < q
    ensures a % q == r
  {
    var d := a / q - k;
    assert q * d == q * (a / q) - q * k;
    assert q * d == r - a % q;
    MulAtLeast(q, d);
  }

  lemma MulAtLeast(q: int, d: int)
    requires q > 0
    ensures d >= 1 ==> q * d >= q
    ensures d <= -1 ==> q * d <= -q
  {
  }

  /** Congruent numbers differ by a multiple of q, and conversely. */
  lemma CongIntro(q: int, a: int, b: int, k: int)
    requires q > 0 && a == b + q * k
    ensures Cong(q, a, b)
  {
    assert q * (b / q + k) == q * (b / q) + q * k;
    ModUnique(q, a, b / q + k, b % q);
  }

  lemma CongElim(q: int, a: int, b: int) returns (k: int)
    requires q > 0 && Cong(q, a, b)
    ensures a == b + q * k
  {
    k := a / q - b / q;
    assert q * k == q * (a / q) - q * (b / q);
  }

  lemma CongMod(q: int, a: int)
    requires q > 0
    ensures Cong(q, a % q, a) && 0 <= a % q < q
  {
    CongIntro(q, a % q, a, -(a / q));
  }

  lemma CongAdd(q: int, a: int, a': int, b: int, b': int)
    requires q > 0 && Cong(q, a, a') && Cong(q, b, b')
    ensures Cong(q, a + b, a' + b')
  {
    var k := CongElim(q, a, a');
    var l := CongElim(q, b, b');
    assert q * (k + l) == q * k + q * l;
    CongIntro(q, a + b, a' + b', k + l);
  }

  lemma CongTransitive(q: int, a: int, b: int, c: int)
    requires q > 0 && Cong(q, a, b) && Cong(q, b, c)
    ensures Cong(q, a, c)
  {
  }

  lemma CongMul(q: int, a: int, a': int, b: int, b': int)
    requires q > 0 && Cong(q, a, a') && Cong(q, b, b')
    ensures Cong(q, a * b, a' * b')
  {
    var k := CongElim(q, a, a');
    var l := CongElim(q, b, b');
    calc {
      a * b;
      (a' + q * k) * (b' + q * l);
      a' * b' + q * (a' * l + k * b' + q * k * l);
    }
    CongIntro(q, a * b, a' * b', a' * l + k * b' + q * k * l);
  }

  lemma CongNeg(q: int, a: int, a': int)
    requires q > 0 && Cong(q, a, a')
    ensures Cong(q, -a, -a')
  {
    var k := CongElim(q, a, a');
    assert q * -k == -(q * k);
    CongIntro(q, -a, -a', -k);
  }

  lemma CongSub(q: int, a: int, a': int, b: int, b': int)
    requires q > 0 && Cong(q, a, a') && Cong(q, b, b')
    ensures Cong(q, a - b, a' - b')
  {
    CongNeg(q, b, b');
    CongAdd(q, a, a', -b, -b');
  }

  /** Scaling by a fixed factor. */
  lemma CongScale(q: int, c: int, a: int, a': int)
    requires q > 0 && Cong(q, a, a')
    ensures Cong(q, c * a, c * a')
  {
    CongMul(q, c, c, a, a');
  }

  /** A factor with an inverse can be cancelled. */
  lemma CongCancel(q: int, u: int, inv: int, a: int, b: int)
    requires q > 0 && Cong(q, u * inv, 1) && Cong(q, u * a, u * b)
    ensures Cong(q, a, b)
  {
    CongScale(q, inv, u * a, u * b);
    CongMul(q, u * inv, 1, a, a);
    CongMul(q, u * inv, 1, b, b);
    assert inv * (u * a) == u * inv * a && inv * (u * b) == u * inv * b;
  }

  // ---------------------------------------------------------------------------------------
  // Powers
  // ---------------------------------------------------------------------------------------

  function Pow(x: int, k: nat): int
  {
    if k == 0 then 1 else x * Pow(x, k - 1)
  }

  lemma {:induction false} PowAdd(x: int, j: nat, k: nat)
    ensures Pow(x, j + k) == Pow(x, j) * Pow(x, k)
  {
    if j == 0 {
    } else {
      PowAdd(x, j - 1, k);
      assert x * (Pow(x, j - 1) * Pow(x, k)) == x * Pow(x, j - 1) * Pow(x, k);
    }
  }

  lemma {:induction false} PowPow(x: int, j: nat, k: nat)
    ensures Pow(Pow(x, j), k) == Pow(x, j * k)
  {
    if k > 0 {
      PowPow(x, j, k - 1);
      PowAdd(x, j, j * (k - 1));
      assert j + j * (k - 1) == j * k;
    } else {
      assert j * 0 == 0;
    }
  }

  lemma {:induction false} PowMul(x: int, y: int, k: nat)
    ensures Pow(x * y, k) == Pow(x, k) * Pow(y, k)
  {
    if k == 0 {
    } else {
      PowMul(x, y, k - 1);
      var u, v := Pow(x, k - 1), Pow(y, k - 1);
      MulSwap(x, y, u, v);
    }
  }

  lemma MulSwap(x: int, y: int, u: int, v: int)
    ensures (x * y) * (u * v) == (x * u) * (y * v)
  {
    var s := x * y;
    assert s * (u * v) == (s * u) * v;
    assert s * u == (x * u) * y;
    assert ((x * u) * y) * v == (x * u) * (y * v);
  }

  lemma {:induction false} PowOne(k: nat)
    ensures Pow(1, k) == 1
  {
    if k == 0 {
    } else {
      PowOne(k - 1);
    }
  }

  lemma {:induction false} PowMinusOne(k: nat)
    ensures Pow(-1, k) == if k % 2 == 0 then 1 else -1
  {
    if k == 0 {
    } else {
      PowMinusOne(k - 1);
    }
  }

  lemma {:induction false} CongPow(q: int, a: int, b: int, k: nat)
    requires q > 0 && Cong(q, a, b)
    ensures Cong(q, Pow(a, k), Pow(b, k))
  {
    if k == 0 {
    } else {
      CongPow(q, a, b, k - 1);
      CongMul(q, a, b, Pow(a, k - 1), Pow(b, k - 1));
    }
  }
}
