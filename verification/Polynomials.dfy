/** Polynomials with integer coefficients, lowest degree first, and their values; all equalities are exact. */
module Polynomials {
  import opened Modular

  function Eval(p: seq<int>, x: int): int
  {
    if p == [] then 0 else p[0] + x * Eval(p[1..], x)
  }

  lemma {:induction false} EvalSnoc(p: seq<int>, c: int, x: int)
    ensures Eval(p + [c], x) == Eval(p, x) + c * Pow(x, |p|)
  {
    if p == [] {
      assert Eval([c], x) == c + x * 0;
    } else {
      EvalSnoc(p[1..], c, x);
      assert (p + [c])[1..] == p[1..] + [c];
      Distribute(x, Eval(p[1..], x), c, Pow(x, |p| - 1));
    }
  }

  lemma Distribute(x: int, e: int, c: int, w: int)
    ensures x * (e + c * w) == x * e + c * (x * w)
  {
  }

  /** u + c·v, coefficient by coefficient. */
  function AddScaled(u: seq<int>, c: int, v: seq<int>): (r: seq<int>)
    requires |u| == |v|
    ensures |r| == |u|
    ensures forall i {:trigger r[i]} | 0 <= i < |u| :: r[i] == u[i] + c * v[i]
  {
    seq(|u|, i requires 0 <= i < |u| => u[i] + c * v[i])
  }

  lemma {:induction false} EvalAddScaled(u: seq<int>, c: int, v: seq<int>, x: int)
    requires |u| == |v|
    ensures Eval(AddScaled(u, c, v), x) == Eval(u, x) + c * Eval(v, x)
  {
    if u == [] {
    } else {
      EvalAddScaled(u[1..], c, v[1..], x);
      assert AddScaled(u, c, v)[1..] == AddScaled(u[1..], c, v[1..]);
      LinearStep(u[0], v[0], c, x, Eval(u[1..], x), Eval(v[1..], x));
    }
  }

  lemma LinearStep(a: int, b: int, c: int, x: int, e: int, f: int)
    ensures a + c * b + x * (e + c * f) == (a + x * e) + c * (b + x * f)
  {
  }

  function Zeros(n: nat): (z: seq<int>)
    ensures |z| == n && forall i {:trigger z[i]} | 0 <= i < n :: z[i] == 0
  {
    seq(n, _ => 0)
  }

  lemma {:induction false} EvalZeros(n: nat, x: int)
    ensures Eval(Zeros(n), x) == 0
  {
    if n == 0 {
    } else {
      EvalZeros(n - 1, x);
      assert Zeros(n)[1..] == Zeros(n - 1);
    }
  }

  /** Concatenation shifts the second part by the length of the first. */
  lemma {:induction false} EvalConcat(p: seq<int>, r: seq<int>, x: int)
    ensures Eval(p + r, x) == Eval(p, x) + Pow(x, |p|) * Eval(r, x)
  {
    if p == [] {
      assert p + r == r;
    } else {
      EvalConcat(p[1..], r, x);
      assert (p + r)[1..] == p[1..] + r;
      Distribute(x, Eval(p[1..], x), Eval(r, x), Pow(x, |p| - 1));
    }
  }

  /** The product, padded to the sum of the two lengths. */
  function Mul(p: seq<int>, r: seq<int>): (m: seq<int>)
    ensures |m| == |p| + |r|
  {
    if p == [] then Zeros(|r|)
    else AddScaled([0] + Mul(p[1..], r), p[0], r + Zeros(|p|))
  }

  lemma {:induction false} EvalMul(p: seq<int>, r: seq<int>, x: int)
    ensures Eval(Mul(p, r), x) == Eval(p, x) * Eval(r, x)
  {
    if p == [] {
      EvalZeros(|r|, x);
    } else {
      var m := Mul(p[1..], r);
      EvalMul(p[1..], r, x);
      EvalAddScaled([0] + m, p[0], r + Zeros(|p|), x);
      assert ([0] + m)[1..] == m;
      EvalConcat(r, Zeros(|p|), x);
      EvalZeros(|p|, x);
      assert Eval([0] + m, x) == x * Eval(m, x);
      assert Pow(x, |r|) * 0 == 0;
      MulStep(p[0], x, Eval(p[1..], x), Eval(r, x));
    }
  }

  lemma MulStep(a: int, x: int, e: int, f: int)
    ensures x * (e * f) + a * f == (a + x * e) * f
  {
    assert (a + x * e) * f == a * f + (x * e) * f;
  }

  // ---------------------------------------------------------------------------------------
  // Values on a geometric progression
  // ---------------------------------------------------------------------------------------

  function Pows(x: int, n: nat): (r: seq<int>)
    ensures |r| == n
  {
    if n == 0 then [] else Pows(x, n - 1) + [Pow(x, n - 1)]
  }

  /** 1 + x + ... + x^(n-1) */
  function Geo(x: int, n: nat): int
  {
    if n == 0 then 0 else Geo(x, n - 1) + Pow(x, n - 1)
  }

  lemma {:induction false} EvalPows(x: int, y: int, n: nat)
    ensures Eval(Pows(x, n), y) == Geo(x * y, n)
  {
    if n == 0 {
    } else {
      EvalPows(x, y, n - 1);
      EvalSnoc(Pows(x, n - 1), Pow(x, n - 1), y);
      PowMul(x, y, n - 1);
    }
  }

  /** The values of p at 1, rho, rho^2, ..., rho^(n-1). */
  function EvalAt(p: seq<int>, rho: int, n: nat): (r: seq<int>)
    ensures |r| == n
  {
    if n == 0 then [] else EvalAt(p, rho, n - 1) + [Eval(p, Pow(rho, n - 1))]
  }

  lemma {:induction false} EvalAtEntry(p: seq<int>, rho: int, n: nat, j: nat)
    requires j < n
    ensures EvalAt(p, rho, n)[j] == Eval(p, Pow(rho, j))
  {
    if j >= n - 1 {
    } else {
      EvalAtEntry(p, rho, n - 1, j);
    }
  }

  lemma {:induction false} EvalAtSnoc(p: seq<int>, c: int, rho: int, n: nat)
    ensures EvalAt(p + [c], rho, n) == AddScaled(EvalAt(p, rho, n), c, Pows(Pow(rho, |p|), n))
  {
    if n == 0 {
    } else {
      EvalAtSnoc(p, c, rho, n - 1);
      EvalSnoc(p, c, Pow(rho, n - 1));
      PowPow(rho, n - 1, |p|);
      PowPow(rho, |p|, n - 1);
      assert (n - 1) * |p| == |p| * (n - 1);
    }
  }

  /** Sum over the coefficients p_l of p_l times the geometric sum at rho^l·y. */
  function GeoSum(p: seq<int>, rho: int, y: int, n: nat): int
  {
    if p == [] then 0
    else
      var l := |p| - 1;
      GeoSum(p[..l], rho, y, n) + p[l] * Geo(Pow(rho, l) * y, n)
  }

  lemma {:induction false} EvalAtZero(rho: int, n: nat)
    ensures EvalAt([], rho, n) == Zeros(n)
  {
    if n == 0 {
    } else {
      EvalAtZero(rho, n - 1);
    }
  }

  /** Evaluating the vector of values again: a double sum, with the inner sums geometric. */
  lemma {:induction false} EvalOfValues(p: seq<int>, rho: int, y: int, n: nat)
    ensures Eval(EvalAt(p, rho, n), y) == GeoSum(p, rho, y, n)
  {
    if p == [] {
      EvalAtZero(rho, n);
      EvalZeros(n, y);
    } else {
      var l := |p| - 1;
      EvalOfValues(p[..l], rho, y, n);
      assert p == p[..l] + [p[l]];
      EvalAtSnoc(p[..l], p[l], rho, n);
      EvalAddScaled(EvalAt(p[..l], rho, n), p[l], Pows(Pow(rho, l), n), y);
      EvalPows(Pow(rho, l), y, n);
    }
  }
}
