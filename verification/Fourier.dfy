/**
 The discrete Fourier transform over Z/q, stated with exact sums and congruences.  A "root" of
 level t stands for the 2^t-th roots of unity the prover uses: its 2^(t-1)-th power is -1.
 */
module Fourier {
  import opened Bits
  import opened Modular
  import opened Polynomials

  ghost predicate Root(q: int, t: nat, rho: int)
    requires q > 0
  {
    if t == 0 then Cong(q, rho, 1) else Cong(q, Pow(rho, Pow2(t - 1)), -1)
  }

  /** rho and sigma are inverse roots, and inv inverts their number. */
  ghost predicate Domain(q: int, t: nat, rho: int, sigma: int, inv: int)
    requires q > 0
  {
    Root(q, t, rho) && Root(q, t, sigma) && Cong(q, rho * sigma, 1) && Cong(q, Pow2(t) * inv, 1)
  }

  lemma DomainSwap(q: int, t: nat, rho: int, sigma: int, inv: int)
    requires q > 0 && Domain(q, t, rho, sigma, inv)
    ensures Domain(q, t, sigma, rho, inv)
  {
    assert rho * sigma == sigma * rho;
  }

  lemma {:induction false} GeoSplit(x: int, a: nat, b: nat)
    ensures Geo(x, a + b) == Geo(x, a) + Pow(x, a) * Geo(x, b)
  {
    if b == 0 {
    } else {
      GeoSplit(x, a, b - 1);
      PowAdd(x, a, b - 1);
    }
  }

  lemma {:induction false} CongGeo(q: int, x: int, y: int, n: nat)
    requires q > 0 && Cong(q, x, y)
    ensures Cong(q, Geo(x, n), Geo(y, n))
  {
    if n == 0 {
    } else {
      CongGeo(q, x, y, n - 1);
      CongPow(q, x, y, n - 1);
      CongAdd(q, Geo(x, n - 1), Geo(y, n - 1), Pow(x, n - 1), Pow(y, n - 1));
    }
  }

  lemma {:induction false} GeoAtOne(n: nat)
    ensures Geo(1, n) == n
  {
    if n == 0 {
    } else {
      GeoAtOne(n - 1);
      PowOne(n - 1);
    }
  }

  /** The square of a root is a root of one level less. */
  lemma SquareRoot(q: int, t: nat, rho: int)
    requires q > 0 && t > 0 && Root(q, t, rho)
    ensures Root(q, t - 1, Pow(rho, 2))
  {
    if t > 1 {
      PowPow(rho, 2, Pow2(t - 2));
    } else {
      assert Pow(rho, 1) == rho * Pow(rho, 0) == rho;
      assert Pow(rho, 2) == rho * Pow(rho, 1);
      CongMul(q, rho, -1, rho, -1);
    }
  }

  /** A half geometric sum repeats with the factor x^half. */
  lemma GeoHalves(q: int, x: int, half: nat, w: int)
    requires q > 0 && Cong(q, Pow(x, half), w)
    ensures Cong(q, Geo(x, 2 * half), (1 + w) * Geo(x, half))
  {
    GeoSplit(x, half, half);
    assert half + half == 2 * half;
    CongMul(q, Pow(x, half), w, Geo(x, half), Geo(x, half));
    CongAdd(q, Geo(x, half), Geo(x, half), Pow(x, half) * Geo(x, half), w * Geo(x, half));
    assert Geo(x, half) + w * Geo(x, half) == (1 + w) * Geo(x, half);
  }

  /** Orthogonality: the powers of a non-trivial power of a root sum to zero.  No primality is needed. */
  lemma {:induction false} GeoVanishes(q: int, t: nat, rho: int, d: nat)
    requires q > 0 && Root(q, t, rho) && 0 < d < Pow2(t)
    ensures Cong(q, Geo(Pow(rho, d), Pow2(t)), 0)
    decreases t
  {
    var half, x := Pow2(t - 1), Pow(rho, d);
    if d % 2 == 1 {
      PowPow(rho, d, half);
      PowPow(rho, half, d);
      assert d * half == half * d;
      CongPow(q, Pow(rho, half), -1, d);
      PowMinusOne(d);
      GeoHalves(q, x, half, -1);
      assert (1 + -1) * Geo(x, half) == 0;
    } else {
      var e := d / 2;
      SquareRoot(q, t, rho);
      PowPow(rho, 2, e);
      GeoVanishes(q, t - 1, Pow(rho, 2), e);
      GeoHalves(q, x, half, Pow(x, half));
      CongScale(q, 1 + Pow(x, half), Geo(x, half), 0);
    }
  }

  lemma KernelFrom(q: int, t: nat, rho: int, sigma: int, l: nat, k: nat)
    requires q > 0 && Root(q, t, rho) && Cong(q, rho * sigma, 1) && k <= l < Pow2(t)
    ensures Cong(q, Geo(Pow(rho, l) * Pow(sigma, k), Pow2(t)), if l == k then Pow2(t) else 0)
  {
    CancelPowers(q, rho, sigma, l, k);
    CongGeo(q, Pow(rho, l) * Pow(sigma, k), Pow(rho, l - k), Pow2(t));
    if l == k {
      GeoAtOne(Pow2(t));
    } else {
      GeoVanishes(q, t, rho, l - k);
    }
  }

  /** The transform kernel is diagonal. */
  lemma Kernel(q: int, t: nat, rho: int, sigma: int, inv: int, l: nat, k: nat)
    requires q > 0 && Domain(q, t, rho, sigma, inv) && l < Pow2(t) && k < Pow2(t)
    ensures Cong(q, Geo(Pow(rho, l) * Pow(sigma, k), Pow2(t)), if l == k then Pow2(t) else 0)
  {
    if l >= k {
      KernelFrom(q, t, rho, sigma, l, k);
    } else {
      assert rho * sigma == sigma * rho;
      KernelFrom(q, t, sigma, rho, k, l);
      assert Pow(rho, l) * Pow(sigma, k) == Pow(sigma, k) * Pow(rho, l);
    }
  }

  /** Multiplying by n and then by its inverse. */
  lemma CancelFactor(q: int, n: int, inv: int, e: int, x: int)
    requires q > 0 && Cong(q, n * inv, 1) && Cong(q, e, n * x)
    ensures Cong(q, inv * e, x)
  {
    CongScale(q, inv, e, n * x);
    CongMul(q, n * inv, 1, x, x);
    assert inv * (n * x) == (n * inv) * x;
  }

  lemma CancelPowers(q: int, rho: int, sigma: int, l: nat, k: nat)
    requires q > 0 && Cong(q, rho * sigma, 1) && l >= k
    ensures Cong(q, Pow(rho, l) * Pow(sigma, k), Pow(rho, l - k))
  {
    PowAdd(rho, l - k, k);
    PowMul(rho, sigma, k);
    CongPow(q, rho * sigma, 1, k);
    PowOne(k);
    CongMul(q, Pow(rho, l - k), Pow(rho, l - k), Pow(rho, k) * Pow(sigma, k), 1);
    assert Pow(rho, l) * Pow(sigma, k) == Pow(rho, l - k) * (Pow(rho, k) * Pow(sigma, k)) by {
      var a, b, c := Pow(rho, l - k), Pow(rho, k), Pow(sigma, k);
      assert (a * b) * c == a * (b * c);
    }
  }

  function At(p: seq<int>, k: nat): int { if k < |p| then p[k] else 0 }

  lemma {:induction false} KernelSum(q: int, t: nat, rho: int, sigma: int, inv: int, p: seq<int>, k: nat)
    requires q > 0 && Domain(q, t, rho, sigma, inv) && |p| <= Pow2(t) && k < Pow2(t)
    ensures Cong(q, GeoSum(p, rho, Pow(sigma, k), Pow2(t)), Pow2(t) * At(p, k))
  {
    var n := Pow2(t);
    if p == [] {
      assert n * 0 == 0;
    } else {
      var l := |p| - 1;
      var g := Geo(Pow(rho, l) * Pow(sigma, k), n);
      KernelSum(q, t, rho, sigma, inv, p[..l], k);
      Kernel(q, t, rho, sigma, inv, l, k);
      CongScale(q, p[l], g, if l == k then n else 0);
      CongAdd(q, GeoSum(p[..l], rho, Pow(sigma, k), n), n * At(p[..l], k), p[l] * g, p[l] * (if l == k then n else 0));
      assert n * At(p[..l], k) + p[l] * (if l == k then n else 0) == n * At(p, k) by {
        if l == k { assert n * 0 == 0; } else { assert p[l] * 0 == 0; }
      }
    }
  }

  /** Inversion: transforming the values back recovers the coefficients, up to the factor 2^t. */
  lemma Inversion(q: int, t: nat, rho: int, sigma: int, inv: int, p: seq<int>, k: nat)
    requires q > 0 && Domain(q, t, rho, sigma, inv) && |p| <= Pow2(t) && k < Pow2(t)
    ensures Cong(q, Eval(EvalAt(p, rho, Pow2(t)), Pow(sigma, k)), Pow2(t) * At(p, k))
  {
    EvalOfValues(p, rho, Pow(sigma, k), Pow2(t));
    KernelSum(q, t, rho, sigma, inv, p, k);
  }

  // ---------------------------------------------------------------------------------------
  // Interpolation
  // ---------------------------------------------------------------------------------------

  function Scale(c: int, v: seq<int>): (r: seq<int>)
    ensures |r| == |v|
    ensures forall i {:trigger r[i]} | 0 <= i < |v| :: r[i] == c * v[i]
  {
    seq(|v|, i requires 0 <= i < |v| => c * v[i])
  }

  lemma {:induction false} EvalScale(c: int, v: seq<int>, x: int)
    ensures Eval(Scale(c, v), x) == c * Eval(v, x)
  {
    if v == [] {
    } else {
      EvalScale(c, v[1..], x);
      assert Scale(c, v)[1..] == Scale(c, v[1..]);
      LinearStep(0, v[0], c, x, 0, Eval(v[1..], x));
    }
  }

  /** Coefficients of the polynomial of degree below |a| with value a[j] at rho^j. */
  function Interpolate(a: seq<int>, sigma: int, inv: int): (r: seq<int>)
    ensures |r| == |a|
  {
    Scale(inv, EvalAt(a, sigma, |a|))
  }

  lemma InterpolateValue(q: int, t: nat, rho: int, sigma: int, inv: int, a: seq<int>, j: nat)
    requires q > 0 && Domain(q, t, rho, sigma, inv) && |a| == Pow2(t) && j < |a|
    ensures Cong(q, Eval(Interpolate(a, sigma, inv), Pow(rho, j)), a[j])
  {
    DomainSwap(q, t, rho, sigma, inv);
    Inversion(q, t, sigma, rho, inv, a, j);
    var e := EvalAt(a, sigma, |a|);
    EvalScale(inv, e, Pow(rho, j));
    CancelFactor(q, Pow2(t), inv, Eval(e, Pow(rho, j)), a[j]);
  }

  /** Transforming values forth and back gives the coefficients back. */
  lemma InterpolateInverts(q: int, t: nat, rho: int, sigma: int, inv: int, p: seq<int>, k: nat)
    requires q > 0 && Domain(q, t, rho, sigma, inv) && |p| == Pow2(t) && k < |p|
    ensures Cong(q, Interpolate(EvalAt(p, rho, |p|), sigma, inv)[k], p[k])
  {
    var e := EvalAt(p, rho, |p|);
    Inversion(q, t, rho, sigma, inv, p, k);
    EvalAtEntry(e, sigma, |p|, k);
    CancelFactor(q, Pow2(t), inv, Eval(e, Pow(sigma, k)), p[k]);
  }

  function Dot(u: seq<int>, v: seq<int>): int
    requires |u| == |v|
  {
    if u == [] then 0 else Dot(u[..|u| - 1], v[..|u| - 1]) + u[|u| - 1] * v[|u| - 1]
  }

  /** The values at x of the first `len` Lagrange basis polynomials of the domain with n points. */
  function Lagrange(sigma: int, inv: int, n: nat, x: int, len: nat): (r: seq<int>)
    ensures |r| == len
  {
    if len == 0 then []
    else Lagrange(sigma, inv, n, x, len - 1) + [inv * Geo(Pow(sigma, len - 1) * x, n)]
  }

  lemma {:induction false} LagrangeEntry(sigma: int, inv: int, n: nat, x: int, len: nat, i: nat)
    requires i < len
    ensures Lagrange(sigma, inv, n, x, len)[i] == inv * Geo(Pow(sigma, i) * x, n)
  {
    if i >= len - 1 {
    } else {
      LagrangeEntry(sigma, inv, n, x, len - 1, i);
    }
  }

  /** Basis polynomial i is 1 at point i of the domain and 0 at the other points. */
  lemma LagrangeAtPoints(q: int, t: nat, rho: int, sigma: int, inv: int, i: nat, j: nat)
    requires q > 0 && Domain(q, t, rho, sigma, inv) && i < Pow2(t) && j < Pow2(t)
    ensures Cong(q, Lagrange(sigma, inv, Pow2(t), Pow(rho, j), Pow2(t))[i], if i == j then 1 else 0)
  {
    LagrangeEntry(sigma, inv, Pow2(t), Pow(rho, j), Pow2(t), i);
    DomainSwap(q, t, rho, sigma, inv);
    Kernel(q, t, sigma, rho, inv, i, j);
    CongScale(q, inv, Geo(Pow(sigma, i) * Pow(rho, j), Pow2(t)), if i == j then Pow2(t) else 0);
    assert inv * Pow2(t) == Pow2(t) * inv && inv * 0 == 0;
  }

  lemma {:induction false} GeoSumIsDot(a: seq<int>, sigma: int, inv: int, n: nat, x: int)
    ensures inv * GeoSum(a, sigma, x, n) == Dot(a, Lagrange(sigma, inv, n, x, |a|))
  {
    if a == [] {
      assert inv * 0 == 0;
    } else {
      var l := |a| - 1;
      GeoSumIsDot(a[..l], sigma, inv, n, x);
      var g := Geo(Pow(sigma, l) * x, n);
      assert Lagrange(sigma, inv, n, x, |a|)[..l] == Lagrange(sigma, inv, n, x, l);
      DistributeInto(inv, GeoSum(a[..l], sigma, x, n), a[l], g);
    }
  }

  lemma DistributeInto(c: int, s: int, a: int, g: int)
    ensures c * (s + a * g) == c * s + a * (c * g)
  {
  }

  /** Interpolating and then evaluating is combining the values with the Lagrange basis. */
  lemma InterpolateIsLagrange(a: seq<int>, sigma: int, inv: int, x: int)
    ensures Eval(Interpolate(a, sigma, inv), x) == Dot(a, Lagrange(sigma, inv, |a|, x, |a|))
  {
    EvalScale(inv, EvalAt(a, sigma, |a|), x);
    EvalOfValues(a, sigma, x, |a|);
    GeoSumIsDot(a, sigma, inv, |a|, x);
  }

  // ---------------------------------------------------------------------------------------
  // Vanishing on the domain
  // ---------------------------------------------------------------------------------------

  ghost predicate CongSeq(q: int, u: seq<int>, v: seq<int>)
    requires q > 0
  {
    |u| == |v| && forall i {:trigger u[i]} {:trigger v[i]} | 0 <= i < |u| :: Cong(q, u[i], v[i])
  }

  lemma {:induction false} CongEval(q: int, u: seq<int>, v: seq<int>, x: int)
    requires q > 0 && CongSeq(q, u, v)
    ensures Cong(q, Eval(u, x), Eval(v, x))
  {
    if u == [] {
    } else {
      assert Cong(q, u[0], v[0]);
      forall i | 0 <= i < |u| - 1 ensures Cong(q, u[1..][i], v[1..][i]) {
        assert Cong(q, u[i + 1], v[i + 1]);
      }
      CongEval(q, u[1..], v[1..], x);
      CongScale(q, x, Eval(u[1..], x), Eval(v[1..], x));
      CongAdd(q, u[0], v[0], x * Eval(u[1..], x), x * Eval(v[1..], x));
    }
  }

  /** A polynomial with at most n coefficients that vanishes on the n domain points is zero. */
  lemma VanishingIsZero(q: int, t: nat, rho: int, sigma: int, inv: int, p: seq<int>)
    requires q > 0 && Domain(q, t, rho, sigma, inv) && |p| == Pow2(t)
    requires forall j {:trigger Pow(rho, j)} | 0 <= j < Pow2(t) :: Cong(q, Eval(p, Pow(rho, j)), 0)
    ensures CongSeq(q, p, Zeros(|p|))
  {
    var n := Pow2(t);
    var e := EvalAt(p, rho, n);
    forall j | 0 <= j < n ensures Cong(q, e[j], Zeros(n)[j]) {
      EvalAtEntry(p, rho, n, j);
      assert Cong(q, Eval(p, Pow(rho, j)), 0);
    }
    forall k | 0 <= k < n ensures Cong(q, p[k], Zeros(n)[k]) {
      CongEval(q, e, Zeros(n), Pow(sigma, k));
      EvalZeros(n, Pow(sigma, k));
      Inversion(q, t, rho, sigma, inv, p, k);
      assert n * 0 == 0;
      CongCancel(q, n, inv, p[k], 0);
    }
  }

  /** x^n is 1 on the domain. */
  lemma PowerOnDomain(q: int, t: nat, rho: int, j: nat)
    requires q > 0 && Root(q, t, rho)
    ensures Cong(q, Pow(Pow(rho, j), Pow2(t)), 1)
  {
    PowPow(rho, j, Pow2(t));
    PowPow(rho, Pow2(t), j);
    assert j * Pow2(t) == Pow2(t) * j;
    RootOrder(q, t, rho);
    CongPow(q, Pow(rho, Pow2(t)), 1, j);
    PowOne(j);
  }

  lemma RootOrder(q: int, t: nat, rho: int)
    requires q > 0 && Root(q, t, rho)
    ensures Cong(q, Pow(rho, Pow2(t)), 1)
  {
    if t > 0 {
      var half := Pow2(t - 1);
      PowAdd(rho, half, half);
      assert half + half == Pow2(t);
      CongMul(q, Pow(rho, half), -1, Pow(rho, half), -1);
    } else {
      assert Pow(rho, 1) == rho * 1;
    }
  }

  /**
   A polynomial with 2n coefficients that vanishes on the domain is divisible by x^n - 1, and the
   quotient is its upper half.
   */
  lemma DivisibleByVanishing(q: int, t: nat, rho: int, sigma: int, inv: int, p: seq<int>, x: int)
    requires q > 0 && Domain(q, t, rho, sigma, inv) && |p| == 2 * Pow2(t)
    requires forall j {:trigger Pow(rho, j)} | 0 <= j < Pow2(t) :: Cong(q, Eval(p, Pow(rho, j)), 0)
    ensures Cong(q, Eval(p, x), Eval(p[Pow2(t)..], x) * (Pow(x, Pow2(t)) - 1))
  {
    hide Pow, Eval;
    var n := Pow2(t);
    var lo, hi := p[..n], p[n..];
    var folded := AddScaled(lo, 1, hi);
    assert p == lo + hi;
    forall j {:trigger Pow(rho, j)} | 0 <= j < n ensures Cong(q, Eval(folded, Pow(rho, j)), 0) {
      assert Cong(q, Eval(p, Pow(rho, j)), 0);
      PowerOnDomain(q, t, rho, j);
      FoldedValue(q, lo, hi, Pow(rho, j));
    }
    VanishingIsZero(q, t, rho, sigma, inv, folded);
    CongEval(q, folded, Zeros(n), x);
    EvalZeros(n, x);
    EvalConcat(lo, hi, x);
    EvalAddScaled(lo, 1, hi, x);
    var e := Eval(hi, x) * (Pow(x, n) - 1);
    assert Eval(p, x) == Eval(folded, x) + e;
    CongAdd(q, Eval(folded, x), 0, e, e);
  }

  /** Where x^n is 1, folding the upper half onto the lower keeps the value. */
  lemma FoldedValue(q: int, lo: seq<int>, hi: seq<int>, z: int)
    requires q > 0 && |lo| == |hi| && Cong(q, Pow(z, |lo|), 1)
    ensures Cong(q, Eval(AddScaled(lo, 1, hi), z), Eval(lo + hi, z))
  {
    EvalConcat(lo, hi, z);
    EvalAddScaled(lo, 1, hi, z);
    CongMul(q, Pow(z, |lo|), 1, Eval(hi, z), Eval(hi, z));
    CongAdd(q, Eval(lo, z), Eval(lo, z), Pow(z, |lo|) * Eval(hi, z), 1 * Eval(hi, z));
  }
}
