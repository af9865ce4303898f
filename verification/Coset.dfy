/**
 The quotient on the coset: what the prover's inverse transform, shift and transform compute, why
 A·B - C is divisible by x^n - 1, and how its values on the coset determine its value anywhere.
 Stored residues are in Montgomery form with factor R.
 */
module Coset {
  import opened Bits
  import opened Modular
  import opened Polynomials
  import opened Fourier

  /**
   The constants of one proving domain of size n = 2^t over Z/q: a 2n-th root g with its inverse,
   inverses of n and 2n, and the Montgomery factor R with its inverse.
   */
  datatype Field = Field(q: int, t: nat, g: int, gInv: int, nInv: int, n2Inv: int, R: int, RInv: int) {

    ghost predicate Valid()
    {
      && q > 0
      && Domain(q, t + 1, g, gInv, n2Inv)
      && Domain(q, t, Pow(g, 2), Pow(gInv, 2), nInv)
      && Cong(q, R * RInv, 1)
    }

    function Size(): nat { Pow2(t) }

    /** Montgomery product of two stored residues. */
    function MontMul(x: int, y: int): (z: int)
      requires q > 0
      ensures 0 <= z < q
    {
      (x * y * RInv) % q
    }
  }

  lemma MontMulValue(f: Field, x: int, y: int, a: int, b: int)
    requires f.Valid() && Cong(f.q, x, f.R * a) && Cong(f.q, y, f.R * b)
    ensures Cong(f.q, f.MontMul(x, y), f.R * (a * b))
  {
    CongMul(f.q, x, f.R * a, y, f.R * b);
    CongMul(f.q, x * y, (f.R * a) * (f.R * b), f.RInv, f.RInv);
    CongMul(f.q, f.R * f.RInv, 1, f.R * (a * b), f.R * (a * b));
    MontShuffle(f.R, f.RInv, a, b);
    CongMod(f.q, x * y * f.RInv);
  }

  lemma MontShuffle(r: int, ri: int, a: int, b: int)
    ensures ((r * a) * (r * b)) * ri == (r * ri) * (r * (a * b))
  {
    MulSwap(r, a, r, b);
    var s := a * b;
    assert ((r * r) * s) * ri == (r * ri) * (r * s);
  }

  function Reduce(q: int, v: seq<int>): (r: seq<int>)
    requires q > 0
    ensures |r| == |v|
  {
    seq(|v|, i requires 0 <= i < |v| => v[i] % q)
  }

  lemma ReduceCong(q: int, v: seq<int>)
    requires q > 0
    ensures CongSeq(q, Reduce(q, v), v)
  {
    forall i | 0 <= i < |v| ensures Cong(q, Reduce(q, v)[i], v[i]) {
      CongMod(q, v[i]);
    }
  }

  lemma CongSeqTrans(q: int, u: seq<int>, v: seq<int>, w: seq<int>)
    requires q > 0 && CongSeq(q, u, v) && CongSeq(q, v, w)
    ensures CongSeq(q, u, w)
  {
    forall i | 0 <= i < |u| ensures Cong(q, u[i], w[i]) {
      assert Cong(q, u[i], v[i]) && Cong(q, v[i], w[i]);
    }
  }

  // ---------------------------------------------------------------------------------------
  // The three passes over a vector
  // ---------------------------------------------------------------------------------------

  /** Contract of the forward transform: values of the vector at the powers of g². */
  function Fft(f: Field, a: seq<int>): (r: seq<int>)
    requires f.q > 0
    ensures |r| == |a|
  {
    Reduce(f.q, EvalAt(a, Pow(f.g, 2), |a|))
  }

  /** Contract of the inverse transform: coefficients of the interpolating polynomial. */
  function Ifft(f: Field, a: seq<int>): (r: seq<int>)
    requires f.q > 0
    ensures |r| == |a|
  {
    Reduce(f.q, Interpolate(a, Pow(f.gInv, 2), f.nInv))
  }

  /** fft->root(domainPower + 1, i): the i-th power of g, in stored form. */
  function RootAt(f: Field, i: nat): int
    requires f.q > 0
  {
    (f.R * Pow(f.g, i)) % f.q
  }

  /** Entry i is multiplied by the i-th power of g. */
  function Shift(f: Field, a: seq<int>): (r: seq<int>)
    requires f.q > 0
    ensures |r| == |a|
  {
    if a == [] then []
    else
      var l := |a| - 1;
      Shift(f, a[..l]) + [f.MontMul(a[l], RootAt(f, l))]
  }

  function Pipeline(f: Field, a: seq<int>): (r: seq<int>)
    requires f.q > 0
    ensures |r| == |a|
  {
    Fft(f, Shift(f, Ifft(f, a)))
  }

  /** Coefficient k times y^k: the polynomial p(y·x). */
  function Twist(p: seq<int>, y: int): (r: seq<int>)
    ensures |r| == |p|
  {
    if p == [] then []
    else
      var l := |p| - 1;
      Twist(p[..l], y) + [p[l] * Pow(y, l)]
  }

  lemma {:induction false} EvalTwist(p: seq<int>, y: int, x: int)
    ensures Eval(Twist(p, y), x) == Eval(p, y * x)
  {
    if p == [] {
    } else {
      var l := |p| - 1;
      EvalTwist(p[..l], y, x);
      EvalSnoc(Twist(p[..l], y), p[l] * Pow(y, l), x);
      assert p == p[..l] + [p[l]];
      EvalSnoc(p[..l], p[l], y * x);
      PowMul(y, x, l);
      assert (p[l] * Pow(y, l)) * Pow(x, l) == p[l] * (Pow(y, l) * Pow(x, l));
    }
  }

  /** Shifting stored coefficients is twisting the polynomial they stand for. */
  lemma {:induction false} ShiftIsTwist(f: Field, a: seq<int>, p: seq<int>)
    requires f.Valid() && CongSeq(f.q, a, Scale(f.R, p))
    ensures CongSeq(f.q, Shift(f, a), Scale(f.R, Twist(p, f.g)))
  {
    if a == [] {
    } else {
      var l := |a| - 1;
      forall i | 0 <= i < l ensures Cong(f.q, a[..l][i], Scale(f.R, p[..l])[i]) {
        assert Cong(f.q, a[i], Scale(f.R, p)[i]);
      }
      ShiftIsTwist(f, a[..l], p[..l]);
      assert Cong(f.q, a[l], Scale(f.R, p)[l]);
      CongMod(f.q, f.R * Pow(f.g, l));
      MontMulValue(f, a[l], RootAt(f, l), p[l], Pow(f.g, l));
      var u, v := Shift(f, a), Scale(f.R, Twist(p, f.g));
      forall i | 0 <= i < |u| ensures Cong(f.q, u[i], v[i]) {
        if i < l {
          assert Cong(f.q, Shift(f, a[..l])[i], Scale(f.R, Twist(p[..l], f.g))[i]);
        }
      }
    }
  }

  lemma {:induction false} EvalAtScale(c: int, p: seq<int>, rho: int, n: nat)
    ensures EvalAt(Scale(c, p), rho, n) == Scale(c, EvalAt(p, rho, n))
  {
    if n == 0 {
    } else {
      EvalAtScale(c, p, rho, n - 1);
      EvalScale(c, p, Pow(rho, n - 1));
    }
  }

  lemma {:induction false} CongEvalAt(q: int, u: seq<int>, v: seq<int>, rho: int, n: nat)
    requires q > 0 && CongSeq(q, u, v)
    ensures CongSeq(q, EvalAt(u, rho, n), EvalAt(v, rho, n))
  {
    if n == 0 {
    } else {
      CongEvalAt(q, u, v, rho, n - 1);
      CongEval(q, u, v, Pow(rho, n - 1));
      forall i | 0 <= i < n ensures Cong(q, EvalAt(u, rho, n)[i], EvalAt(v, rho, n)[i]) {
        if i < n - 1 {
          assert Cong(q, EvalAt(u, rho, n - 1)[i], EvalAt(v, rho, n - 1)[i]);
        }
      }
    }
  }

  lemma CongSeqScale(q: int, c: int, u: seq<int>, v: seq<int>)
    requires q > 0 && CongSeq(q, u, v)
    ensures CongSeq(q, Scale(c, u), Scale(c, v))
  {
    forall i | 0 <= i < |u| ensures Cong(q, Scale(c, u)[i], Scale(c, v)[i]) {
      assert Cong(q, u[i], v[i]);
      CongScale(q, c, u[i], v[i]);
    }
  }

  /** The inverse transform of stored values gives the stored interpolation coefficients. */
  lemma IfftIsInterpolate(f: Field, a: seq<int>, v: seq<int>)
    requires f.Valid() && CongSeq(f.q, a, Scale(f.R, v))
    ensures CongSeq(f.q, Ifft(f, a), Scale(f.R, Interpolate(v, Pow(f.gInv, 2), f.nInv)))
  {
    var sigma := Pow(f.gInv, 2);
    var e, e' := EvalAt(a, sigma, |a|), EvalAt(v, sigma, |a|);
    CongEvalAt(f.q, a, Scale(f.R, v), sigma, |a|);
    EvalAtScale(f.R, v, sigma, |a|);
    CongSeqScale(f.q, f.nInv, e, Scale(f.R, e'));
    assert Scale(f.nInv, Scale(f.R, e')) == Scale(f.R, Scale(f.nInv, e')) by {
      forall i | 0 <= i < |e'| ensures f.nInv * (f.R * e'[i]) == f.R * (f.nInv * e'[i]) { }
    }
    ReduceCong(f.q, Scale(f.nInv, e));
    CongSeqTrans(f.q, Ifft(f, a), Scale(f.nInv, e), Scale(f.R, Interpolate(v, sigma, f.nInv)));
  }

  /** The j-th point of the coset: an odd power of g. */
  function Point(f: Field, j: nat): int { Pow(f.g, 2 * j + 1) }

  /**
   The pipeline leaves in entry j the value, at the j-th coset point, of the polynomial that
   interpolates the input values on the domain.
   */
  lemma PipelineOnCoset(f: Field, a: seq<int>, v: seq<int>, j: nat)
    requires f.Valid() && |a| == f.Size() && j < |a| && CongSeq(f.q, a, Scale(f.R, v))
    ensures Cong(f.q, Pipeline(f, a)[j], f.R * Eval(Interpolate(v, Pow(f.gInv, 2), f.nInv), Point(f, j)))
  {
    var p := Interpolate(v, Pow(f.gInv, 2), f.nInv);
    var shifted := Shift(f, Ifft(f, a));
    var x := Pow(Pow(f.g, 2), j);
    IfftIsInterpolate(f, a, v);
    ShiftIsTwist(f, Ifft(f, a), p);
    CongEval(f.q, shifted, Scale(f.R, Twist(p, f.g)), x);
    EvalScale(f.R, Twist(p, f.g), x);
    EvalTwist(p, f.g, x);
    PowPow(f.g, 2, j);
    assert Point(f, j) == f.g * x;
    EvalAtEntry(shifted, Pow(f.g, 2), |a|, j);
    CongMod(f.q, EvalAt(shifted, Pow(f.g, 2), |a|)[j]);
  }

  // ---------------------------------------------------------------------------------------
  // A·B - C
  // ---------------------------------------------------------------------------------------

  /** Entrywise product. */
  function Pointwise(u: seq<int>, v: seq<int>): (r: seq<int>)
    requires |u| == |v|
    ensures |r| == |u|
    ensures forall i {:trigger r[i]} | 0 <= i < |u| :: r[i] == u[i] * v[i]
  {
    seq(|u|, i requires 0 <= i < |u| => u[i] * v[i])
  }

  function Coefficients(f: Field, v: seq<int>): (p: seq<int>)
    ensures |p| == |v|
  {
    Interpolate(v, Pow(f.gInv, 2), f.nInv)
  }

  /** The polynomial A·B - C with 2n coefficients, where A, B, C interpolate a, b and a∘b. */
  function Numerator(f: Field, a: seq<int>, b: seq<int>): (p: seq<int>)
    requires |a| == |b|
    ensures |p| == 2 * |a|
  {
    AddScaled(Mul(Coefficients(f, a), Coefficients(f, b)), -1, Coefficients(f, Pointwise(a, b)) + Zeros(|a|))
  }

  lemma NumeratorValue(f: Field, a: seq<int>, b: seq<int>, x: int)
    requires |a| == |b|
    ensures Eval(Numerator(f, a, b), x)
         == Eval(Coefficients(f, a), x) * Eval(Coefficients(f, b), x) - Eval(Coefficients(f, Pointwise(a, b)), x)
  {
    var p, r, c := Coefficients(f, a), Coefficients(f, b), Coefficients(f, Pointwise(a, b));
    EvalAddScaled(Mul(p, r), -1, c + Zeros(|a|), x);
    EvalMul(p, r, x);
    EvalConcat(c, Zeros(|a|), x);
    EvalZeros(|a|, x);
    assert Pow(x, |c|) * 0 == 0;
  }

  lemma NumeratorVanishes(f: Field, a: seq<int>, b: seq<int>, j: nat)
    requires f.Valid() && |a| == |b| == f.Size() && j < |a|
    ensures Cong(f.q, Eval(Numerator(f, a, b), Pow(Pow(f.g, 2), j)), 0)
  {
    var rho, sigma, c := Pow(f.g, 2), Pow(f.gInv, 2), Pointwise(a, b);
    var x := Pow(rho, j);
    NumeratorValue(f, a, b, x);
    InterpolateValue(f.q, f.t, rho, sigma, f.nInv, a, j);
    InterpolateValue(f.q, f.t, rho, sigma, f.nInv, b, j);
    InterpolateValue(f.q, f.t, rho, sigma, f.nInv, c, j);
    var ea, eb, ec := Eval(Coefficients(f, a), x), Eval(Coefficients(f, b), x), Eval(Coefficients(f, c), x);
    CongMul(f.q, ea, a[j], eb, b[j]);
    CongSub(f.q, ea * eb, a[j] * b[j], ec, a[j] * b[j]);
  }

  /** x^n is -1 at every coset point. */
  lemma PowerOnCoset(f: Field, j: nat)
    requires f.Valid()
    ensures Cong(f.q, Pow(Point(f, j), f.Size()), -1)
  {
    var n, d := f.Size(), 2 * j + 1;
    PowPow(f.g, d, n);
    PowPow(f.g, n, d);
    assert d * n == n * d;
    CongPow(f.q, Pow(f.g, n), -1, d);
    PowMinusOne(d);
  }

  /** The exact quotient (A·B - C) / (x^n - 1): the upper half of the numerator. */
  function Quotient(f: Field, a: seq<int>, b: seq<int>): (h: seq<int>)
    requires |a| == |b|
    ensures |h| == |a|
  {
    Numerator(f, a, b)[|a|..]
  }

  /** A·B - C is h·(x^n - 1) everywhere, and -2·h on the coset. */
  lemma QuotientDivides(f: Field, a: seq<int>, b: seq<int>, x: int, j: nat)
    requires f.Valid() && |a| == |b| == f.Size()
    ensures Cong(f.q, Eval(Numerator(f, a, b), x), Eval(Quotient(f, a, b), x) * (Pow(x, f.Size()) - 1))
    ensures Cong(f.q, Eval(Numerator(f, a, b), Point(f, j)), -2 * Eval(Quotient(f, a, b), Point(f, j)))
  {
    var p, h, n := Numerator(f, a, b), Quotient(f, a, b), f.Size();
    var rho, sigma, y := Pow(f.g, 2), Pow(f.gInv, 2), Point(f, j);
    forall i {:trigger Pow(rho, i)} | 0 <= i < n ensures Cong(f.q, Eval(p, Pow(rho, i)), 0) {
      NumeratorVanishes(f, a, b, i);
    }
    DivisibleByVanishing(f.q, f.t, rho, sigma, f.nInv, p, x);
    DivisibleByVanishing(f.q, f.t, rho, sigma, f.nInv, p, y);
    PowerOnCoset(f, j);
    CongSub(f.q, Pow(y, n), -1, 1, 1);
    CongScale(f.q, Eval(h, y), Pow(y, n) - 1, -2);
    assert Eval(h, y) * -2 == -2 * Eval(h, y);
  }

  // ---------------------------------------------------------------------------------------
  // From the coset values back to the value at any point
  // ---------------------------------------------------------------------------------------

  /** The entries at odd positions. */
  function Odd(v: seq<int>): (r: seq<int>)
    requires |v| % 2 == 0
    ensures |r| == |v| / 2
    ensures forall i {:trigger r[i]} | 0 <= i < |r| :: r[i] == v[2 * i + 1]
  {
    seq(|v| / 2, i requires 0 <= i < |v| / 2 => v[2 * i + 1])
  }

  lemma DotLastTwo(u: seq<int>, v: seq<int>)
    requires |u| == |v| >= 2
    ensures var l := |u| - 2;
      Dot(u, v) == Dot(u[..l], v[..l]) + u[l] * v[l] + u[l + 1] * v[l + 1]
  {
    var l := |u| - 2;
    var u1, v1 := u[..l + 1], v[..l + 1];
    assert u1[..l] == u[..l] && v1[..l] == v[..l];
    assert Dot(u1, v1) == Dot(u1[..l], v1[..l]) + u1[l] * v1[l];
  }

  ghost predicate EvensZero(q: int, u: seq<int>)
    requires q > 0
  {
    forall i {:trigger u[i]} | 0 <= i < |u| && i % 2 == 0 :: Cong(q, u[i], 0)
  }

  lemma {:induction false} OddDot(q: int, u: seq<int>, v: seq<int>)
    requires q > 0 && |u| == |v| && |u| % 2 == 0 && EvensZero(q, u)
    ensures Cong(q, Dot(u, v), Dot(Odd(u), Odd(v)))
    decreases |u|
  {
    hide Dot, Odd;
    if u == [] {
      assert v == u && Odd(u) == u && Odd(v) == v;
    } else {
      var l := |u| - 2;
      var d, d' := Dot(u[..l], v[..l]), Dot(Odd(u[..l]), Odd(v[..l]));
      OddDot(q, u[..l], v[..l]);
      OddSnoc(u, v);
      DotLastTwo(u, v);
      assert Cong(q, u[l], 0);
      hide Cong;
      DropTerm(q, d, d', u[l], v[l], u[l + 1] * v[l + 1]);
    }
  }

  lemma DropTerm(q: int, d: int, d': int, x: int, y: int, z: int)
    requires q > 0 && Cong(q, d, d') && Cong(q, x, 0)
    ensures Cong(q, d + x * y + z, d' + z)
  {
    CongMul(q, x, 0, y, y);
    assert 0 * y == 0;
    CongAdd(q, d, d', x * y, 0);
    CongAdd(q, d + x * y, d', z, z);
  }

  lemma OddSnoc(u: seq<int>, v: seq<int>)
    requires |u| == |v| >= 2 && |u| % 2 == 0
    ensures var l := |u| - 2;
      Dot(Odd(u), Odd(v)) == Dot(Odd(u[..l]), Odd(v[..l])) + u[l + 1] * v[l + 1]
  {
    var l := |u| - 2;
    assert Odd(u)[..l / 2] == Odd(u[..l]) && Odd(v)[..l / 2] == Odd(v[..l]);
  }

  /** The Lagrange basis of the double-size domain at its odd points, evaluated at x. */
  function OddBasis(f: Field, x: int): (r: seq<int>)
    ensures |r| == f.Size()
  {
    Odd(Lagrange(f.gInv, f.n2Inv, 2 * f.Size(), x, 2 * f.Size()))
  }

  /** A polynomial's values at the coset points. */
  function OnCoset(f: Field, p: seq<int>): (r: seq<int>)
    ensures |r| == f.Size()
  {
    Odd(EvalAt(p, f.g, 2 * f.Size()))
  }

  lemma OnCosetEntry(f: Field, p: seq<int>, j: nat)
    requires j < f.Size()
    ensures OnCoset(f, p)[j] == Eval(p, Point(f, j))
  {
    EvalAtEntry(p, f.g, 2 * f.Size(), 2 * j + 1);
  }

  /**
   A polynomial with 2n coefficients that vanishes on the domain has, at any x, the value obtained
   by combining its coset values with the odd basis.
   */
  lemma CosetValuesDetermine(f: Field, p: seq<int>, x: int)
    requires f.Valid() && |p| == 2 * f.Size()
    requires forall j {:trigger Pow(Pow(f.g, 2), j)} | 0 <= j < f.Size() :: Cong(f.q, Eval(p, Pow(Pow(f.g, 2), j)), 0)
    ensures Cong(f.q, Dot(OnCoset(f, p), OddBasis(f, x)), Eval(p, x))
  {
    hide Dot, Lagrange, Odd, Interpolate;
    var n2 := 2 * f.Size();
    assert n2 == Pow2(f.t + 1);
    var e, basis := EvalAt(p, f.g, n2), Lagrange(f.gInv, f.n2Inv, n2, x, n2);
    assert EvensZero(f.q, e) by {
      forall i {:trigger e[i]} | 0 <= i < |e| && i % 2 == 0 ensures Cong(f.q, e[i], 0) {
        EvalAtEntry(p, f.g, n2, i);
        PowPow(f.g, 2, i / 2);
      }
    }
    OddDot(f.q, e, basis);
    InterpolateIsLagrange(e, f.gInv, f.n2Inv, x);
    var back := Interpolate(e, f.gInv, f.n2Inv);
    assert CongSeq(f.q, back, p) by {
      forall k | 0 <= k < n2 ensures Cong(f.q, back[k], p[k]) {
        InterpolateInverts(f.q, f.t + 1, f.g, f.gInv, f.n2Inv, p, k);
      }
    }
    CongEval(f.q, back, p, x);
  }
}
