/**
 The Groth16 prover and verifier over exponents: a point is its discrete logarithm modulo q, group
 addition is addition, and the pairing is multiplication.  Here: keys, what an honest setup
 means, what a proof is, and why honest proofs of true statements are accepted.
 */
module Groth16 {
  import opened Modular
  import opened Polynomials
  import opened Fourier
  import opened Coset

  /** One entry of the coefficient section: matrix m, constraint row c, signal s. */
  datatype Coef = Coef(m: nat, c: nat, s: nat, val: int)

  datatype ProvingKey = ProvingKey(
    nVars: nat, nPublic: nat, coefs: seq<Coef>,
    alpha1: int, beta1: int, beta2: int, delta1: int, delta2: int,
    pointsA: seq<int>, pointsB1: seq<int>, pointsB2: seq<int>, pointsC: seq<int>, pointsH: seq<int>)

  datatype VerificationKey = VerificationKey(alpha: int, beta: int, gamma: int, delta: int, ic: seq<int>)

  datatype Proof = Proof(A: int, B: int, C: int)

  ghost predicate InRange(coefs: seq<Coef>, rows: nat, vars: nat)
  {
    forall k {:trigger coefs[k]} | 0 <= k < |coefs| :: coefs[k].c < rows && coefs[k].s < vars
  }

  /** The sizes the prover relies on. */
  ghost predicate Shape(f: Field, pk: ProvingKey)
  {
    && f.Valid()
    && pk.nPublic + 1 <= pk.nVars
    && |pk.pointsA| == |pk.pointsB1| == |pk.pointsB2| == pk.nVars
    && |pk.pointsC| == pk.nVars - pk.nPublic - 1
    && |pk.pointsH| == f.Size()
    && InRange(pk.coefs, f.Size(), pk.nVars)
  }

  // ---------------------------------------------------------------------------------------
  // Constraint rows
  // ---------------------------------------------------------------------------------------

  /** What the coefficient loop leaves in array a (first) or b: stored sums, one row per constraint. */
  function RowSums(f: Field, coefs: seq<Coef>, w: seq<int>, first: bool): (r: seq<int>)
    requires f.q > 0 && InRange(coefs, f.Size(), |w|)
    ensures |r| == f.Size()
  {
    if coefs == [] then Zeros(f.Size())
    else
      var l := |coefs| - 1;
      var k := coefs[l];
      var below := RowSums(f, coefs[..l], w, first);
      if (k.m == 0) == first then below[k.c := (below[k.c] + f.MontMul(w[k.s], k.val)) % f.q] else below
  }

  /** The same sums as exact integers over plain coefficients: the values <row, w>. */
  function RowVals(n: nat, coefs: seq<Coef>, w: seq<int>, first: bool): (r: seq<int>)
    requires InRange(coefs, n, |w|)
    ensures |r| == n
  {
    if coefs == [] then Zeros(n)
    else
      var l := |coefs| - 1;
      var k := coefs[l];
      var below := RowVals(n, coefs[..l], w, first);
      if (k.m == 0) == first then below[k.c := below[k.c] + w[k.s] * k.val] else below
  }

  /** The columns combined with a vector over the rows: the signals' polynomials at one point. */
  function ColVals(vars: nat, coefs: seq<Coef>, basis: seq<int>, first: bool): (r: seq<int>)
    requires InRange(coefs, |basis|, vars)
    ensures |r| == vars
  {
    if coefs == [] then Zeros(vars)
    else
      var l := |coefs| - 1;
      var k := coefs[l];
      var below := ColVals(vars, coefs[..l], basis, first);
      if (k.m == 0) == first then below[k.s := below[k.s] + basis[k.c] * k.val] else below
  }

  lemma {:induction false} DotUpdate(u: seq<int>, v: seq<int>, i: nat, x: int)
    requires |u| == |v| && i < |u|
    ensures Dot(u[i := u[i] + x], v) == Dot(u, v) + x * v[i]
  {
    var l := |u| - 1;
    var u' := u[i := u[i] + x];
    if i == l {
      assert u'[..l] == u[..l];
      assert (u[l] + x) * v[l] == u[l] * v[l] + x * v[l];
    } else {
      DotUpdate(u[..l], v[..l], i, x);
      assert u'[..l] == u[..l][i := u[..l][i] + x];
    }
  }

  lemma {:induction false} DotComm(u: seq<int>, v: seq<int>)
    requires |u| == |v|
    ensures Dot(u, v) == Dot(v, u)
  {
    if u == [] {
    } else {
      var l := |u| - 1;
      DotComm(u[..l], v[..l]);
      assert u[l] * v[l] == v[l] * u[l];
    }
  }

  lemma {:induction false} DotZeros(n: nat, v: seq<int>)
    requires |v| == n
    ensures Dot(Zeros(n), v) == 0
  {
    if n == 0 {
    } else {
      assert Zeros(n)[..n - 1] == Zeros(n - 1);
      DotZeros(n - 1, v[..n - 1]);
      assert 0 * v[n - 1] == 0;
    }
  }

  /** Summing rows against a vector is summing columns against the witness. */
  lemma {:induction false} Transpose(coefs: seq<Coef>, w: seq<int>, basis: seq<int>, first: bool)
    requires InRange(coefs, |basis|, |w|)
    ensures Dot(RowVals(|basis|, coefs, w, first), basis) == Dot(ColVals(|w|, coefs, basis, first), w)
  {
    if coefs == [] {
      DotZeros(|basis|, basis);
      DotZeros(|w|, w);
    } else {
      var l := |coefs| - 1;
      var k := coefs[l];
      Transpose(coefs[..l], w, basis, first);
      if (k.m == 0) == first {
        DotUpdate(RowVals(|basis|, coefs[..l], w, first), basis, k.c, w[k.s] * k.val);
        DotUpdate(ColVals(|w|, coefs[..l], basis, first), w, k.s, basis[k.c] * k.val);
        SwapProduct(w[k.s], k.val, basis[k.c]);
      }
    }
  }

  lemma SwapProduct(x: int, c: int, y: int)
    ensures (x * c) * y == (y * c) * x
  {
  }

  /** The stored coefficients are the plain ones times R², entry by entry. */
  ghost predicate StoredCoefs(f: Field, coefs: seq<Coef>, plain: seq<Coef>)
    requires f.q > 0
  {
    && |coefs| == |plain|
    && forall k {:trigger coefs[k]} {:trigger plain[k]} | 0 <= k < |coefs| ::
         && coefs[k].m == plain[k].m && coefs[k].c == plain[k].c && coefs[k].s == plain[k].s
         && Cong(f.q, coefs[k].val, f.R * f.R * plain[k].val)
  }

  lemma StoredProduct(f: Field, x: int, val: int, plain: int)
    requires f.Valid() && Cong(f.q, val, f.R * f.R * plain)
    ensures Cong(f.q, f.MontMul(x, val), f.R * (x * plain))
  {
    var y := f.R * (x * plain);
    CongScale(f.q, x, val, f.R * f.R * plain);
    CongMul(f.q, x * val, x * (f.R * f.R * plain), f.RInv, f.RInv);
    CongMul(f.q, f.R * f.RInv, 1, y, y);
    StoredShuffle(f.R, f.RInv, x, plain);
    CongMod(f.q, x * val * f.RInv);
  }

  lemma StoredShuffle(r: int, ri: int, x: int, p: int)
    ensures (x * (r * r * p)) * ri == (r * ri) * (r * (x * p))
  {
    var s := x * p;
    assert x * (r * r * p) == (r * r) * s;
    assert ((r * r) * s) * ri == (r * ri) * (r * s);
  }

  /** The coefficient loop computes the constraint rows, in stored form. */
  lemma {:induction false} RowSumsStored(f: Field, coefs: seq<Coef>, plain: seq<Coef>, w: seq<int>, first: bool)
    requires f.Valid() && InRange(coefs, f.Size(), |w|) && InRange(plain, f.Size(), |w|) && StoredCoefs(f, coefs, plain)
    ensures CongSeq(f.q, RowSums(f, coefs, w, first), Scale(f.R, RowVals(f.Size(), plain, w, first)))
  {
    var n := f.Size();
    if coefs == [] {
      assert plain == [];
      forall i | 0 <= i < n ensures Cong(f.q, Zeros(n)[i], Scale(f.R, Zeros(n))[i]) {
        assert f.R * 0 == 0;
      }
    } else {
      var l := |coefs| - 1;
      var k, k' := coefs[l], plain[l];
      var u, v := RowSums(f, coefs[..l], w, first), RowVals(n, plain[..l], w, first);
      RowSumsStored(f, coefs[..l], plain[..l], w, first);
      if (k.m == 0) == first {
        StoredProduct(f, w[k.s], k.val, k'.val);
        AddEntry(f, u, v, k.c, f.MontMul(w[k.s], k.val), w[k.s] * k'.val);
      }
    }
  }

  lemma AddEntry(f: Field, u: seq<int>, v: seq<int>, i: nat, x: int, y: int)
    requires f.Valid() && |u| == |v| && i < |u|
    requires CongSeq(f.q, u, Scale(f.R, v)) && Cong(f.q, x, f.R * y)
    ensures CongSeq(f.q, u[i := (u[i] + x) % f.q], Scale(f.R, v[i := v[i] + y]))
  {
    var u', v' := u[i := (u[i] + x) % f.q], v[i := v[i] + y];
    forall j | 0 <= j < |u| ensures Cong(f.q, u'[j], Scale(f.R, v')[j]) {
      assert Cong(f.q, u[j], Scale(f.R, v)[j]);
      if j == i {
        CongMod(f.q, u[i] + x);
        CongAdd(f.q, u[i], f.R * v[i], x, f.R * y);
        assert f.R * (v[i] + y) == f.R * v[i] + f.R * y;
      }
    }
  }

  // ---------------------------------------------------------------------------------------
  // The scalars of the H multiexponentiation
  // ---------------------------------------------------------------------------------------

  /** The product row c, in stored form. */
  function Products(f: Field, a: seq<int>, b: seq<int>): (c: seq<int>)
    requires f.q > 0 && |a| == |b|
    ensures |c| == |a|
  {
    seq(|a|, i requires 0 <= i < |a| => f.MontMul(a[i], b[i]))
  }

  /** a·b - c, taken out of stored form. */
  function Combine(f: Field, a: seq<int>, b: seq<int>, c: seq<int>): (h: seq<int>)
    requires f.q > 0 && |a| == |b| == |c|
    ensures |h| == |a|
  {
    seq(|a|, i requires 0 <= i < |a| => (((f.MontMul(a[i], b[i]) - c[i]) % f.q) * f.RInv) % f.q)
  }

  function HScalars(f: Field, coefs: seq<Coef>, w: seq<int>): (h: seq<int>)
    requires f.q > 0 && InRange(coefs, f.Size(), |w|)
    ensures |h| == f.Size()
  {
    var a, b := RowSums(f, coefs, w, true), RowSums(f, coefs, w, false);
    Combine(f, Pipeline(f, a), Pipeline(f, b), Pipeline(f, Products(f, a, b)))
  }

  lemma ProductsStored(f: Field, a: seq<int>, b: seq<int>, x: seq<int>, y: seq<int>)
    requires f.Valid() && |a| == |b| && CongSeq(f.q, a, Scale(f.R, x)) && CongSeq(f.q, b, Scale(f.R, y))
    ensures CongSeq(f.q, Products(f, a, b), Scale(f.R, Pointwise(x, y)))
  {
    forall i | 0 <= i < |a| ensures Cong(f.q, Products(f, a, b)[i], Scale(f.R, Pointwise(x, y))[i]) {
      assert Cong(f.q, a[i], Scale(f.R, x)[i]) && Cong(f.q, b[i], Scale(f.R, y)[i]);
      MontMulValue(f, a[i], b[i], x[i], y[i]);
    }
  }

  /** fromMontgomery takes the factor R away. */
  lemma Unstore(f: Field, e: int, d: int)
    requires f.Valid() && Cong(f.q, e, f.R * d)
    ensures Cong(f.q, (e * f.RInv) % f.q, d)
  {
    CongMul(f.q, e, f.R * d, f.RInv, f.RInv);
    CongMul(f.q, f.R * f.RInv, 1, d, d);
    assert (f.R * d) * f.RInv == (f.R * f.RInv) * d;
    CongMod(f.q, e * f.RInv);
  }

  lemma StoredDifference(f: Field, m: int, c: int, x: int, z: int)
    requires f.Valid() && Cong(f.q, m, f.R * x) && Cong(f.q, c, f.R * z)
    ensures Cong(f.q, (m - c) % f.q, f.R * (x - z))
  {
    CongSub(f.q, m, f.R * x, c, f.R * z);
    assert f.R * x - f.R * z == f.R * (x - z);
    CongMod(f.q, m - c);
  }

  lemma CombineValue(f: Field, a: int, b: int, c: int, x: int, y: int, z: int)
    requires f.Valid() && Cong(f.q, a, f.R * x) && Cong(f.q, b, f.R * y) && Cong(f.q, c, f.R * z)
    ensures Cong(f.q, (((f.MontMul(a, b) - c) % f.q) * f.RInv) % f.q, x * y - z)
  {
    var m := f.MontMul(a, b);
    assert Cong(f.q, m, f.R * (x * y)) by { MontMulValue(f, a, b, x, y); }
    hide Cong;
    StoredDifference(f, m, c, x * y, z);
    Unstore(f, (m - c) % f.q, x * y - z);
  }

  lemma CombineOnCoset(f: Field, u: seq<int>, v: seq<int>, a: seq<int>, b: seq<int>, j: nat)
    requires f.Valid() && |a| == |b| == f.Size() && j < f.Size()
    requires CongSeq(f.q, u, Scale(f.R, a)) && CongSeq(f.q, v, Scale(f.R, b))
    ensures Cong(f.q, Combine(f, Pipeline(f, u), Pipeline(f, v), Pipeline(f, Products(f, u, v)))[j],
                 Eval(Numerator(f, a, b), Point(f, j)))
  {
    hide Pipeline, Numerator, Products, Pointwise, Point;
    var x := Point(f, j);
    ProductsStored(f, u, v, a, b);
    PipelineOnCoset(f, u, a, j);
    PipelineOnCoset(f, v, b, j);
    PipelineOnCoset(f, Products(f, u, v), Pointwise(a, b), j);
    NumeratorValue(f, a, b, x);
    CombineValue(f, Pipeline(f, u)[j], Pipeline(f, v)[j], Pipeline(f, Products(f, u, v))[j],
                 Eval(Coefficients(f, a), x), Eval(Coefficients(f, b), x), Eval(Coefficients(f, Pointwise(a, b)), x));
  }

  /** The H scalars are the values of A·B - C on the coset. */
  lemma HScalarsOnCoset(f: Field, coefs: seq<Coef>, plain: seq<Coef>, w: seq<int>)
    requires f.Valid() && InRange(coefs, f.Size(), |w|) && InRange(plain, f.Size(), |w|) && StoredCoefs(f, coefs, plain)
    ensures var a, b := RowVals(f.Size(), plain, w, true), RowVals(f.Size(), plain, w, false);
      CongSeq(f.q, HScalars(f, coefs, w), OnCoset(f, Numerator(f, a, b)))
  {
    hide RowVals, RowSums, Pipeline, Products, Combine, Numerator, OnCoset;
    var a, b := RowVals(f.Size(), plain, w, true), RowVals(f.Size(), plain, w, false);
    var u, v := RowSums(f, coefs, w, true), RowSums(f, coefs, w, false);
    RowSumsStored(f, coefs, plain, w, true);
    RowSumsStored(f, coefs, plain, w, false);
    forall j | 0 <= j < f.Size() ensures Cong(f.q, HScalars(f, coefs, w)[j], OnCoset(f, Numerator(f, a, b))[j]) {
      CombineOnCoset(f, u, v, a, b, j);
      OnCosetEntry(f, Numerator(f, a, b), j);
    }
  }

  // ---------------------------------------------------------------------------------------
  // Proofs and acceptance
  // ---------------------------------------------------------------------------------------

  /** What the three proof points are, for a witness and the two blinding scalars. */
  ghost predicate ProofFor(f: Field, pk: ProvingKey, w: seq<int>, r: int, s: int, proof: Proof)
    requires Shape(f, pk) && |w| == pk.nVars
  {
    var a, b1, b2 := Dot(pk.pointsA, w), Dot(pk.pointsB1, w), Dot(pk.pointsB2, w);
    && Cong(f.q, proof.A, a + pk.alpha1 + r * pk.delta1)
    && Cong(f.q, proof.B, b2 + pk.beta2 + s * pk.delta2)
    && Cong(f.q, proof.C,
         Dot(pk.pointsC, w[pk.nPublic + 1..]) + Dot(pk.pointsH, HScalars(f, pk.coefs, w))
         + s * (a + pk.alpha1 + r * pk.delta1) + r * (b1 + pk.beta1 + s * pk.delta1) - r * s * pk.delta1)
  }

  /** The accumulated public-input point. */
  function VkX(vk: VerificationKey, inputs: seq<int>): int
    requires |inputs| + 1 == |vk.ic|
  {
    Dot(vk.ic[1..], inputs) + vk.ic[0]
  }

  /** The pairing equation e(A,B) = e(alpha,beta)·e(vkX,gamma)·e(C,delta), in exponents. */
  ghost predicate Accepts(q: int, vk: VerificationKey, inputs: seq<int>, proof: Proof)
    requires q > 0 && |inputs| + 1 == |vk.ic|
  {
    Cong(q, proof.A * proof.B, vk.alpha * vk.beta + VkX(vk, inputs) * vk.gamma + proof.C * vk.delta)
  }

  // ---------------------------------------------------------------------------------------
  // Honest setup
  // ---------------------------------------------------------------------------------------

  datatype Trapdoor = Trapdoor(tau: int, alpha: int, beta: int, gamma: int, delta: int)

  /** The constraint system: matrices A (m = 0) and B (other m) in one list, matrix C in another. */
  datatype Circuit = Circuit(ab: seq<Coef>, out: seq<Coef>)

  /** The Lagrange basis of the proving domain at tau. */
  function Basis(f: Field, td: Trapdoor): (r: seq<int>)
    ensures |r| == f.Size()
  {
    Lagrange(Pow(f.gInv, 2), f.nInv, f.Size(), td.tau, f.Size())
  }

  /** beta·u + alpha·v + w, signal by signal. */
  function Mixed(td: Trapdoor, u: seq<int>, v: seq<int>, w: seq<int>): (r: seq<int>)
    requires |u| == |v| == |w|
    ensures |r| == |u|
  {
    AddScaled(AddScaled(w, td.beta, u), td.alpha, v)
  }

  ghost predicate CircuitOk(f: Field, pk: ProvingKey, cs: Circuit)
  {
    InRange(cs.ab, f.Size(), pk.nVars) && InRange(cs.out, f.Size(), pk.nVars)
  }

  /** Both keys come from one setup with the given trapdoor. */
  ghost predicate Honest(f: Field, pk: ProvingKey, vk: VerificationKey, cs: Circuit, td: Trapdoor)
    requires Shape(f, pk)
  {
    && CircuitOk(f, pk, cs) && StoredCoefs(f, pk.coefs, cs.ab) && |vk.ic| == pk.nPublic + 1
    && Cong(f.q, pk.alpha1, td.alpha) && Cong(f.q, pk.beta1, td.beta) && Cong(f.q, pk.beta2, td.beta)
    && Cong(f.q, pk.delta1, td.delta) && Cong(f.q, pk.delta2, td.delta)
    && Cong(f.q, vk.alpha, td.alpha) && Cong(f.q, vk.beta, td.beta)
    && Cong(f.q, vk.gamma, td.gamma) && Cong(f.q, vk.delta, td.delta)
    && var basis := Basis(f, td);
       var u, v := ColVals(pk.nVars, cs.ab, basis, true), ColVals(pk.nVars, cs.ab, basis, false);
       var mixed := Mixed(td, u, v, ColVals(pk.nVars, cs.out, basis, true));
       && CongSeq(f.q, pk.pointsA, u) && CongSeq(f.q, pk.pointsB1, v) && CongSeq(f.q, pk.pointsB2, v)
       && CongSeq(f.q, Scale(td.gamma, vk.ic), mixed[..pk.nPublic + 1])
       && CongSeq(f.q, Scale(td.delta, pk.pointsC), mixed[pk.nPublic + 1..])
       && CongSeq(f.q, Scale(td.delta, pk.pointsH), OddBasis(f, td.tau))
  }

  /** Every constraint row holds: <A_i, w>·<B_i, w> = <C_i, w>. */
  ghost predicate Satisfies(f: Field, cs: Circuit, w: seq<int>)
    requires f.q > 0 && InRange(cs.ab, f.Size(), |w|) && InRange(cs.out, f.Size(), |w|)
  {
    var n := f.Size();
    CongSeq(f.q, Pointwise(RowVals(n, cs.ab, w, true), RowVals(n, cs.ab, w, false)), RowVals(n, cs.out, w, true))
  }
}
