/** Completeness of the proof system, and exactly when an honestly computed proof is accepted. */
module Completeness {
  import opened Modular
  import opened Polynomials
  import opened Fourier
  import opened Coset
  import opened Groth16

  lemma {:induction false} CongDot(q: int, u: seq<int>, v: seq<int>, x: seq<int>)
    requires q > 0 && CongSeq(q, u, v) && |u| == |x|
    ensures Cong(q, Dot(u, x), Dot(v, x))
  {
    if u == [] {
    } else {
      var l := |u| - 1;
      forall i | 0 <= i < l ensures Cong(q, u[..l][i], v[..l][i]) {
        assert Cong(q, u[i], v[i]);
      }
      CongDot(q, u[..l], v[..l], x[..l]);
      assert Cong(q, u[l], v[l]);
      CongMul(q, u[l], v[l], x[l], x[l]);
      CongAdd(q, Dot(u[..l], x[..l]), Dot(v[..l], x[..l]), u[l] * x[l], v[l] * x[l]);
    }
  }

  lemma {:induction false} DotScale(c: int, u: seq<int>, x: seq<int>)
    requires |u| == |x|
    ensures Dot(Scale(c, u), x) == c * Dot(u, x)
  {
    if u == [] {
      assert c * 0 == 0;
    } else {
      var l := |u| - 1;
      DotScale(c, u[..l], x[..l]);
      assert Scale(c, u)[..l] == Scale(c, u[..l]);
      ScaleStep(c, Dot(u[..l], x[..l]), u[l], x[l]);
    }
  }

  lemma ScaleStep(c: int, d: int, u: int, x: int)
    ensures c * d + (c * u) * x == c * (d + u * x)
  {
  }

  lemma {:induction false} DotAddScaled(u: seq<int>, c: int, v: seq<int>, x: seq<int>)
    requires |u| == |v| == |x|
    ensures Dot(AddScaled(u, c, v), x) == Dot(u, x) + c * Dot(v, x)
  {
    if u == [] {
      assert c * 0 == 0;
    } else {
      var l := |u| - 1;
      DotAddScaled(u[..l], c, v[..l], x[..l]);
      assert AddScaled(u, c, v)[..l] == AddScaled(u[..l], c, v[..l]);
      AddScaledStep(Dot(u[..l], x[..l]), Dot(v[..l], x[..l]), c, u[l], v[l], x[l]);
    }
  }

  lemma AddScaledStep(d: int, e: int, c: int, u: int, v: int, x: int)
    ensures d + c * e + (u + c * v) * x == (d + u * x) + c * (e + v * x)
  {
  }

  lemma {:induction false} DotSplit(u: seq<int>, x: seq<int>, n: nat)
    requires n <= |u| == |x|
    ensures Dot(u, x) == Dot(u[..n], x[..n]) + Dot(u[n..], x[n..])
    decreases |u|
  {
    if n == |u| {
      assert u[..n] == u && x[..n] == x;
    } else {
      var l := |u| - 1;
      DotSplit(u[..l], x[..l], n);
      assert u[..l][..n] == u[..n] && x[..l][..n] == x[..n];
      assert u[..l][n..] == u[n..][..l - n] && x[..l][n..] == x[n..][..l - n];
    }
  }

  /** The multiexponentiations of the key against the witness, as values of the circuit at tau. */
  datatype Values = Values(a: int, b: int, o: int, product: int)

  /**
   a, b, o: the interpolated rows of the three matrices at tau; product: the interpolation of the
   entrywise product of the first two.
   */
  function ValuesAt(f: Field, cs: Circuit, td: Trapdoor, w: seq<int>): Values
    requires InRange(cs.ab, f.Size(), |w|) && InRange(cs.out, f.Size(), |w|)
  {
    var n, basis := f.Size(), Basis(f, td);
    var a, b := RowVals(n, cs.ab, w, true), RowVals(n, cs.ab, w, false);
    Values(Dot(a, basis), Dot(b, basis), Dot(RowVals(n, cs.out, w, true), basis), Dot(Pointwise(a, b), basis))
  }

  lemma KeyPointsValue(f: Field, pk: ProvingKey, vk: VerificationKey, cs: Circuit, td: Trapdoor, w: seq<int>)
    requires Shape(f, pk) && Honest(f, pk, vk, cs, td) && |w| == pk.nVars
    ensures var v := ValuesAt(f, cs, td, w);
      && Cong(f.q, Dot(pk.pointsA, w), v.a)
      && Cong(f.q, Dot(pk.pointsB1, w), v.b)
      && Cong(f.q, Dot(pk.pointsB2, w), v.b)
  {
    var basis := Basis(f, td);
    var u, v := ColVals(pk.nVars, cs.ab, basis, true), ColVals(pk.nVars, cs.ab, basis, false);
    Transpose(cs.ab, w, basis, true);
    Transpose(cs.ab, w, basis, false);
    CongDot(f.q, pk.pointsA, u, w);
    CongDot(f.q, pk.pointsB1, v, w);
    CongDot(f.q, pk.pointsB2, v, w);
  }

  /** All signals' mixed points against the witness. */
  lemma MixedDot(f: Field, vars: nat, cs: Circuit, td: Trapdoor, w: seq<int>)
    requires |w| == vars && InRange(cs.ab, f.Size(), vars) && InRange(cs.out, f.Size(), vars)
    ensures var basis, v := Basis(f, td), ValuesAt(f, cs, td, w);
      Dot(Mixed(td, ColVals(vars, cs.ab, basis, true), ColVals(vars, cs.ab, basis, false),
        ColVals(vars, cs.out, basis, true)), w)
      == td.beta * v.a + td.alpha * v.b + v.o
  {
    hide RowVals, ColVals, Dot, Basis;
    var basis := Basis(f, td);
    var u, v, o :=
      ColVals(vars, cs.ab, basis, true), ColVals(vars, cs.ab, basis, false), ColVals(vars, cs.out, basis, true);
    DotAddScaled(AddScaled(o, td.beta, u), td.alpha, v, w);
    DotAddScaled(o, td.beta, u, w);
    Transpose(cs.ab, w, basis, true);
    Transpose(cs.ab, w, basis, false);
    Transpose(cs.out, w, basis, true);
  }

  /** A vector known up to a factor, combined with a part of the witness. */
  lemma ScaledPart(q: int, c: int, p: seq<int>, m: seq<int>, w: seq<int>)
    requires q > 0 && |p| == |w| && CongSeq(q, Scale(c, p), m)
    ensures Cong(q, c * Dot(p, w), Dot(m, w))
  {
    DotScale(c, p, w);
    CongDot(q, Scale(c, p), m, w);
  }

  /** The public part times gamma and the private part times delta add up to beta·a + alpha·b + o. */
  lemma PublicAndPrivate(f: Field, pk: ProvingKey, vk: VerificationKey, cs: Circuit, td: Trapdoor, w: seq<int>)
    requires Shape(f, pk) && Honest(f, pk, vk, cs, td) && |w| == pk.nVars
    ensures var v := ValuesAt(f, cs, td, w);
      var k := pk.nPublic + 1;
      Cong(f.q, td.gamma * Dot(vk.ic, w[..k]) + td.delta * Dot(pk.pointsC, w[k..]),
        td.beta * v.a + td.alpha * v.b + v.o)
  {
    hide ColVals, Dot, Basis, Mixed, RowVals;
    var basis := Basis(f, td);
    var mixed := Mixed(td, ColVals(pk.nVars, cs.ab, basis, true), ColVals(pk.nVars, cs.ab, basis, false),
                       ColVals(pk.nVars, cs.out, basis, true));
    var k := pk.nPublic + 1;
    ScaledPart(f.q, td.gamma, vk.ic, mixed[..k], w[..k]);
    ScaledPart(f.q, td.delta, pk.pointsC, mixed[k..], w[k..]);
    CongAdd(f.q, td.gamma * Dot(vk.ic, w[..k]), Dot(mixed[..k], w[..k]), td.delta * Dot(pk.pointsC, w[k..]),
      Dot(mixed[k..], w[k..]));
    DotSplit(mixed, w, k);
    MixedDot(f, pk.nVars, cs, td, w);
  }

  /** The H part times delta is a·b - product: the numerator's value at tau. */
  lemma HPart(f: Field, pk: ProvingKey, vk: VerificationKey, cs: Circuit, td: Trapdoor, w: seq<int>)
    requires Shape(f, pk) && Honest(f, pk, vk, cs, td) && |w| == pk.nVars
    ensures var v := ValuesAt(f, cs, td, w);
      Cong(f.q, td.delta * Dot(pk.pointsH, HScalars(f, pk.coefs, w)), v.a * v.b - v.product)
  {
    hide Dot, RowVals, ColVals, Numerator, HScalars, OnCoset, OddBasis;
    var n := f.Size();
    var a, b := RowVals(n, cs.ab, w, true), RowVals(n, cs.ab, w, false);
    var p, h := Numerator(f, a, b), HScalars(f, pk.coefs, w);
    DotScale(td.delta, pk.pointsH, h);
    CongDot(f.q, Scale(td.delta, pk.pointsH), OddBasis(f, td.tau), h);
    HScalarsOnCoset(f, pk.coefs, cs.ab, w);
    CongDot(f.q, h, OnCoset(f, p), OddBasis(f, td.tau));
    DotComm(OddBasis(f, td.tau), h);
    forall j {:trigger Pow(Pow(f.g, 2), j)} | 0 <= j < n ensures Cong(f.q, Eval(p, Pow(Pow(f.g, 2), j)), 0) {
      NumeratorVanishes(f, a, b, j);
    }
    CosetValuesDetermine(f, p, td.tau);
    NumeratorValue(f, a, b, td.tau);
    InterpolateIsLagrange(a, Pow(f.gInv, 2), f.nInv, td.tau);
    InterpolateIsLagrange(b, Pow(f.gInv, 2), f.nInv, td.tau);
    InterpolateIsLagrange(Pointwise(a, b), Pow(f.gInv, 2), f.nInv, td.tau);
  }

  /** The identity behind the pairing equation, over the integers. */
  lemma PairingIdentity(a: int, b: int, o: int, m: int, al: int, be: int, de: int, r: int, s: int, pub: int, priv: int)
    requires pub + priv == be * a + al * b + o
    ensures (a + al + r * de) * (b + be + s * de)
         == al * be + pub + (priv + (a * b - m) + de * (s * (a + al + r * de) + r * (b + be + s * de) - r * s * de))
           + (m - o)
  {
    var x, y := r * de, s * de;
    assert (a + al + x) * (b + be + y) == a * b + a * be + a * y + al * b + al * be + al * y + x * b + x * be + x * y;
    assert de * (s * (a + al + x) + r * (b + be + y) - r * s * de)
        == y * (a + al + x) + x * (b + be + y) - x * y by {
      assert de * (s * (a + al + x)) == y * (a + al + x);
      assert de * (r * (b + be + y)) == x * (b + be + y);
      assert de * (r * s * de) == x * y;
      assert de * (s * (a + al + x) + r * (b + be + y) - r * s * de)
          == de * (s * (a + al + x)) + de * (r * (b + be + y)) - de * (r * s * de);
    }
    assert y * (a + al + x) == a * y + al * y + x * y;
    assert x * (b + be + y) == x * b + x * be + x * y;
  }

  /** The proof's three points in terms of the circuit's values at tau. */
  lemma ProofValues(f: Field, pk: ProvingKey, vk: VerificationKey, cs: Circuit, td: Trapdoor,
                    w: seq<int>, r: int, s: int, proof: Proof)
    requires Shape(f, pk) && Honest(f, pk, vk, cs, td) && |w| == pk.nVars && ProofFor(f, pk, w, r, s, proof)
    ensures var v := ValuesAt(f, cs, td, w);
      var x, y := v.a + td.alpha + r * td.delta, v.b + td.beta + s * td.delta;
      && Cong(f.q, proof.A, x) && Cong(f.q, proof.B, y)
      && Cong(f.q, td.delta * proof.C,
           td.delta * Dot(pk.pointsC, w[pk.nPublic + 1..]) + (v.a * v.b - v.product)
           + td.delta * (s * x + r * y - r * s * td.delta))
  {
    hide ValuesAt, Dot, Basis, ColVals, HScalars, OddBasis;
    var v := ValuesAt(f, cs, td, w);
    KeyPointsValue(f, pk, vk, cs, td, w);
    var q, de := f.q, td.delta;
    var x, y := v.a + td.alpha + r * de, v.b + td.beta + s * de;
    var x' := Dot(pk.pointsA, w) + pk.alpha1 + r * pk.delta1;
    var y' := Dot(pk.pointsB1, w) + pk.beta1 + s * pk.delta1;
    AddThree(q, Dot(pk.pointsA, w), v.a, pk.alpha1, td.alpha, r, pk.delta1, de);
    AddThree(q, Dot(pk.pointsB1, w), v.b, pk.beta1, td.beta, s, pk.delta1, de);
    AddThree(q, Dot(pk.pointsB2, w), v.b, pk.beta2, td.beta, s, pk.delta2, de);
    var c, h := Dot(pk.pointsC, w[pk.nPublic + 1..]), Dot(pk.pointsH, HScalars(f, pk.coefs, w));
    HPart(f, pk, vk, cs, td, w);
    BlindingPart(q, r, s, x', x, y', y, pk.delta1, de);
    var e', e := s * x' + r * y' - r * s * pk.delta1, s * x + r * y - r * s * de;
    CPart(q, de, proof.C, c, h, e', e, v.a * v.b - v.product);
  }

  lemma AddThree(q: int, d: int, d': int, a: int, a': int, r: int, e: int, e': int)
    requires q > 0 && Cong(q, d, d') && Cong(q, a, a') && Cong(q, e, e')
    ensures Cong(q, d + a + r * e, d' + a' + r * e')
  {
    CongAdd(q, d, d', a, a');
    CongScale(q, r, e, e');
    CongAdd(q, d + a, d' + a', r * e, r * e');
  }

  lemma BlindingPart(q: int, r: int, s: int, x: int, x': int, y: int, y': int, e: int, e': int)
    requires q > 0 && Cong(q, x, x') && Cong(q, y, y') && Cong(q, e, e')
    ensures Cong(q, s * x + r * y - r * s * e, s * x' + r * y' - r * s * e')
  {
    CongScale(q, s, x, x');
    CongScale(q, r, y, y');
    CongScale(q, r * s, e, e');
    CongAdd(q, s * x, s * x', r * y, r * y');
    CongSub(q, s * x + r * y, s * x' + r * y', r * s * e, r * s * e');
  }

  lemma CPart(q: int, de: int, pc: int, c: int, h: int, e: int, e': int, z: int)
    requires q > 0 && Cong(q, pc, c + h + e) && Cong(q, e, e') && Cong(q, de * h, z)
    ensures Cong(q, de * pc, de * c + z + de * e')
  {
    CongScale(q, de, pc, c + h + e);
    assert de * (c + h + e) == de * c + de * h + de * e;
    CongScale(q, de, e, e');
    CongAdd(q, de * h, z, de * e, de * e');
    CongAdd(q, de * c, de * c, de * h + de * e, z + de * e');
  }

  /** With constant signal 1, the accumulated input point is the public part of the key against the witness. */
  lemma VkXIsPublicPart(vk: VerificationKey, w: seq<int>)
    requires |w| == |vk.ic| > 0 && w[0] == 1
    ensures VkX(vk, w[1..]) == Dot(vk.ic, w)
  {
    DotSplit(vk.ic, w, 1);
    assert Dot(vk.ic[..1], w[..1]) == vk.ic[0] by {
      assert vk.ic[..1][..0] == [] && w[..1][..0] == [];
    }
  }

  /**
   An honestly computed proof is accepted on the witness's public part exactly when the
   interpolated rows of A∘B and of C agree at tau; the blinding scalars play no role.
   */
  lemma AcceptedIff(f: Field, pk: ProvingKey, vk: VerificationKey, cs: Circuit, td: Trapdoor,
                    w: seq<int>, r: int, s: int, proof: Proof)
    requires Shape(f, pk) && Honest(f, pk, vk, cs, td) && |w| == pk.nVars && w[0] == 1
    requires ProofFor(f, pk, w, r, s, proof)
    ensures var v := ValuesAt(f, cs, td, w);
      Accepts(f.q, vk, w[1..pk.nPublic + 1], proof) <==> Cong(f.q, v.product, v.o)
  {
    hide ValuesAt, Dot, Basis, ColVals, HScalars, OddBasis, VkX;
    var v, k := ValuesAt(f, cs, td, w), pk.nPublic + 1;
    var x, y := v.a + td.alpha + r * td.delta, v.b + td.beta + s * td.delta;
    ProofValues(f, pk, vk, cs, td, w, r, s, proof);
    PublicAndPrivate(f, pk, vk, cs, td, w);
    assert w[..k][1..] == w[1..k];
    VkXIsPublicPart(vk, w[..k]);
    var vkx := Dot(vk.ic, w[..k]);
    var pub, priv := td.gamma * vkx, td.delta * Dot(pk.pointsC, w[k..]);
    var o := pub + priv - td.beta * v.a - td.alpha * v.b;
    var dc := priv + (v.a * v.b - v.product) + td.delta * (s * x + r * y - r * s * td.delta);
    PairingIdentity(v.a, v.b, o, v.product, td.alpha, td.beta, td.delta, r, s, pub, priv);
    CongMul(f.q, proof.A, x, proof.B, y);
    RightHandSide(f.q, vk.alpha, td.alpha, vk.beta, td.beta, vkx, vk.gamma, td.gamma, proof.C, vk.delta, td.delta, dc);
    var rhs := td.alpha * td.beta + pub + dc;
    assert x * y == rhs + (v.product - o);
    CongSub(f.q, pub + priv, td.beta * v.a + td.alpha * v.b + v.o,
      td.beta * v.a + td.alpha * v.b, td.beta * v.a + td.alpha * v.b);
    assert Cong(f.q, o, v.o);
    DifferenceZero(f.q, rhs, v.product, o);
  }

  lemma RightHandSide(q: int, al: int, al': int, be: int, be': int, x: int, ga: int, ga': int, c: int, de: int,
    de': int, dc: int)
    requires q > 0 && Cong(q, al, al') && Cong(q, be, be') && Cong(q, ga, ga') && Cong(q, de, de')
      && Cong(q, de' * c, dc)
    ensures Cong(q, al * be + x * ga + c * de, al' * be' + ga' * x + dc)
  {
    CongMul(q, al, al', be, be');
    CongScale(q, x, ga, ga');
    CongScale(q, c, de, de');
    CongAdd(q, al * be, al' * be', x * ga, x * ga');
    CongAdd(q, al * be + x * ga, al' * be' + x * ga', c * de, dc);
  }

  lemma DifferenceZero(q: int, e: int, a: int, b: int)
    requires q > 0
    ensures Cong(q, e + (a - b), e) <==> Cong(q, a, b)
  {
    if Cong(q, a, b) {
      CongSub(q, a, b, b, b);
      CongAdd(q, e, e, a - b, 0);
    }
    if Cong(q, e + (a - b), e) {
      CongAdd(q, e + (a - b), e, b - e, b - e);
    }
  }

  /**
   Completeness: for every key from an honest setup, every witness with constant signal 1 that
   satisfies all rows, and every choice of blinding scalars, the proof is accepted on the public
   signals.
   */
  lemma Complete(f: Field, pk: ProvingKey, vk: VerificationKey, cs: Circuit, td: Trapdoor,
                 w: seq<int>, r: int, s: int, proof: Proof)
    requires Shape(f, pk) && Honest(f, pk, vk, cs, td) && |w| == pk.nVars && w[0] == 1
    requires ProofFor(f, pk, w, r, s, proof) && Satisfies(f, cs, w)
    ensures Accepts(f.q, vk, w[1..pk.nPublic + 1], proof)
  {
    var n := f.Size();
    AcceptedIff(f, pk, vk, cs, td, w, r, s, proof);
    CongDot(f.q, Pointwise(RowVals(n, cs.ab, w, true), RowVals(n, cs.ab, w, false)), RowVals(n, cs.out, w, true),
      Basis(f, td));
  }
}
