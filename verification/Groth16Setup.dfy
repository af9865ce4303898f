/** Honest setups exist: the key generator, from a trapdoor with invertible gamma and delta. */
module Groth16Setup {
  import opened Bits
  import opened Modular
  import opened Fourier
  import opened Coset
  import opened Groth16

  function StoreCoefs(f: Field, plain: seq<Coef>): (r: seq<Coef>)
    ensures |r| == |plain|
  {
    seq(|plain|, k requires 0 <= k < |plain| => plain[k].(val := f.R * f.R * plain[k].val))
  }

  function MixedPoints(f: Field, cs: Circuit, td: Trapdoor, nVars: nat): (m: seq<int>)
    requires InRange(cs.ab, f.Size(), nVars) && InRange(cs.out, f.Size(), nVars)
    ensures |m| == nVars
  {
    var basis := Basis(f, td);
    Mixed(td, ColVals(nVars, cs.ab, basis, true), ColVals(nVars, cs.ab, basis, false),
      ColVals(nVars, cs.out, basis, true))
  }

  function Setup(f: Field, cs: Circuit, td: Trapdoor, nVars: nat, nPublic: nat, gammaInv: int,
    deltaInv: int): (ProvingKey, VerificationKey)
    requires InRange(cs.ab, f.Size(), nVars) && InRange(cs.out, f.Size(), nVars) && nPublic + 1 <= nVars
  {
    var basis, mixed, k := Basis(f, td), MixedPoints(f, cs, td, nVars), nPublic + 1;
    var u, v := ColVals(nVars, cs.ab, basis, true), ColVals(nVars, cs.ab, basis, false);
    (ProvingKey(nVars, nPublic, StoreCoefs(f, cs.ab), td.alpha, td.beta, td.beta, td.delta, td.delta,
                u, v, v, Scale(deltaInv, mixed[k..]), Scale(deltaInv, OddBasis(f, td.tau))),
     VerificationKey(td.alpha, td.beta, td.gamma, td.delta, Scale(gammaInv, mixed[..k])))
  }

  lemma ScaleBack(q: int, c: int, inv: int, v: seq<int>)
    requires q > 0 && Cong(q, c * inv, 1)
    ensures CongSeq(q, Scale(c, Scale(inv, v)), v)
  {
    forall i | 0 <= i < |v| ensures Cong(q, Scale(c, Scale(inv, v))[i], v[i]) {
      CongMul(q, c * inv, 1, v[i], v[i]);
      assert c * (inv * v[i]) == (c * inv) * v[i];
    }
  }

  lemma SetupIsHonest(f: Field, cs: Circuit, td: Trapdoor, nVars: nat, nPublic: nat, gammaInv: int, deltaInv: int)
    requires f.Valid() && InRange(cs.ab, f.Size(), nVars) && InRange(cs.out, f.Size(), nVars) && nPublic + 1 <= nVars
    requires Cong(f.q, td.gamma * gammaInv, 1) && Cong(f.q, td.delta * deltaInv, 1)
    ensures var (pk, vk) := Setup(f, cs, td, nVars, nPublic, gammaInv, deltaInv);
      Shape(f, pk) && Honest(f, pk, vk, cs, td)
  {
    hide ColVals, Basis, OddBasis, Mixed, Cong;
    var mixed, k := MixedPoints(f, cs, td, nVars), nPublic + 1;
    ScaleBack(f.q, td.gamma, gammaInv, mixed[..k]);
    ScaleBack(f.q, td.delta, deltaInv, mixed[k..]);
    ScaleBack(f.q, td.delta, deltaInv, OddBasis(f, td.tau));
    SameCong(f, cs, td, nVars);
  }

  lemma SameCong(f: Field, cs: Circuit, td: Trapdoor, nVars: nat)
    requires f.Valid() && InRange(cs.ab, f.Size(), nVars)
    ensures var u, v := ColVals(nVars, cs.ab, Basis(f, td), true), ColVals(nVars, cs.ab, Basis(f, td), false);
      && CongSeq(f.q, u, u) && CongSeq(f.q, v, v) && StoredCoefs(f, StoreCoefs(f, cs.ab), cs.ab)
    ensures forall x: int :: Cong(f.q, x, x)
  {
  }

  /** A domain of two points over Z/97 meets every condition on the field constants. */
  lemma SmallField()
    ensures Field(97, 1, 22, 75, 49, 73, 1, 1).Valid()
  {
    assert Pow2(0) == 1 && Pow2(1) == 2 && Pow2(2) == 4;
    assert Pow(22, 1) == 22 * Pow(22, 0) && Pow(22, 2) == 22 * Pow(22, 1) == 484;
    assert Pow(75, 1) == 75 * Pow(75, 0) && Pow(75, 2) == 75 * Pow(75, 1) == 5625;
    assert Pow(484, 1) == 484 * Pow(484, 0) && Pow(5625, 1) == 5625 * Pow(5625, 0);
  }
}
