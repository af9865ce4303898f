/** The verifier as it runs, and the prover and verifier composed. */
module Groth16Verifier {
  import opened Modular
  import opened Fourier
  import opened Coset
  import opened Groth16
  import opened Completeness
  import opened Wrappers
  import FE = FinalExponentiation
  import P = Groth16Prover
  import Groth16Setup

  /**
   What is taken from the curve: the Miller value of two non-zero points, as a logarithm in the
   extension field, is bilinear modulo the group order, with an invertible constant.
   */
  datatype Pairing = Pairing(u: int, miller: (int, int) -> int, kappa: int, kappaInv: int) {

    function Q(): int { FE.Order(u) }

    ghost predicate Valid()
    {
      && u > 0 && Q() > 0 && FE.GroupSize(u) > 0
      && Cong(Q(), kappa * kappaInv, 1)
      && forall a, b {:trigger miller(b, a)} :: a % Q() != 0 && b % Q() != 0 ==>
        Cong(Q(), miller(b, a), kappa * (a * b))
    }
  }

  /** The assumptions on the curve and those on the field can be met together: parameter 1, order 97. */
  lemma SmallCurve()
    ensures var e := Pairing(1, (b, a) => a * b, 1, 1);
      e.Valid() && e.Q() == 97 && Field(97, 1, 22, 75, 49, 73, 1, 1).Valid()
  {
    Groth16Setup.SmallField();
    FE.GroupSizePositive(1);
  }

  /** Sum of the products of the exponents. */
  function PairSum(a: seq<int>, b: seq<int>): int
    requires |a| == |b|
  {
    Dot(a, b)
  }

  class Verifier {
    const f: Field
    const e: Pairing
    const f12: FE.F12

    constructor (f: Field, e: Pairing)
      requires f.Valid() && e.Valid() && f.q == e.Q()
      ensures Valid() && this.f == f && this.e == e
    {
      this.f, this.e := f, e;
      FE.GroupSizePositive(e.u);
      f12 := new FE.F12(e.u);
    }

    ghost predicate Valid()
    {
      f.Valid() && e.Valid() && f.q == e.Q() && f12.u == e.u && f12.Valid()
    }

    lemma SkipZero(q: int, a: int, b: int)
      requires q > 0 && (a % q == 0 || b % q == 0)
      ensures Cong(q, a * b, 0)
    {
      if a % q == 0 {
        CongMul(q, a, 0, b, b);
      } else {
        CongMul(q, a, a, b, 0);
      }
    }

    /** One more pair: skipped when a point is zero, otherwise its Miller value is multiplied in. */
    lemma PairStep(acc: int, sum: int, a: int, b: int)
      requires Valid() && Cong(f.q, acc, e.kappa * sum)
      ensures (a % f.q == 0 || b % f.q == 0) ==> Cong(f.q, acc, e.kappa * (sum + a * b))
      ensures a % f.q != 0 && b % f.q != 0 ==> Cong(f.q, acc + e.miller(b, a), e.kappa * (sum + a * b))
    {
      var k := e.kappa;
      assert k * (sum + a * b) == k * sum + k * (a * b);
      if a % f.q == 0 || b % f.q == 0 {
        SkipZero(f.q, a, b);
        CongScale(f.q, k, a * b, 0);
        CongAdd(f.q, k * sum, k * sum, k * (a * b), 0);
      } else {
        CongAdd(f.q, acc, k * sum, e.miller(b, a), k * (a * b));
      }
    }

    /**
     The product of the Miller values of the non-zero pairs, finally exponentiated, is one exactly
     when the exponents' products sum to zero; skipping zero points changes nothing.
     */
    method PairingCheck(a: seq<int>, b: seq<int>) returns (ok: bool)
      requires Valid() && |a| == |b|
      ensures ok <==> Cong(f.q, PairSum(a, b), 0)
    {
      var acc := 0;
      assert a[..0] == [] && b[..0] == [];
      for i := 0 to |a|
        invariant Cong(f.q, acc, e.kappa * PairSum(a[..i], b[..i]))
      {
        PairStep(acc, PairSum(a[..i], b[..i]), a[i], b[i]);
        assert a[..i + 1][..i] == a[..i] && b[..i + 1][..i] == b[..i];
        if a[i] % f.q == 0 || b[i] % f.q == 0 {
          continue;
        }
        acc := acc + e.miller(b[i], a[i]);
      }
      assert a[..|a|] == a && b[..|b|] == b;
      var ret := f12.FinalExponentiation(acc);
      FE.OneIffOrderDivides(e.u, acc, ret);
      CancelKappa(acc, PairSum(a, b));
      ok := ret % FE.GroupSize(e.u) == 0;
      ZeroIsCong(FE.GroupSize(e.u), ret);
    }

    lemma ZeroIsCong(m: int, x: int)
      requires m > 0
      ensures x % m == 0 <==> Cong(m, x, 0)
    {
    }

    lemma CancelKappa(acc: int, sum: int)
      requires Valid() && Cong(f.q, acc, e.kappa * sum)
      ensures Cong(f.q, acc, 0) <==> Cong(f.q, sum, 0)
    {
      if Cong(f.q, sum, 0) {
        CongScale(f.q, e.kappa, sum, 0);
      }
      if Cong(f.q, acc, 0) {
        assert e.kappa * 0 == 0;
        CongCancel(f.q, e.kappa, e.kappaInv, sum, 0);
      }
    }

    /** The values behind stored inputs. */
    function Unstored(inputs: seq<int>): (r: seq<int>)
      requires f.q > 0
      ensures |r| == |inputs|
    {
      seq(|inputs|, i requires 0 <= i < |inputs| => (inputs[i] * f.RInv) % f.q)
    }

    /** A wrong number of inputs is an error; otherwise the pairing equation decides. */
    method Verify(proof: Proof, inputs: seq<int>, key: VerificationKey) returns (r: Result<bool>)
      requires Valid()
      ensures r.Ok? <==> |inputs| + 1 == |key.ic|
      ensures r.Ok? ==> (r.value <==> Accepts(f.q, key, Unstored(inputs), proof))
    {
      if |inputs| + 1 != |key.ic| {
        return Err("len(inputs)+1 != len(vk.IC)");
      }
      var ic, std := key.ic[1..], Unstored(inputs);
      var vkX := 0;
      assert ic[..0] == [] && std[..0] == [];
      for i := 0 to |inputs|
        invariant Cong(f.q, vkX, Dot(ic[..i], std[..i]))
      {
        assert ic[..i + 1][..i] == ic[..i] && std[..i + 1][..i] == std[..i];
        var input := (inputs[i] * f.RInv) % f.q;
        var p1 := (input * key.ic[i + 1]) % f.q;
        CongMod(f.q, input * key.ic[i + 1]);
        assert input * key.ic[i + 1] == ic[i] * std[i];
        CongAdd(f.q, vkX, Dot(ic[..i], std[..i]), p1, ic[i] * std[i]);
        CongMod(f.q, vkX + p1);
        vkX := (vkX + p1) % f.q;
      }
      assert ic[..|ic|] == ic && std[..|std|] == std;
      CongAdd(f.q, vkX, Dot(ic, std), key.ic[0], key.ic[0]);
      CongMod(f.q, vkX + key.ic[0]);
      vkX := (vkX + key.ic[0]) % f.q;
      var negAlpha, negVkX, negC := (-key.alpha) % f.q, (-vkX) % f.q, (-proof.C) % f.q;
      var g1, g2 := [proof.A, negAlpha, negVkX, negC], [proof.B, key.beta, key.gamma, key.delta];
      FourPairs(proof, key, vkX, VkX(key, std), negAlpha, negVkX, negC);
      var ok := PairingCheck(g1, g2);
      return Ok(ok);
    }

    lemma NegMod(x: int, y: int, z: int)
      requires f.q > 0 && Cong(f.q, x, y)
      ensures Cong(f.q, ((-x) % f.q) * z, -(y * z))
    {
      CongNeg(f.q, x, y);
      CongMod(f.q, -x);
      CongMul(f.q, (-x) % f.q, -y, z, z);
      assert -y * z == -(y * z);
    }

    lemma FourPairs(proof: Proof, key: VerificationKey, vkX: int, x: int, negAlpha: int, negVkX: int, negC: int)
      requires Valid() && Cong(f.q, vkX, x)
      requires negAlpha == (-key.alpha) % f.q && negVkX == (-vkX) % f.q && negC == (-proof.C) % f.q
      ensures Cong(f.q, PairSum([proof.A, negAlpha, negVkX, negC], [proof.B, key.beta, key.gamma, key.delta]), 0)
        <==> Cong(f.q, proof.A * proof.B, key.alpha * key.beta + x * key.gamma + proof.C * key.delta)
    {
      DotFour(proof.A, negAlpha, negVkX, negC, proof.B, key.beta, key.gamma, key.delta);
      NegMod(key.alpha, key.alpha, key.beta);
      NegMod(vkX, x, key.gamma);
      NegMod(proof.C, proof.C, key.delta);
      var l, a, b, c := proof.A * proof.B, key.alpha * key.beta, x * key.gamma, proof.C * key.delta;
      FourTerms(l, negAlpha * key.beta, a, negVkX * key.gamma, b, negC * key.delta, c);
    }

    lemma DotFour(a: int, b: int, c: int, d: int, x: int, y: int, z: int, w: int)
      ensures Dot([a, b, c, d], [x, y, z, w]) == a * x + b * y + c * z + d * w
    {
      DotSnoc([], [], a, x);
      DotSnoc([a], [x], b, y);
      DotSnoc([a, b], [x, y], c, z);
      DotSnoc([a, b, c], [x, y, z], d, w);
      assert [a] + [b] == [a, b] && [a, b] + [c] == [a, b, c] && [a, b, c] + [d] == [a, b, c, d];
      assert [x] + [y] == [x, y] && [x, y] + [z] == [x, y, z] && [x, y, z] + [w] == [x, y, z, w];
      assert [] + [a] == [a] && [] + [x] == [x];
    }

    lemma DotSnoc(u: seq<int>, v: seq<int>, p: int, r: int)
      requires |u| == |v|
      ensures Dot(u + [p], v + [r]) == Dot(u, v) + p * r
    {
      assert (u + [p])[..|u|] == u && (v + [r])[..|v|] == v;
    }

    lemma FourTerms(l: int, na: int, a: int, nb: int, b: int, nc: int, c: int)
      requires f.q > 0 && Cong(f.q, na, -a) && Cong(f.q, nb, -b) && Cong(f.q, nc, -c)
      ensures Cong(f.q, l + na + nb + nc, 0) <==> Cong(f.q, l, a + b + c)
    {
      CongAdd(f.q, na, -a, nb, -b);
      CongAdd(f.q, na + nb, -a + -b, nc, -c);
      var t := a + b + c;
      CongAdd(f.q, l, l, na + nb + nc, -t);
      if Cong(f.q, l, t) {
        CongSub(f.q, l, t, t, t);
      }
      if Cong(f.q, l + -t, 0) {
        CongAdd(f.q, l + -t, 0, t, t);
      }
    }

    /** The public signals in stored form, as the prover writes them and the verifier reads them. */
    function PublicInputs(w: seq<int>, nPublic: nat): (r: seq<int>)
      requires f.q > 0 && nPublic < |w|
      ensures |r| == nPublic
    {
      seq(nPublic, i requires 0 <= i < nPublic => (w[i + 1] * f.R) % f.q)
    }

    lemma UnstoredPublic(w: seq<int>, nPublic: nat)
      requires f.Valid() && nPublic < |w|
      ensures CongSeq(f.q, Unstored(PublicInputs(w, nPublic)), w[1..nPublic + 1])
    {
      var u := Unstored(PublicInputs(w, nPublic));
      forall i | 0 <= i < nPublic ensures Cong(f.q, u[i], w[1..nPublic + 1][i]) {
        var x := w[i + 1];
        CongMod(f.q, x * f.R);
        assert x * f.R == f.R * x;
        Unstore(f, PublicInputs(w, nPublic)[i], x);
      }
    }

    lemma AcceptsSameInputs(key: VerificationKey, x: seq<int>, y: seq<int>, proof: Proof)
      requires f.q > 0 && |x| + 1 == |key.ic| && CongSeq(f.q, x, y)
      ensures Accepts(f.q, key, x, proof) <==> Accepts(f.q, key, y, proof)
    {
      CongDot(f.q, x, y, key.ic[1..]);
      DotComm(x, key.ic[1..]);
      DotComm(y, key.ic[1..]);
      var a, b := VkX(key, x), VkX(key, y);
      CongAdd(f.q, Dot(key.ic[1..], x), Dot(key.ic[1..], y), key.ic[0], key.ic[0]);
      CongMul(f.q, a, b, key.gamma, key.gamma);
      var rest := key.alpha * key.beta + proof.C * key.delta;
      CongAdd(f.q, a * key.gamma, b * key.gamma, rest, rest);
    }

    /**
     Prover and verifier end to end, over keys of one honest setup: the verifier accepts the
     prover's output exactly when the interpolated rows agree at tau, and in particular whenever
     the witness satisfies the constraints.
     */
    method ProveAndVerify(prover: P.Prover, key: VerificationKey, wtns: seq<int>, r: int, s: int,
                          ghost cs: Circuit, ghost td: Trapdoor) returns (ok: bool)
      requires Valid() && prover.f == f && Shape(f, prover.pk) && Honest(f, prover.pk, key, cs, td)
      requires |wtns| == prover.pk.nVars && wtns[0] == 1
      ensures var v := ValuesAt(f, cs, td, wtns); ok <==> Cong(f.q, v.product, v.o)
      ensures Satisfies(f, cs, wtns) ==> ok
    {
      hide Dot, HScalars, ValuesAt, Satisfies, ProofFor, Accepts;
      var proof := prover.Prove(wtns, r, s);
      var inputs := PublicInputs(wtns, prover.pk.nPublic);
      var verdict := Verify(proof, inputs, key);
      ok := verdict.value;
      UnstoredPublic(wtns, prover.pk.nPublic);
      AcceptsSameInputs(key, Unstored(inputs), wtns[1..prover.pk.nPublic + 1], proof);
      AcceptedIff(f, prover.pk, key, cs, td, wtns, r, s, proof);
      if Satisfies(f, cs, wtns) {
        Complete(f, prover.pk, key, cs, td, wtns, r, s, proof);
      }
    }
  }
}
