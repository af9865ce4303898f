/** The prover as it runs: vectors a, b, c updated in place, then the proof points. */
module Groth16Prover {
  import opened Modular
  import opened Polynomials
  import opened Fourier
  import opened Coset
  import opened Groth16

  class Prover {
    const f: Field
    const pk: ProvingKey

    constructor (f: Field, pk: ProvingKey)
      requires Shape(f, pk)
      ensures this.f == f && this.pk == pk
    {
      this.f, this.pk := f, pk;
    }

    /** Multiexponentiation, in exponents. */
    method MultiMulByScalar(points: seq<int>, scalars: seq<int>) returns (p: int)
      requires f.q > 0 && |points| == |scalars|
      ensures Cong(f.q, p, Dot(points, scalars))
    {
      p := 0;
      for i := 0 to |points|
        invariant Cong(f.q, p, Dot(points[..i], scalars[..i]))
      {
        var d := Dot(points[..i], scalars[..i]);
        assert points[..i + 1][..i] == points[..i] && scalars[..i + 1][..i] == scalars[..i];
        CongAdd(f.q, p, d, points[i] * scalars[i], points[i] * scalars[i]);
        CongMod(f.q, p + points[i] * scalars[i]);
        p := (p + points[i] * scalars[i]) % f.q;
      }
      assert points[..|points|] == points && scalars[..|scalars|] == scalars;
    }

    /** The coefficient loop: one stored product per entry, added to its row of a or b. */
    method ProcessCoefs(wtns: seq<int>, a: array<int>, b: array<int>)
      requires Shape(f, pk) && |wtns| == pk.nVars && a != b && a.Length == b.Length == f.Size()
      modifies a, b
      ensures a[..] == RowSums(f, pk.coefs, wtns, true) && b[..] == RowSums(f, pk.coefs, wtns, false)
    {
      for i := 0 to a.Length
        invariant forall j | 0 <= j < i :: a[j] == 0 && b[j] == 0
      {
        a[i], b[i] := 0, 0;
      }
      assert a[..] == Zeros(f.Size()) && b[..] == Zeros(f.Size());
      assert pk.coefs[..0] == [];
      for i := 0 to |pk.coefs|
        invariant a[..] == RowSums(f, pk.coefs[..i], wtns, true) && b[..] == RowSums(f, pk.coefs[..i], wtns, false)
      {
        assert pk.coefs[..i + 1][..i] == pk.coefs[..i];
        var k := pk.coefs[i];
        var ab := if k.m == 0 then a else b;
        var aux := f.MontMul(wtns[k.s], k.val);
        ab[k.c] := (ab[k.c] + aux) % f.q;
      }
      assert pk.coefs[..|pk.coefs|] == pk.coefs;
    }

    method FftInPlace(a: array<int>)
      requires f.q > 0
      modifies a
      ensures a[..] == Fft(f, old(a[..]))
    {
      var r := Fft(f, a[..]);
      for i := 0 to a.Length
        invariant forall j | 0 <= j < i :: a[j] == r[j]
      {
        a[i] := r[i];
      }
    }

    method IfftInPlace(a: array<int>)
      requires f.q > 0
      modifies a
      ensures a[..] == Ifft(f, old(a[..]))
    {
      var r := Ifft(f, a[..]);
      for i := 0 to a.Length
        invariant forall j | 0 <= j < i :: a[j] == r[j]
      {
        a[i] := r[i];
      }
    }

    method ShiftInPlace(a: array<int>)
      requires f.q > 0
      modifies a
      ensures a[..] == Shift(f, old(a[..]))
    {
      for i := 0 to a.Length
        invariant a[..i] == Shift(f, old(a[..])[..i])
        invariant a[i..] == old(a[..])[i..]
      {
        assert old(a[..])[..i + 1][..i] == old(a[..])[..i];
        a[i] := f.MontMul(a[i], RootAt(f, i));
        assert a[..i + 1] == a[..i] + [a[i]];
      }
      assert a[..] == a[..a.Length] && old(a[..])[..a.Length] == old(a[..]);
    }

    /** The inverse transform, shift and transform of one vector. */
    method ToCoset(a: array<int>)
      requires f.q > 0
      modifies a
      ensures a[..] == Pipeline(f, old(a[..]))
    {
      IfftInPlace(a);
      ShiftInPlace(a);
      FftInPlace(a);
    }

    method MultiplyInto(c: array<int>, a: array<int>, b: array<int>)
      requires f.q > 0 && a.Length == b.Length == c.Length && c != a && c != b
      modifies c
      ensures c[..] == Products(f, a[..], b[..])
    {
      for i := 0 to c.Length
        invariant forall j | 0 <= j < i :: c[j] == f.MontMul(a[j], b[j])
      {
        c[i] := f.MontMul(a[i], b[i]);
      }
    }

    /** a := a·b - c, out of stored form. */
    method CombineInPlace(a: array<int>, b: array<int>, c: array<int>)
      requires f.q > 0 && a.Length == b.Length == c.Length && a != b && a != c
      modifies a
      ensures a[..] == Combine(f, old(a[..]), b[..], c[..])
    {
      for i := 0 to a.Length
        invariant forall j | 0 <= j < i :: a[j] == Combine(f, old(a[..]), b[..], c[..])[j]
        invariant forall j | i <= j < a.Length :: a[j] == old(a[j])
      {
        a[i] := f.MontMul(a[i], b[i]);
        a[i] := (a[i] - c[i]) % f.q;
        a[i] := (a[i] * f.RInv) % f.q;
      }
    }

    /** From the witness to the scalars of the H multiexponentiation. */
    method ComputeH(wtns: seq<int>) returns (a: array<int>)
      requires Shape(f, pk) && |wtns| == pk.nVars
      ensures fresh(a) && a[..] == HScalars(f, pk.coefs, wtns)
    {
      hide Products, Combine, Pipeline, RowSums;
      var n := f.Size();
      a := new int[n];
      var b, c := new int[n], new int[n];
      ProcessCoefs(wtns, a, b);
      MultiplyInto(c, a, b);
      ToCoset(a);
      ToCoset(b);
      ToCoset(c);
      CombineInPlace(a, b, c);
    }

    /** x + y and x - y and k·x on points. */
    function Add(x: int, y: int): int requires f.q > 0 { (x + y) % f.q }
    function Sub(x: int, y: int): int requires f.q > 0 { (x - y) % f.q }
    function MulByScalar(x: int, k: int): int requires f.q > 0 { (k * x) % f.q }

    method Prove(wtns: seq<int>, r: int, s: int) returns (proof: Proof)
      requires Shape(f, pk) && |wtns| == pk.nVars
      ensures ProofFor(f, pk, wtns, r, s, proof)
    {
      hide Dot, HScalars, Cong;
      var piA := MultiMulByScalar(pk.pointsA, wtns);
      var piB1 := MultiMulByScalar(pk.pointsB1, wtns);
      var piB := MultiMulByScalar(pk.pointsB2, wtns);
      var piC := MultiMulByScalar(pk.pointsC, wtns[pk.nPublic + 1..]);
      var a := ComputeH(wtns);
      var piH := MultiMulByScalar(pk.pointsH, a[..]);
      ghost var a0, b1, b2, c0, h := Dot(pk.pointsA, wtns), Dot(pk.pointsB1, wtns), Dot(pk.pointsB2, wtns),
        Dot(pk.pointsC, wtns[pk.nPublic + 1..]), Dot(pk.pointsH, HScalars(f, pk.coefs, wtns));

      PointStep(piA, a0, pk.alpha1, r, pk.delta1);
      piA := Add(piA, pk.alpha1);
      piA := Add(piA, MulByScalar(pk.delta1, r));
      PointStep(piB, b2, pk.beta2, s, pk.delta2);
      piB := Add(piB, pk.beta2);
      piB := Add(piB, MulByScalar(pk.delta2, s));
      PointStep(piB1, b1, pk.beta1, s, pk.delta1);
      piB1 := Add(piB1, pk.beta1);
      piB1 := Add(piB1, MulByScalar(pk.delta1, s));

      ghost var x, y := a0 + pk.alpha1 + r * pk.delta1, b1 + pk.beta1 + s * pk.delta1;
      BlindStep(piC, c0, piH, h, s, piA, x, r, piB1, y, pk.delta1);
      piC := Add(piC, piH);
      piC := Add(piC, MulByScalar(piA, s));
      piC := Add(piC, MulByScalar(piB1, r));
      var rs := (f.MontMul(r, s) * f.R) % f.q;
      piC := Sub(piC, MulByScalar(pk.delta1, rs));
      proof := Proof(piA, piB, piC);
    }

    lemma AddCong(x: int, x': int, y: int, y': int)
      requires f.q > 0 && Cong(f.q, x, x') && Cong(f.q, y, y')
      ensures Cong(f.q, Add(x, y), x' + y') && Cong(f.q, Sub(x, y), x' - y')
    {
      CongAdd(f.q, x, x', y, y');
      CongSub(f.q, x, x', y, y');
      CongMod(f.q, x + y);
      CongMod(f.q, x - y);
    }

    lemma MulCong(k: int, k': int, x: int, x': int)
      requires f.q > 0 && Cong(f.q, k, k') && Cong(f.q, x, x')
      ensures Cong(f.q, MulByScalar(x, k), k' * x')
    {
      CongMul(f.q, k, k', x, x');
      CongMod(f.q, k * x);
    }

    lemma PointStep(p: int, d: int, base: int, k: int, delta: int)
      requires f.q > 0 && Cong(f.q, p, d)
      ensures Cong(f.q, Add(Add(p, base), MulByScalar(delta, k)), d + base + k * delta)
    {
      AddCong(p, d, base, base);
      MulCong(k, k, delta, delta);
      AddCong(Add(p, base), d + base, MulByScalar(delta, k), k * delta);
    }

    lemma ProductScalar(r: int, s: int)
      requires f.Valid()
      ensures Cong(f.q, (f.MontMul(r, s) * f.R) % f.q, r * s)
    {
      var z, m := r * s, f.MontMul(r, s);
      assert m == (z * f.RInv) % f.q;
      hide Cong, f.MontMul;
      CongMod(f.q, z * f.RInv);
      Self(f.R);
      CongMul(f.q, m, z * f.RInv, f.R, f.R);
      Self(z);
      CongMul(f.q, f.R * f.RInv, 1, z, z);
      Reorder(z, f.RInv, f.R);
      CongTransitive(f.q, m * f.R, f.R * f.RInv * z, z);
      CongMod(f.q, m * f.R);
      CongTransitive(f.q, (m * f.R) % f.q, m * f.R, z);
    }

    lemma Reorder(z: int, x: int, y: int)
      ensures z * x * y == y * x * z
    {
      assert z * x == x * z && x * z * y == y * (x * z);
    }

    lemma BlindStep(c: int, c0: int, h: int, h0: int, s: int, a: int, x: int, r: int, b: int, y: int, delta: int)
      requires f.Valid() && Cong(f.q, c, c0) && Cong(f.q, h, h0) && Cong(f.q, a, x) && Cong(f.q, b, y)
      ensures Cong(f.q,
        Sub(Add(Add(Add(c, h), MulByScalar(a, s)), MulByScalar(b, r)),
          MulByScalar(delta, (f.MontMul(r, s) * f.R) % f.q)),
        c0 + h0 + s * x + r * y - r * s * delta)
    {
      hide Cong, Add, Sub, MulByScalar;
      var rs := (f.MontMul(r, s) * f.R) % f.q;
      ProductScalar(r, s);
      AddCong(c, c0, h, h0);
      Self(s);
      Self(r);
      Self(delta);
      MulCong(s, s, a, x);
      MulCong(r, r, b, y);
      MulCong(rs, r * s, delta, delta);
      AddCong(Add(c, h), c0 + h0, MulByScalar(a, s), s * x);
      AddCong(Add(Add(c, h), MulByScalar(a, s)), c0 + h0 + s * x, MulByScalar(b, r), r * y);
      AddCong(Add(Add(Add(c, h), MulByScalar(a, s)), MulByScalar(b, r)), c0 + h0 + s * x + r * y,
              MulByScalar(delta, rs), r * s * delta);
    }

    lemma Self(x: int)
      requires f.q > 0
      ensures Cong(f.q, x, x)
    {
    }
  }
}
