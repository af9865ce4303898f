/**
 The Miller loop over a signed-digit array.  Points are formal sums of Q, its Frobenius image Q1
 and the point N = -Q2; the accumulated field element is tracked as the formal product of line
 values that it is, each with its exponent.
 */
module MillerLoop {

  /** k·Q + a·Q1 + b·N */
  datatype Point = Point(k: int, a: int, b: int)

  /** The tangent at a point, the chord through a point and Q or -Q, and the chord to another point. */
  datatype Line = Tangent(at: Point) | PlusQ(at: Point) | MinusQ(at: Point) | Chord(at: Point, to: Point)

  datatype Factor = Factor(line: Line, exp: int)

  const ORIGIN: Point := Point(0, 0, 0)
  const Q1: Point := Point(0, 1, 0)
  const N: Point := Point(0, 0, 1)

  function Multiple(k: int): Point { Point(k, 0, 0) }

  function Sum(p: Point, r: Point): Point { Point(p.k + r.k, p.a + r.a, p.b + r.b) }

  predicate IsDigits(d: seq<int>)
  {
    |d| > 0 && d[|d| - 1] == 1 && forall i {:trigger d[i]} | 0 <= i < |d| :: -1 <= d[i] <= 1
  }

  /** The value of the digits from position i upwards, position i counting once. */
  function Horner(d: seq<int>, i: nat): int
    requires i < |d|
    decreases |d| - i
  {
    if i == |d| - 1 then d[i] else 2 * Horner(d, i + 1) + d[i]
  }

  function Squared(f: seq<Factor>): (r: seq<Factor>)
    ensures |r| == |f|
  {
    if f == [] then [] else Squared(f[..|f| - 1]) + [f[|f| - 1].(exp := 2 * f[|f| - 1].exp)]
  }

  /** The lines of the round for digit i: the tangent at the running multiple, then perhaps a chord. */
  function RoundLines(d: seq<int>, i: nat): seq<Line>
    requires i + 1 < |d|
  {
    var t := Horner(d, i + 1);
    [Tangent(Multiple(t))]
    + (if d[i] == 1 then [PlusQ(Multiple(2 * t))] else if d[i] == -1 then [MinusQ(Multiple(2 * t))] else [])
  }

  function Raised(lines: seq<Line>, exp: int): (r: seq<Factor>)
    ensures |r| == |lines|
  {
    if lines == [] then [] else Raised(lines[..|lines| - 1], exp) + [Factor(lines[|lines| - 1], exp)]
  }

  /** The product after the digits from position i upwards, with every line at its final power of two. */
  function Product(d: seq<int>, i: nat, scale: int): seq<Factor>
    requires i < |d|
    decreases |d| - i
  {
    if i == |d| - 1 then [] else Product(d, i + 1, 2 * scale) + Raised(RoundLines(d, i), scale)
  }

  lemma {:induction false} SquaredConcat(f: seq<Factor>, g: seq<Factor>)
    ensures Squared(f + g) == Squared(f) + Squared(g)
  {
    if g == [] {
      assert f + g == f;
    } else {
      var n := |g| - 1;
      SquaredConcat(f, g[..n]);
      assert (f + g)[..|f + g| - 1] == f + g[..n];
    }
  }

  lemma {:induction false} SquaredRaised(lines: seq<Line>, exp: int)
    ensures Squared(Raised(lines, exp)) == Raised(lines, 2 * exp)
  {
    if lines == [] {
    } else {
      var n := |lines| - 1;
      SquaredRaised(lines[..n], exp);
      assert Raised(lines, exp)[..n] == Raised(lines[..n], exp);
    }
  }

  /** Squaring the product doubles every power. */
  lemma {:induction false} SquaredProduct(d: seq<int>, i: nat, scale: int)
    requires i < |d|
    ensures Squared(Product(d, i, scale)) == Product(d, i, 2 * scale)
    decreases |d| - i
  {
    if i >= |d| - 1 {
    } else {
      SquaredProduct(d, i + 1, 2 * scale);
      SquaredConcat(Product(d, i + 1, 2 * scale), Raised(RoundLines(d, i), scale));
      SquaredRaised(RoundLines(d, i), scale);
    }
  }

  /** One round: square unless it is the first, multiply by the tangent, then by a chord for a non-zero digit. */
  method Round(d: seq<int>, i: nat, f: seq<Factor>, t: Point) returns (ret: seq<Factor>, r: Point)
    requires i + 1 < |d| && t == Multiple(Horner(d, i + 1)) && f == Product(d, i + 1, 1) && -1 <= d[i] <= 1
    ensures r == Multiple(Horner(d, i)) && ret == Product(d, i, 1)
  {
    SquaredProduct(d, i + 1, 1);
    ret := f;
    if i + 1 != |d| - 1 {
      ret := Squared(ret);
    }
    assert ret == Product(d, i + 1, 2);
    ghost var before := ret;
    ret := ret + [Factor(Tangent(t), 1)];
    r := Sum(t, t);
    if d[i] == 1 {
      ret := ret + [Factor(PlusQ(r), 1)];
      r := Sum(r, Multiple(1));
    } else if d[i] == -1 {
      ret := ret + [Factor(MinusQ(r), 1)];
      r := Sum(r, Multiple(-1));
    }
    RoundRaised(d, i);
    assert ret == before + Raised(RoundLines(d, i), 1);
  }

  /**
   The loop with its two closing lines.  The running point is the multiple of Q that the digits
   read so far make; the accumulator is each line raised to its power of two; leaving out the
   first squaring changes nothing, since the accumulator is still one.
   */
  method Miller(d: seq<int>) returns (ret: seq<Factor>, r: Point)
    requires IsDigits(d)
    ensures r == Sum(Sum(Multiple(Horner(d, 0)), Q1), N)
    ensures ret == Product(d, 0, 1)
      + [Factor(Chord(Multiple(Horner(d, 0)), Q1), 1), Factor(Chord(Sum(Multiple(Horner(d, 0)), Q1), N), 1)]
  {
    ret := [];
    r := Multiple(1);
    var i := |d| - 1;
    while i > 0
      invariant 0 <= i < |d|
      invariant r == Multiple(Horner(d, i)) && ret == Product(d, i, 1)
    {
      ret, r := Round(d, i - 1, ret, r);
      i := i - 1;
    }
    ret := ret + [Factor(Chord(r, Q1), 1)];
    r := Sum(r, Q1);
    ret := ret + [Factor(Chord(r, N), 1)];
    r := Sum(r, N);
  }

  lemma RoundRaised(d: seq<int>, i: nat)
    requires i + 1 < |d|
    ensures var t := Horner(d, i + 1);
      Raised(RoundLines(d, i), 1) ==
        [Factor(Tangent(Multiple(t)), 1)]
        + (if d[i] == 1 then [Factor(PlusQ(Multiple(2 * t)), 1)]
           else if d[i] == -1 then [Factor(MinusQ(Multiple(2 * t)), 1)] else [])
  {
    var lines := RoundLines(d, i);
    assert Raised(lines[..1], 1) == [Factor(lines[0], 1)] by { assert lines[..1][..0] == []; }
    if |lines| == 2 {
      assert lines[..|lines| - 1] == lines[..1];
    } else {
      assert lines == lines[..1];
    }
  }

  // ---------------------------------------------------------------------------------------
  // The function that the product is: its divisor
  // ---------------------------------------------------------------------------------------

  function One(b: bool): int { if b then 1 else 0 }

  /**
   Multiplicity of a line at a point, with vertical lines divided out: they are erased by the final
   exponentiation, so that (-P) may be replaced by 2(O) - (P).
   */
  function LineDivisor(l: Line, p: Point): int
  {
    match l
    case Tangent(t) => 2 * One(p == t) - One(p == Sum(t, t)) - One(p == ORIGIN)
    case PlusQ(t) => One(p == t) + One(p == Multiple(1)) - One(p == Sum(t, Multiple(1))) - One(p == ORIGIN)
    case MinusQ(t) => One(p == t) - One(p == Multiple(1)) - One(p == Sum(t, Multiple(-1))) + One(p == ORIGIN)
    case Chord(t, s) => One(p == t) + One(p == s) - One(p == Sum(t, s)) - One(p == ORIGIN)
  }

  function Divisor(f: seq<Factor>, p: Point): int
  {
    if f == [] then 0
    else Divisor(f[..|f| - 1], p) + f[|f| - 1].exp * LineDivisor(f[|f| - 1].line, p)
  }

  /** The divisor of the Miller function f_m: m(Q) - (mQ) - (m-1)(O). */
  function MillerDivisor(m: int, p: Point): int
  {
    m * One(p == Multiple(1)) - One(p == Multiple(m)) - (m - 1) * One(p == ORIGIN)
  }

  lemma {:induction false} DivisorConcat(f: seq<Factor>, g: seq<Factor>, p: Point)
    ensures Divisor(f + g, p) == Divisor(f, p) + Divisor(g, p)
  {
    if g == [] {
      assert f + g == f;
    } else {
      var n := |g| - 1;
      DivisorConcat(f, g[..n], p);
      assert (f + g)[..|f + g| - 1] == f + g[..n];
    }
  }

  lemma {:induction false} DivisorSquared(f: seq<Factor>, p: Point)
    ensures Divisor(Squared(f), p) == 2 * Divisor(f, p)
  {
    if f == [] {
    } else {
      var n := |f| - 1;
      DivisorSquared(f[..n], p);
      assert Squared(f)[..n] == Squared(f[..n]);
      DoubleTerm(f[n].exp, LineDivisor(f[n].line, p));
    }
  }

  lemma DoubleTerm(e: int, x: int)
    ensures (2 * e) * x == 2 * (e * x)
  {
  }

  lemma RoundDivisor(d: seq<int>, i: nat, p: Point)
    requires IsDigits(d) && i + 1 < |d|
    ensures 2 * MillerDivisor(Horner(d, i + 1), p) + Divisor(Raised(RoundLines(d, i), 1), p)
      == MillerDivisor(Horner(d, i), p)
  {
    hide LineDivisor, MillerDivisor;
    var t := Horner(d, i + 1);
    RoundRaised(d, i);
    var tangent := Factor(Tangent(Multiple(t)), 1);
    DivisorOne(tangent, p);
    if d[i] == 1 {
      DivisorTwo(tangent, Factor(PlusQ(Multiple(2 * t)), 1), p);
    } else if d[i] == -1 {
      DivisorTwo(tangent, Factor(MinusQ(Multiple(2 * t)), 1), p);
    }
    RoundIdentity(t, d[i], p);
  }

  lemma DivisorOne(x: Factor, p: Point)
    requires x.exp == 1
    ensures Divisor([x], p) == LineDivisor(x.line, p)
  {
    hide LineDivisor;
    assert [x][..0] == [];
  }

  lemma DivisorTwo(x: Factor, y: Factor, p: Point)
    requires x.exp == y.exp == 1
    ensures Divisor([x, y], p) == LineDivisor(x.line, p) + LineDivisor(y.line, p)
  {
    hide LineDivisor;
    assert [x, y][..1] == [x];
    DivisorOne(x, p);
  }

  /** Doubling and adding on the level of divisors. */
  lemma RoundIdentity(t: int, digit: int, p: Point)
    requires -1 <= digit <= 1
    ensures MillerDivisor(2 * t + digit, p)
         == 2 * MillerDivisor(t, p) + LineDivisor(Tangent(Multiple(t)), p)
            + if digit == 1 then LineDivisor(PlusQ(Multiple(2 * t)), p)
              else if digit == -1 then LineDivisor(MinusQ(Multiple(2 * t)), p) else 0
  {
  }

  lemma LeadingDigit(p: Point)
    ensures MillerDivisor(1, p) == 0
  {
  }

  /**
   The product over the digits from position i upwards is the Miller function of the number they
   make: for any signed-digit array with leading digit one.
   */
  lemma {:induction false} ProductIsMillerFunction(d: seq<int>, i: nat, p: Point)
    requires IsDigits(d) && i < |d|
    ensures Divisor(Product(d, i, 1), p) == MillerDivisor(Horner(d, i), p)
    decreases |d| - i
  {
    hide RoundLines, Raised, MillerDivisor, LineDivisor;
    if i == |d| - 1 {
      LeadingDigit(p);
    } else {
      ProductIsMillerFunction(d, i + 1, p);
      SquaredProduct(d, i + 1, 1);
      DivisorSquared(Product(d, i + 1, 1), p);
      DivisorConcat(Product(d, i + 1, 2), Raised(RoundLines(d, i), 1), p);
      RoundDivisor(d, i, p);
    }
  }

  /** With the closing lines: m(Q) + (Q1) + (N) - (mQ + Q1 + N) - (m+1)(O). */
  lemma ClosingDivisor(d: seq<int>, p: Point)
    requires IsDigits(d)
    ensures var m := Horner(d, 0);
      Divisor(Product(d, 0, 1) + [Factor(Chord(Multiple(m), Q1), 1), Factor(Chord(Sum(Multiple(m), Q1), N), 1)], p)
      == m * One(p == Multiple(1)) + One(p == Q1) + One(p == N)
         - One(p == Sum(Sum(Multiple(m), Q1), N)) - (m + 1) * One(p == ORIGIN)
  {
    var m := Horner(d, 0);
    var tail := [Factor(Chord(Multiple(m), Q1), 1), Factor(Chord(Sum(Multiple(m), Q1), N), 1)];
    ProductIsMillerFunction(d, 0, p);
    DivisorConcat(Product(d, 0, 1), tail, p);
    assert tail[..1][..0] == [] && tail[..1] == [tail[0]];
    assert Divisor(tail, p) == Divisor(tail[..1], p) + LineDivisor(tail[1].line, p);
  }

  // ---------------------------------------------------------------------------------------
  // The array in the source
  // ---------------------------------------------------------------------------------------

  const D0: seq<int> := [0, 0, 0, 1, 0, 1, 0, -1, 0, 0, 1, -1, 0]
  const D1: seq<int> := [0, 1, 0, 0, 1, 1, 0, -1, 0, 0, 1, 0, -1]
  const D2: seq<int> := [0, 0, 0, 0, 1, 1, 1, 0, 0, -1, 0, 0, 1]
  const D3: seq<int> := [0, 0, 0, 0, 0, -1, 0, 0, 1, 1, 0, 0, -1]
  const D4: seq<int> := [0, 0, 0, 1, 1, 0, -1, 0, 0, 1, 0, 1, 1]

  const SIX_U_PLUS_2_NAF: seq<int> := D0 + D1 + D2 + D3 + D4

  /** Value of a digit block, on top of what the higher blocks make. */
  function Block(d: seq<int>, above: int): int
    decreases d
  {
    if |d| == 0 then above else 2 * Block(d[1..], above) + d[0]
  }

  lemma {:induction false} BlockIsHorner(d: seq<int>, i: nat)
    requires i < |d|
    ensures Block(d[i..], 0) == Horner(d, i)
    decreases |d| - i
  {
    assert d[i..][1..] == d[i + 1..];
    if i >= |d| - 1 {
    } else {
      BlockIsHorner(d, i + 1);
    }
  }

  lemma {:induction false} BlockConcat(d: seq<int>, e: seq<int>, above: int)
    ensures Block(d + e, above) == Block(d, Block(e, above))
  {
    if d == [] {
      assert d + e == e;
    } else {
      assert (d + e)[1..] == d[1..] + e;
      BlockConcat(d[1..], e, above);
    }
  }

  lemma Block4() ensures Block(D4, 0) == 6616 { }

  lemma Block3() ensures Block(D3, 6616) == 54194912 { }

  lemma Block2() ensures Block(D2, 54194912) == 443964722800 { }

  lemma Block1() ensures Block(D1, 443964722800) == 3636959009174450 { }

  lemma Block0() ensures Block(D0, 3636959009174450) == 29793968203157093288 { }

  /** The source's array makes 6u + 2. */
  lemma NafIsSixUPlus2()
    ensures IsDigits(SIX_U_PLUS_2_NAF) && |SIX_U_PLUS_2_NAF| == 65
    ensures Horner(SIX_U_PLUS_2_NAF, 0) == 6 * 4965661367192848881 + 2
  {
    hide Block, Horner;
    assert SIX_U_PLUS_2_NAF[0..] == SIX_U_PLUS_2_NAF;
    BlockIsHorner(SIX_U_PLUS_2_NAF, 0);
    Blocks(D0, D1, D2, D3, D4);
    Block4();
    Block3();
    Block2();
    Block1();
    Block0();
  }

  lemma Blocks(a: seq<int>, b: seq<int>, c: seq<int>, d: seq<int>, e: seq<int>)
    ensures Block(a + b + c + d + e, 0) == Block(a, Block(b, Block(c, Block(d, Block(e, 0)))))
  {
    BlockConcat(a + b + c + d, e, 0);
    BlockConcat(a + b + c, d, Block(e, 0));
    BlockConcat(a + b, c, Block(d, Block(e, 0)));
    BlockConcat(a, b, Block(c, Block(d, Block(e, 0))));
  }
}
