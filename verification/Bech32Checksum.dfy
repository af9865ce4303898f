/**
 The Bech32 checksum: a shift register over 30-bit states.  Symbols are 30-bit vectors too, which
 covers both five-bit data and the high parts of any prefix character.
 */
module Bech32Checksum {

  /** Exclusive or, named so that a proof can use its laws without looking at single bits. */
  function Xor(a: bv30, b: bv30): bv30 { a ^ b }

  const GEN: seq<bv30> := [0x3b6a57b2, 0x26508e6d, 0x1ea119fa, 0x3d4233dd, 0x2a1462b3]

  /** A generator chosen by one bit. */
  function Chosen(bit: bv30, g: bv30): bv30 { if bit == 1 then g else 0 }

  function Bit0(b: bv30): bv30 { Chosen(b & 1, GEN[0]) }
  function Bit1(b: bv30): bv30 { Chosen((b >> 1) & 1, GEN[1]) }
  function Bit2(b: bv30): bv30 { Chosen((b >> 2) & 1, GEN[2]) }
  function Bit3(b: bv30): bv30 { Chosen((b >> 3) & 1, GEN[3]) }
  function Bit4(b: bv30): bv30 { Chosen((b >> 4) & 1, GEN[4]) }

  /** The combined contribution of the five bits shifted out. */
  function Generator(b: bv30): bv30
  {
    Xor(Xor(Xor(Xor(Bit0(b), Bit1(b)), Bit2(b)), Bit3(b)), Bit4(b))
  }

  function Shifted(chk: bv30): bv30 { (chk & 0x1ffffff) << 5 }

  function Top(chk: bv30): bv30 { chk >> 25 }

  /** One symbol: shift by five, xor the symbol and the generators of the bits that fell out. */
  function Step(chk: bv30, v: bv30): bv30
  {
    Xor(Xor(Shifted(chk), v), Generator(Top(chk)))
  }

  function PolymodFrom(chk: bv30, values: seq<bv30>): bv30
    decreases |values|
  {
    if values == [] then chk else PolymodFrom(Step(chk, values[0]), values[1..])
  }

  /** The outer loop of `_bech32_polymod`. */
  method Polymod(values: seq<bv30>) returns (chk: bv30)
    ensures chk == PolymodFrom(1, values)
  {
    hide Step;
    chk := 1;
    for k := 0 to |values|
      invariant PolymodFrom(1, values) == PolymodFrom(chk, values[k..])
    {
      chk := Absorb(chk, values[k]);
      assert values[k..][1..] == values[k + 1..];
    }
  }

  /** Its body, with the inner loop over the five generators written out. */
  method Absorb(chk: bv30, v: bv30) returns (r: bv30)
    ensures r == Step(chk, v)
  {
    hide Xor, Shifted, Top, Bit0, Bit1, Bit2, Bit3, Bit4;
    var b := Top(chk);
    r := Xor(Shifted(chk), v);
    XorAssoc(r, Bit0(b), Bit1(b), Bit2(b), Bit3(b), Bit4(b));
    r := Xor(r, Bit0(b));
    r := Xor(r, Bit1(b));
    r := Xor(r, Bit2(b));
    r := Xor(r, Bit3(b));
    r := Xor(r, Bit4(b));
  }

  lemma XorAssoc(x: bv30, g0: bv30, g1: bv30, g2: bv30, g3: bv30, g4: bv30)
    ensures Xor(Xor(Xor(Xor(Xor(x, g0), g1), g2), g3), g4) == Xor(x, Xor(Xor(Xor(Xor(g0, g1), g2), g3), g4))
  {
    hide Xor;
    XorRegroup(x, g0, g1);
    XorRegroup(x, Xor(g0, g1), g2);
    XorRegroup(x, Xor(Xor(g0, g1), g2), g3);
    XorRegroup(x, Xor(Xor(Xor(g0, g1), g2), g3), g4);
  }

  // ---------------------------------------------------------------------------------------
  // Linearity and injectivity of one step
  // ---------------------------------------------------------------------------------------

  /** Bit k of an exclusive or, for the five places that are read. */
  lemma BitOfXor(a: bv30, b: bv30)
    ensures Xor(a, b) & 1 == Xor(a & 1, b & 1)
    ensures (Xor(a, b) >> 1) & 1 == Xor((a >> 1) & 1, (b >> 1) & 1)
    ensures (Xor(a, b) >> 2) & 1 == Xor((a >> 2) & 1, (b >> 2) & 1)
    ensures (Xor(a, b) >> 3) & 1 == Xor((a >> 3) & 1, (b >> 3) & 1)
    ensures (Xor(a, b) >> 4) & 1 == Xor((a >> 4) & 1, (b >> 4) & 1)
  {
  }

  lemma OneBit(x: bv30)
    ensures x & 1 == 0 || x & 1 == 1
  {
  }

  lemma ChosenLinear(x: bv30, y: bv30, g: bv30)
    requires (x == 0 || x == 1) && (y == 0 || y == 1)
    ensures Chosen(Xor(x, y), g) == Xor(Chosen(x, g), Chosen(y, g))
  {
    hide Xor;
    XorLaws(x, y);
    XorLaws(x, 0);
    XorLaws(y, 0);
    XorLaws(g, 0);
    XorLaws(g, g);
    XorLaws(0, 0);
  }

  lemma Bit0Linear(a: bv30, b: bv30)
    ensures Bit0(Xor(a, b)) == Xor(Bit0(a), Bit0(b))
  {
    hide Xor;
    BitOfXor(a, b);
    OneBit(a);
    OneBit(b);
    ChosenLinear(a & 1, b & 1, GEN[0]);
  }

  lemma Bit1Linear(a: bv30, b: bv30)
    ensures Bit1(Xor(a, b)) == Xor(Bit1(a), Bit1(b))
  {
    hide Xor;
    BitOfXor(a, b);
    OneBit(a >> 1);
    OneBit(b >> 1);
    ChosenLinear((a >> 1) & 1, (b >> 1) & 1, GEN[1]);
  }

  lemma Bit2Linear(a: bv30, b: bv30)
    ensures Bit2(Xor(a, b)) == Xor(Bit2(a), Bit2(b))
  {
    hide Xor;
    BitOfXor(a, b);
    OneBit(a >> 2);
    OneBit(b >> 2);
    ChosenLinear((a >> 2) & 1, (b >> 2) & 1, GEN[2]);
  }

  lemma Bit3Linear(a: bv30, b: bv30)
    ensures Bit3(Xor(a, b)) == Xor(Bit3(a), Bit3(b))
  {
    hide Xor;
    BitOfXor(a, b);
    OneBit(a >> 3);
    OneBit(b >> 3);
    ChosenLinear((a >> 3) & 1, (b >> 3) & 1, GEN[3]);
  }

  lemma Bit4Linear(a: bv30, b: bv30)
    ensures Bit4(Xor(a, b)) == Xor(Bit4(a), Bit4(b))
  {
    hide Xor;
    BitOfXor(a, b);
    OneBit(a >> 4);
    OneBit(b >> 4);
    ChosenLinear((a >> 4) & 1, (b >> 4) & 1, GEN[4]);
  }

  lemma XorAssociates(a: bv30, b: bv30, c: bv30)
    ensures Xor(Xor(a, b), c) == Xor(a, Xor(b, c))
  {
  }

  lemma XorCommutes(a: bv30, b: bv30)
    ensures Xor(a, b) == Xor(b, a)
  {
  }

  lemma XorRegroup(a: bv30, b: bv30, c: bv30)
    ensures Xor(Xor(a, b), c) == Xor(a, Xor(b, c)) && Xor(Xor(a, b), c) == Xor(Xor(a, c), b)
  {
    hide Xor;
    XorAssociates(a, b, c);
    XorCommutes(b, c);
    XorAssociates(a, c, b);
  }

  lemma XorMiddle(a: bv30, b: bv30, c: bv30, d: bv30)
    ensures Xor(Xor(a, b), Xor(c, d)) == Xor(Xor(a, c), Xor(b, d))
  {
    hide Xor;
    XorRegroup(Xor(a, b), c, d);
    XorRegroup(a, b, c);
    XorRegroup(Xor(a, c), b, d);
  }

  lemma GeneratorLinear(a: bv30, b: bv30)
    ensures Generator(Xor(a, b)) == Xor(Generator(a), Generator(b))
  {
    Bit0Linear(a, b);
    Bit1Linear(a, b);
    Bit2Linear(a, b);
    Bit3Linear(a, b);
    Bit4Linear(a, b);
    hide Xor, Bit0, Bit1, Bit2, Bit3, Bit4;
    var a1, b1 := Xor(Bit0(a), Bit1(a)), Xor(Bit0(b), Bit1(b));
    var a2, b2 := Xor(a1, Bit2(a)), Xor(b1, Bit2(b));
    var a3, b3 := Xor(a2, Bit3(a)), Xor(b2, Bit3(b));
    XorMiddle(Bit0(a), Bit0(b), Bit1(a), Bit1(b));
    XorMiddle(a1, b1, Bit2(a), Bit2(b));
    XorMiddle(a2, b2, Bit3(a), Bit3(b));
    XorMiddle(a3, b3, Bit4(a), Bit4(b));
  }

  lemma ShiftedLinear(a: bv30, b: bv30)
    ensures Shifted(Xor(a, b)) == Xor(Shifted(a), Shifted(b)) && Top(Xor(a, b)) == Xor(Top(a), Top(b))
  {
  }

  /** The step is linear over the two-element field, jointly in state and symbol. */
  lemma StepLinear(a: bv30, b: bv30, v: bv30, w: bv30)
    ensures Step(Xor(a, b), Xor(v, w)) == Xor(Step(a, v), Step(b, w))
  {
    hide Xor, Shifted, Top, Generator;
    ShiftedLinear(a, b);
    GeneratorLinear(Top(a), Top(b));
    XorMiddle(Shifted(a), Shifted(b), v, w);
    XorMiddle(Xor(Shifted(a), v), Xor(Shifted(b), w), Generator(Top(a)), Generator(Top(b)));
  }

  lemma XorLaws(a: bv30, b: bv30)
    ensures Xor(a, b) == 0 <==> a == b
    ensures Xor(a, a) == 0 && Xor(a, 0) == a && Xor(0, a) == a && Xor(a, b) == Xor(b, a)
  {
  }

  /** The low five bits of the generator sum determine the five bits that fell out. */
  lemma GeneratorLowBits(b: bv30)
    requires b < 32 && Generator(b) & 31 == 0
    ensures b == 0
  {
  }

  lemma ShiftedBits(d: bv30)
    ensures Shifted(d) & 31 == 0 && Top(d) < 32 && (Shifted(d) == 0 && Top(d) == 0 ==> d == 0)
  {
  }

  lemma GeneratorZero()
    ensures Generator(0) == 0
  {
  }

  /** Only the zero state is taken to zero by the zero symbol. */
  lemma StepKernel(d: bv30)
    requires Step(d, 0) == 0
    ensures d == 0
  {
    hide Xor, Shifted, Top, Generator;
    ShiftedBits(d);
    XorLaws(Shifted(d), 0);
    XorLaws(Shifted(d), Generator(Top(d)));
    GeneratorLowBits(Top(d));
    GeneratorZero();
  }

  /** The step is a bijection on states, so differences never die out. */
  lemma StepInjective(a: bv30, b: bv30, v: bv30)
    requires Step(a, v) == Step(b, v)
    ensures a == b
  {
    hide Step, Xor;
    StepLinear(a, b, v, v);
    XorLaws(v, v);
    XorLaws(Step(a, v), Step(b, v));
    StepKernel(Xor(a, b));
    XorLaws(a, b);
  }

  // ---------------------------------------------------------------------------------------
  // Whole messages
  // ---------------------------------------------------------------------------------------

  lemma {:induction false} PolymodConcat(chk: bv30, s: seq<bv30>, t: seq<bv30>)
    ensures PolymodFrom(chk, s + t) == PolymodFrom(PolymodFrom(chk, s), t)
    decreases |s|
  {
    hide Step;
    if s == [] {
      assert s + t == t;
    } else {
      assert (s + t)[0] == s[0] && (s + t)[1..] == s[1..] + t;
      PolymodConcat(Step(chk, s[0]), s[1..], t);
    }
  }

  /** Symbol by symbol exclusive or. */
  function XorAll(s: seq<bv30>, t: seq<bv30>): (r: seq<bv30>)
    requires |s| == |t|
    ensures |r| == |s|
    decreases |s|
  {
    if s == [] then [] else [Xor(s[0], t[0])] + XorAll(s[1..], t[1..])
  }

  /** The whole polymod is linear, at every length. */
  lemma {:induction false} PolymodLinear(a: bv30, b: bv30, s: seq<bv30>, t: seq<bv30>)
    requires |s| == |t|
    ensures PolymodFrom(Xor(a, b), XorAll(s, t)) == Xor(PolymodFrom(a, s), PolymodFrom(b, t))
    decreases |s|
  {
    hide Step, Xor;
    if s == [] {
    } else {
      var u := XorAll(s, t);
      assert u[0] == Xor(s[0], t[0]) && u[1..] == XorAll(s[1..], t[1..]);
      StepLinear(a, b, s[0], t[0]);
      PolymodLinear(Step(a, s[0]), Step(b, t[0]), s[1..], t[1..]);
    }
  }

  /** States that differ stay different whatever common symbols follow. */
  lemma {:induction false} PolymodInjective(a: bv30, b: bv30, s: seq<bv30>)
    requires PolymodFrom(a, s) == PolymodFrom(b, s)
    ensures a == b
    decreases |s|
  {
    hide Step;
    if s == [] {
    } else {
      PolymodInjective(Step(a, s[0]), Step(b, s[0]), s[1..]);
      StepInjective(a, b, s[0]);
    }
  }

  // ---------------------------------------------------------------------------------------
  // Six symbols into a zero register
  // ---------------------------------------------------------------------------------------

  ghost predicate FiveBit(s: seq<bv30>)
  {
    forall k {:trigger s[k]} :: 0 <= k < |s| ==> s[k] < 32
  }

  /** Six five-bit symbols laid side by side. */
  function Pack(d: seq<bv30>): bv30
    requires |d| == 6
  {
    (d[0] << 25) | (d[1] << 20) | (d[2] << 15) | (d[3] << 10) | (d[4] << 5) | d[5]
  }

  /** `[(polymod >> 5 * (5 - i)) & 31 for i in range(6)]` */
  function Digits(p: bv30): (d: seq<bv30>)
    ensures |d| == 6 && FiveBit(d)
  {
    [(p >> 25) & 31, (p >> 20) & 31, (p >> 15) & 31, (p >> 10) & 31, (p >> 5) & 31, p & 31]
  }

  lemma PackDigits(p: bv30)
    ensures Pack(Digits(p)) == p
  {
  }

  /** While nothing has reached the top five bits, a step just shifts the symbol in. */
  lemma StepSmall(chk: bv30, v: bv30)
    requires chk < 0x2000000 && v < 32
    ensures Step(chk, v) == (chk << 5) | v
  {
    GeneratorZero();
    assert Top(chk) == 0;
    XorLaws(Xor(Shifted(chk), v), 0);
    ShiftIn(chk, v);
  }

  lemma ShiftIn(chk: bv30, v: bv30)
    requires chk < 0x2000000 && v < 32
    ensures Xor(Shifted(chk), v) == (chk << 5) | v
  {
  }

  /** Six symbols fill an empty register side by side. */
  lemma PolymodPacks(d: seq<bv30>)
    requires |d| == 6 && FiveBit(d)
    ensures PolymodFrom(0, d) == Pack(d)
  {
    hide Step, Pack;
    var r1 := Step(0, d[0]);
    var r2 := Step(r1, d[1]);
    var r3 := Step(r2, d[2]);
    var r4 := Step(r3, d[3]);
    var r5 := Step(r4, d[4]);
    var r6 := Step(r5, d[5]);
    Fill(d, r1, r2, r3, r4, r5, r6);
    assert d[1..][1..] == d[2..] && d[2..][1..] == d[3..] && d[3..][1..] == d[4..];
    assert d[4..][1..] == d[5..] && d[5..][1..] == [];
    assert PolymodFrom(0, d) == PolymodFrom(r1, d[1..]) == PolymodFrom(r2, d[2..]) == PolymodFrom(r3, d[3..]);
    assert PolymodFrom(r3, d[3..]) == PolymodFrom(r4, d[4..]) == PolymodFrom(r5, d[5..]) == PolymodFrom(r6, []);
  }

  lemma Fill(d: seq<bv30>, r1: bv30, r2: bv30, r3: bv30, r4: bv30, r5: bv30, r6: bv30)
    requires |d| == 6 && FiveBit(d)
    requires r1 == Step(0, d[0]) && r2 == Step(r1, d[1]) && r3 == Step(r2, d[2])
    requires r4 == Step(r3, d[3]) && r5 == Step(r4, d[4]) && r6 == Step(r5, d[5])
    ensures r6 == Pack(d)
  {
    hide Step;
    StepSmall(0, d[0]);
    StepSmall(r1, d[1]);
    StepSmall(r2, d[2]);
    StepSmall(r3, d[3]);
    StepSmall(r4, d[4]);
    StepSmall(r5, d[5]);
  }

  lemma PackInjective(s: seq<bv30>, t: seq<bv30>)
    requires |s| == |t| == 6 && FiveBit(s) && FiveBit(t) && Pack(s) == Pack(t)
    ensures s == t
  {
    DigitsPack(s);
    DigitsPack(t);
  }

  lemma DigitsPack(d: seq<bv30>)
    requires |d| == 6 && FiveBit(d)
    ensures Digits(Pack(d)) == d
  {
    hide Pack, Digits;
    assert d[0] < 32 && d[1] < 32 && d[2] < 32 && d[3] < 32 && d[4] < 32 && d[5] < 32;
    assert d == [d[0], d[1], d[2], d[3], d[4], d[5]];
    DigitOf(d[0], d[1], d[2], d[3], d[4], d[5]);
  }

  lemma DigitOf(a: bv30, b: bv30, c: bv30, d: bv30, e: bv30, f: bv30)
    requires a < 32 && b < 32 && c < 32 && d < 32 && e < 32 && f < 32
    ensures Digits(Pack([a, b, c, d, e, f])) == [a, b, c, d, e, f]
  {
  }

  const ZEROS: seq<bv30> := [0, 0, 0, 0, 0, 0]

  lemma {:induction false} XorAllZeros(s: seq<bv30>, z: seq<bv30>)
    requires |s| == |z| && forall k :: 0 <= k < |z| ==> z[k] == 0
    ensures XorAll(z, s) == s
    decreases |s|
  {
    hide Xor;
    if s == [] {
    } else {
      XorLaws(s[0], 0);
      XorAllZeros(s[1..], z[1..]);
    }
  }

  /** Six symbols after any state: what zeros would leave, xor the packed symbols. */
  lemma LastSix(chk: bv30, d: seq<bv30>)
    requires |d| == 6 && FiveBit(d)
    ensures PolymodFrom(chk, d) == Xor(PolymodFrom(chk, ZEROS), Pack(d))
  {
    hide Xor, Pack, PolymodFrom;
    XorLaws(chk, 0);
    XorAllZeros(d, ZEROS);
    PolymodLinear(chk, 0, ZEROS, d);
    PolymodPacks(d);
  }

  // ---------------------------------------------------------------------------------------
  // The checksum of a message
  // ---------------------------------------------------------------------------------------

  /** `ord(x) >> 5` and `ord(x) & 31`, written as arithmetic. */
  function High(c: char): bv30 { (c as int / 32) as bv30 }
  function Low(c: char): bv30 { (c as int % 32) as bv30 }

  function Highs(hrp: string): seq<bv30>
  {
    if hrp == [] then [] else [High(hrp[0])] + Highs(hrp[1..])
  }

  function Lows(hrp: string): seq<bv30>
  {
    if hrp == [] then [] else [Low(hrp[0])] + Lows(hrp[1..])
  }

  function HrpExpand(hrp: string): seq<bv30>
  {
    Highs(hrp) + [0] + Lows(hrp)
  }

  method CreateChecksum(hrp: string, data: seq<bv30>) returns (checksum: seq<bv30>)
    ensures checksum == Checksum(hrp, data)
  {
    var values := HrpExpand(hrp) + data;
    var polymod := Polymod(values + ZEROS);
    checksum := Digits(Xor(polymod, 1));
  }

  function Checksum(hrp: string, data: seq<bv30>): (c: seq<bv30>)
    ensures |c| == 6 && FiveBit(c)
  {
    Digits(Xor(PolymodFrom(1, HrpExpand(hrp) + data + ZEROS), 1))
  }

  /**
   For every prefix and all data, six five-bit symbols after them bring the polymod to 1 exactly when
   they are the created checksum.
   */
  lemma ChecksumValid(hrp: string, data: seq<bv30>, c: seq<bv30>)
    requires |c| == 6 && FiveBit(c)
    ensures PolymodFrom(1, HrpExpand(hrp) + data + c) == 1 <==> c == Checksum(hrp, data)
  {
    hide PolymodFrom, HrpExpand, Pack, Digits, Xor;
    var m := HrpExpand(hrp) + data;
    var s := PolymodFrom(1, m);
    PolymodConcat(1, m, c);
    PolymodConcat(1, m, ZEROS);
    LastSix(s, c);
    var p := PolymodFrom(s, ZEROS);
    PackDigits(Xor(p, 1));
    XorSolve(p, Pack(c));
    if Pack(c) == Xor(p, 1) {
      PackInjective(c, Digits(Xor(p, 1)));
    }
  }

  lemma XorSolve(p: bv30, x: bv30)
    ensures Xor(p, x) == 1 <==> x == Xor(p, 1)
  {
    hide Xor;
    XorAssociates(p, p, x);
    XorAssociates(p, p, 1);
    XorLaws(p, p);
    XorLaws(x, x);
    XorLaws(1, 1);
  }

  /**
   Any change confined to six consecutive five-bit symbols changes the polymod, however long the
   message and wherever the change sits.
   */
  lemma BurstDetected(chk: bv30, pre: seq<bv30>, s: seq<bv30>, t: seq<bv30>, post: seq<bv30>)
    requires |s| == |t| == 6 && FiveBit(s) && FiveBit(t) && s != t
    ensures PolymodFrom(chk, pre + s + post) != PolymodFrom(chk, pre + t + post)
  {
    hide PolymodFrom, Pack, Xor;
    PolymodConcat(chk, pre + s, post);
    PolymodConcat(chk, pre + t, post);
    PolymodConcat(chk, pre, s);
    PolymodConcat(chk, pre, t);
    var c := PolymodFrom(chk, pre);
    if PolymodFrom(chk, pre + s + post) == PolymodFrom(chk, pre + t + post) {
      PolymodInjective(PolymodFrom(c, s), PolymodFrom(c, t), post);
      LastSix(c, s);
      LastSix(c, t);
      XorCancels(PolymodFrom(c, ZEROS), Pack(s), Pack(t));
      PackInjective(s, t);
    }
  }

  lemma XorCancels(p: bv30, x: bv30, y: bv30)
    requires Xor(p, x) == Xor(p, y)
    ensures x == y
  {
  }

  // ---------------------------------------------------------------------------------------
  // The register as a polynomial
  // ---------------------------------------------------------------------------------------

  /** Multiplication by x in the field of 32 elements, where x^5 is x^3 + 1. */
  function TimesX(a: bv30): bv30
  {
    if a & 16 == 16 then Xor((a << 1) & 31, 9) else (a << 1) & 31
  }

  /** Multiplication in that field: the multiples of a at the bits of b. */
  function Times(a: bv30, b: bv30): bv30
  {
    Xor(Xor(Xor(Xor(Chosen(b & 1, a), Chosen((b >> 1) & 1, TimesX(a))),
      Chosen((b >> 2) & 1, TimesX(TimesX(a)))),
      Chosen((b >> 3) & 1, TimesX(TimesX(TimesX(a))))),
      Chosen((b >> 4) & 1, TimesX(TimesX(TimesX(TimesX(a))))))
  }

  function SixTimesX(d: seq<bv30>): (r: seq<bv30>)
    requires |d| == 6
    ensures |r| == 6
  {
    [TimesX(d[0]), TimesX(d[1]), TimesX(d[2]), TimesX(d[3]), TimesX(d[4]), TimesX(d[5])]
  }

  /** Each generator is the one before times x; the first holds the coefficients of the reducing polynomial. */
  lemma GeneratorsDouble()
    ensures Digits(GEN[0]) == [29, 22, 20, 21, 29, 18]
    ensures Digits(GEN[1]) == SixTimesX(Digits(GEN[0]))
    ensures Digits(GEN[2]) == SixTimesX(Digits(GEN[1]))
    ensures Digits(GEN[3]) == SixTimesX(Digits(GEN[2]))
    ensures Digits(GEN[4]) == SixTimesX(Digits(GEN[3]))
  {
  }

  lemma DigitsOfChosen(bit: bv30, g: bv30)
    ensures var d := Digits(g);
      Digits(Chosen(bit, g)) == [Chosen(bit, d[0]), Chosen(bit, d[1]), Chosen(bit, d[2]),
                                 Chosen(bit, d[3]), Chosen(bit, d[4]), Chosen(bit, d[5])]
  {
    assert Digits(0) == [0, 0, 0, 0, 0, 0];
  }

  lemma GeneratorDigits(b: bv30)
    ensures Digits(Generator(b)) == [Times(29, b), Times(22, b), Times(20, b), Times(21, b), Times(29, b), Times(18, b)]
  {
    GeneratorsDouble();
    hide Xor, Chosen, Digits, TimesX;
    DigitsOfChosen(b & 1, GEN[0]);
    DigitsOfChosen((b >> 1) & 1, GEN[1]);
    DigitsOfChosen((b >> 2) & 1, GEN[2]);
    DigitsOfChosen((b >> 3) & 1, GEN[3]);
    DigitsOfChosen((b >> 4) & 1, GEN[4]);
    var g1 := Xor(Bit0(b), Bit1(b));
    var g2 := Xor(g1, Bit2(b));
    var g3 := Xor(g2, Bit3(b));
    DigitsOfXor(Bit0(b), Bit1(b));
    DigitsOfXor(g1, Bit2(b));
    DigitsOfXor(g2, Bit3(b));
    DigitsOfXor(g3, Bit4(b));
  }

  lemma FiveOfXor(a: bv30, b: bv30)
    ensures (Xor(a, b) >> 25) & 31 == Xor((a >> 25) & 31, (b >> 25) & 31)
    ensures (Xor(a, b) >> 20) & 31 == Xor((a >> 20) & 31, (b >> 20) & 31)
    ensures (Xor(a, b) >> 15) & 31 == Xor((a >> 15) & 31, (b >> 15) & 31)
    ensures (Xor(a, b) >> 10) & 31 == Xor((a >> 10) & 31, (b >> 10) & 31)
    ensures (Xor(a, b) >> 5) & 31 == Xor((a >> 5) & 31, (b >> 5) & 31)
    ensures Xor(a, b) & 31 == Xor(a & 31, b & 31)
  {
  }

  lemma DigitsOfXor(a: bv30, b: bv30)
    ensures Digits(Xor(a, b)) == XorSix(Digits(a), Digits(b))
  {
    hide Xor;
    FiveOfXor(a, b);
  }

  function XorSix(a: seq<bv30>, b: seq<bv30>): (c: seq<bv30>)
    requires |a| == |b| == 6
  {
    [Xor(a[0], b[0]), Xor(a[1], b[1]), Xor(a[2], b[2]), Xor(a[3], b[3]), Xor(a[4], b[4]), Xor(a[5], b[5])]
  }

  lemma ShiftedDigits(chk: bv30, v: bv30)
    requires v < 32
    ensures var c := Digits(chk); Top(chk) == c[0] && Digits(Xor(Shifted(chk), v)) == [c[1], c[2], c[3], c[4], c[5], v]
  {
  }

  /**
   The register holds six coefficients over the field of 32 elements, highest first.  A symbol multiplies that
   polynomial by x, adds the symbol, and reduces modulo x^6 + 29x^5 + 22x^4 + 20x^3 + 21x^2 + 29x + 18.
   */
  lemma StepIsPolynomial(chk: bv30, v: bv30)
    requires v < 32
    ensures var c := Digits(chk);
      Digits(Step(chk, v)) == [Xor(c[1], Times(29, c[0])), Xor(c[2], Times(22, c[0])), Xor(c[3], Times(20, c[0])),
                               Xor(c[4], Times(21, c[0])), Xor(c[5], Times(29, c[0])), Xor(v, Times(18, c[0]))]
  {
    hide Xor, Times, Generator, Digits, Shifted, Top;
    ShiftedDigits(chk, v);
    GeneratorDigits(Digits(chk)[0]);
    DigitsOfXor(Xor(Shifted(chk), v), Generator(Top(chk)));
  }

  /** The prefix in the register: the high parts of its characters, a zero, and their low five bits. */
  lemma HrpExpandEntry(hrp: string, k: nat)
    ensures |HrpExpand(hrp)| == 2 * |hrp| + 1 && HrpExpand(hrp)[|hrp|] == 0
    ensures k < |hrp| ==>
      && HrpExpand(hrp)[k] == (hrp[k] as int / 32) as bv30
      && HrpExpand(hrp)[|hrp| + 1 + k] == (hrp[k] as int % 32) as bv30
  {
    PartsEntry(hrp, k);
    hide Highs, Lows;
  }

  lemma {:induction false} PartsEntry(hrp: string, k: nat)
    ensures |Highs(hrp)| == |Lows(hrp)| == |hrp|
    ensures k < |hrp| ==> Highs(hrp)[k] == High(hrp[k]) && Lows(hrp)[k] == Low(hrp[k])
  {
    hide High, Low;
    if hrp == [] {
    } else {
      PartsEntry(hrp[1..], if k > 0 then k - 1 else 0);
    }
  }

  /** The register takes the symbols in order, each one on top of what the earlier ones left. */
  lemma PolymodSnoc(chk: bv30, s: seq<bv30>, v: bv30)
    ensures PolymodFrom(chk, s + [v]) == Step(PolymodFrom(chk, s), v)
  {
    hide Step;
    PolymodConcat(chk, s, [v]);
    assert PolymodFrom(Step(PolymodFrom(chk, s), v), []) == Step(PolymodFrom(chk, s), v);
  }
}
