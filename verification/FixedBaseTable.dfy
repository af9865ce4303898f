/**
 The generator of the fixed-base table of secp256k1.  Points are written as multiples of the base
 point G, by their discrete logarithm modulo the order of G; the order is odd.
 */
module FixedBaseTable {
  import opened Bits
  import opened Modular
  import opened Wrappers

  /** A running sum: none yet, a point, or an exception on the way. */
  datatype Sum = Nothing | At(log: nat) | Raised

  /** The tangent formula; it raises only at points of order two, and the order of G is odd. */
  function Double(q: nat, a: nat): nat
    requires q > 0
  {
    (a + a) % q
  }

  /** The chord formula: it needs two different x-coordinates, so neither equal nor opposite points. */
  function Add(q: nat, a: nat, b: nat): Sum
    requires q > 0
  {
    if a % q == b % q || (a + b) % q == 0 then Raised else At((a + b) % q)
  }

  // ---------------------------------------------------------------------------------------
  // Digits
  // ---------------------------------------------------------------------------------------

  /** Digit number i of x, n bits a digit, least significant first. */
  function Digit(x: nat, n: nat, i: nat): (d: nat)
    ensures d < Pow2(n)
  {
    x / Pow2(i * n) % Pow2(n)
  }

  /** The first k digits of x put back together. */
  function Recombined(x: nat, n: nat, k: nat): nat
  {
    if k == 0 then 0 else Recombined(x, n, k - 1) + Digit(x, n, k - 1) * Pow2((k - 1) * n)
  }

  lemma {:induction false} Pow2Add(i: nat, j: nat)
    ensures Pow2(i + j) == Pow2(i) * Pow2(j)
  {
    if i == 0 {
    } else {
      Pow2Add(i - 1, j);
      assert 2 * (Pow2(i - 1) * Pow2(j)) == 2 * Pow2(i - 1) * Pow2(j);
    }
  }

  lemma SplitMod(x: nat, a: nat, b: nat)
    requires a > 0 && b > 0
    ensures a * b > 0 && x % (a * b) == x % a + x / a % b * a
    ensures x / (a * b) == x / a / b
  {
    var y := x / a;
    DivMod(x, a);
    DivMod(y, b);
    SplitParts(x, a, b, x % a, y / b, y % b);
  }

  lemma DivMod(x: nat, m: nat)
    requires m > 0
    ensures x == m * (x / m) + x % m && 0 <= x % m < m
  {
  }

  lemma SplitParts(x: nat, a: nat, b: nat, u: nat, v: nat, w: nat)
    requires a > 0 && b > 0 && x == a * (b * v + w) + u && u < a && w < b
    ensures a * b > 0 && x % (a * b) == u + w * a && x / (a * b) == v
  {
    MulAtLeast(a, b);
    Spread(a, b, v, w);
    MulMonotone(w, b - 1, a);
    assert (b - 1) * a == a * b - a;
    ModUnique(a * b, x, v, u + w * a);
    QuotientIs(a * b, x, v, u + w * a);
  }

  lemma Spread(a: int, b: int, u: int, v: int)
    ensures a * (b * u + v) == a * b * u + v * a
  {
    assert a * (b * u) == a * b * u;
  }

  lemma MulMonotone(x: int, y: int, a: nat)
    requires x <= y
    ensures x * a <= y * a
  {
    assert (y - x) * a >= 0;
  }

  lemma QuotientIs(q: int, x: int, k: int, r: int)
    requires q > 0 && x == q * k + r && 0 <= r < q
    ensures x / q == k
  {
    ModUnique(q, x, k, r);
    var d := x / q - k;
    assert q * d == q * (x / q) - q * k;
    MulAtLeast(q, d);
  }

  /** The first k digits of x are x modulo 2^(kn). */
  lemma {:induction false} RecombinedIsMod(x: nat, n: nat, k: nat)
    ensures Recombined(x, n, k) == x % Pow2(k * n)
  {
    if k == 0 {
      assert 0 * n == 0;
    } else {
      var a, b := Pow2((k - 1) * n), Pow2(n);
      RecombinedIsMod(x, n, k - 1);
      assert (k - 1) * n + n == k * n;
      Pow2Add((k - 1) * n, n);
      SplitMod(x, a, b);
    }
  }

  lemma DigitsStep(x: nat, n: nat, i: nat)
    ensures x / Pow2((i + 1) * n) == x / Pow2(i * n) / Pow2(n)
  {
    assert (i + 1) * n == i * n + n;
    Pow2Add(i * n, n);
    SplitMod(x, Pow2(i * n), Pow2(n));
  }

  /** `get_long`: k registers of n bits. */
  method GetLong(n: nat, k: nat, x: nat) returns (ret: seq<nat>)
    ensures |ret| == k && forall i :: 0 <= i < k ==> ret[i] == Digit(x, n, i)
  {
    ret := [];
    var rest := x;
    assert 0 * n == 0;
    for idx := 0 to k
      invariant |ret| == idx && rest == x / Pow2(idx * n)
      invariant forall i :: 0 <= i < idx ==> ret[i] == Digit(x, n, i)
    {
      DigitsStep(x, n, idx);
      ret := ret + [rest % Pow2(n)];
      rest := rest / Pow2(n);
    }
  }

  /** The registers hold the whole coordinate when it has at most kn bits. */
  lemma RegistersHoldAll(x: nat, n: nat, k: nat)
    ensures Recombined(x, n, k) == x <==> x < Pow2(k * n)
  {
    RecombinedIsMod(x, n, k);
    SmallMod(x, Pow2(k * n));
  }

  lemma SmallMod(x: nat, m: nat)
    requires m > 0
    ensures x % m == x <==> x < m
  {
    if x < m {
      ModUnique(m, x, 0, x);
    }
  }

  /** `get_binary` */
  method GetBinary(x: nat) returns (ret: seq<nat>)
    ensures forall i :: 0 <= i < |ret| ==> ret[i] == Digit(x, 1, i)
    ensures x < Pow2(|ret|) && (|ret| > 0 ==> ret[|ret| - 1] == 1)
  {
    ret := [];
    var rest := x;
    while rest > 0
      invariant rest == x / Pow2(|ret|)
      invariant rest == 0 ==> |ret| == 0 || ret[|ret| - 1] == 1
      invariant forall i :: 0 <= i < |ret| ==> ret[i] == Digit(x, 1, i)
    {
      DigitsStep(x, 1, |ret|);
      ret := ret + [rest % 2];
      rest := rest / 2;
    }
    Exhausted(x, Pow2(|ret|));
  }

  lemma Exhausted(x: nat, m: nat)
    requires m > 0 && x / m == 0
    ensures x < m
  {
    assert x == m * (x / m) + x % m;
  }

  // ---------------------------------------------------------------------------------------
  // Powers of the base point
  // ---------------------------------------------------------------------------------------

  /** [2^i]G */
  function Power(q: nat, i: nat): nat
    requires q > 0
  {
    Pow2(i) % q
  }

  lemma DoubleIsPow2(q: nat, i: nat)
    requires q > 0
    ensures Double(q, Power(q, i)) == Power(q, i + 1)
  {
    CongMod(q, Pow2(i));
    CongAdd(q, Pow2(i) % q, Pow2(i), Pow2(i) % q, Pow2(i));
  }

  ghost predicate Powers(q: nat, pows: seq<nat>)
    requires q > 0
  {
    forall i {:trigger pows[i]} :: 0 <= i < |pows| ==> pows[i] == Power(q, i)
  }

  /** `get_g_pows`: G, 2G, 4G, ... */
  method GetGPows(q: nat, exp: nat) returns (pows: seq<nat>)
    requires q > 0
    ensures |pows| == exp && Powers(q, pows)
  {
    pows := [];
    var curr := 1 % q;
    assert curr == Power(q, 0);
    hide Double, Power;
    for idx := 0 to exp
      invariant |pows| == idx && curr == Power(q, idx) && Powers(q, pows)
    {
      DoubleIsPow2(q, idx);
      pows := pows + [curr];
      curr := Double(q, curr);
    }
  }

  /** The sum after the k lowest binary digits of exp, with `len` powers at hand. */
  function Partial(q: nat, len: nat, exp: nat, k: nat): Sum
    requires q > 0
  {
    if k == 0 then Nothing
    else
      Next(q, Partial(q, len, exp, k - 1), Digit(exp, 1, k - 1), Power(q, k - 1), k - 1 < len)
  }

  /** One turn of the loop, for one binary digit and the power of G it stands for. */
  function Next(q: nat, prev: Sum, digit: nat, power: nat, available: bool): Sum
    requires q > 0
  {
    if prev.Raised? || digit == 0 then prev
    else if !available then Raised
    else if prev.Nothing? then At(power)
    else Add(q, prev.log, power)
  }

  /**
   Why the turn for a set binary digit i raises: the power is not there, or the sum of the lower digits is
   the same point as the power or its opposite.
   */
  ghost predicate Clash(q: nat, len: nat, exp: nat, i: nat)
    requires q > 0
  {
    var low, p := exp % Pow2(i), Pow2(i);
    Digit(exp, 1, i) == 1 && (i >= len || (low > 0 && (Cong(q, low, p) || Cong(q, low + p, 0))))
  }

  ghost predicate Clashes(q: nat, len: nat, exp: nat)
    requires q > 0
  {
    exists i: nat :: Clash(q, len, exp, i)
  }

  /**
   `get_g_pow_val`, for every exponent: [exp]G, and no point for the exponent 0, unless some turn of the
   loop meets a clash; then, and only then, it raises.
   */
  method GetGPowVal(q: nat, pows: seq<nat>, exp: nat) returns (sum: Sum)
    requires q > 0 && Powers(q, pows)
    ensures sum.Raised? <==> Clashes(q, |pows|, exp)
    ensures !sum.Raised? ==> sum == if exp == 0 then Nothing else At(exp % q)
  {
    hide Digit, Add, Pow2, Power, Clashes;
    var binary := GetBinary(exp);
    sum := Nothing;
    for idx := 0 to |binary|
      invariant sum == Partial(q, |pows|, exp, idx)
    {
      if binary[idx] != 0 {
        if idx >= |pows| {
          sum := Raised;
        } else if sum.Nothing? {
          sum := At(pows[idx]);
        } else if sum.At? {
          sum := Add(q, sum.log, pows[idx]);
        }
      }
    }
    PowValIsMultiple(q, |pows|, exp, |binary|);
  }

  lemma LowDigits(exp: nat, k: nat)
    ensures exp % Pow2(k + 1) == exp % Pow2(k) + Digit(exp, 1, k) * Pow2(k)
  {
    assert (k + 1) * 1 == k + 1 && k * 1 == k;
    Pow2Add(k, 1);
    SplitMod(exp, Pow2(k), 2);
  }

  lemma NextExact(q: nat, low: nat, p: nat, digit: nat, available: bool)
    requires q > 0 && p > 0 && digit < 2
    ensures Next(q, if low == 0 then Nothing else At(low % q), digit, p % q, available)
         == if digit == 1 && (!available || (low > 0 && (Cong(q, low, p) || Cong(q, low + p, 0)))) then Raised
            else if low + digit * p == 0 then Nothing else At((low + digit * p) % q)
  {
    CongMod(q, low);
    CongMod(q, p);
    CongAdd(q, low % q, low, p % q, p);
    SmallMod(0, q);
  }

  /** The loop after k digits: what it has read, unless one of those digits clashed. */
  lemma {:induction false} PartialExact(q: nat, len: nat, exp: nat, k: nat)
    requires q > 0
    ensures Partial(q, len, exp, k).Raised? <==> exists i: nat :: i < k && Clash(q, len, exp, i)
    ensures var low := exp % Pow2(k);
      !Partial(q, len, exp, k).Raised? ==> Partial(q, len, exp, k) == if low == 0 then Nothing else At(low % q)
  {
    if k == 0 {
    } else {
      PartialExact(q, len, exp, k - 1);
      LowDigits(exp, k - 1);
      var low, p, digit := exp % Pow2(k - 1), Pow2(k - 1), Digit(exp, 1, k - 1);
      assert digit < 2;
      NextExact(q, low, p, digit, k - 1 < len);
      PartialStep(q, len, exp, k);
      assert Clash(q, len, exp, k - 1)
        <==> digit == 1 && (k - 1 >= len || (low > 0 && (Cong(q, low, p) || Cong(q, low + p, 0))));
      hide Partial, Digit, Next, Clash, Pow2;
    }
  }

  lemma PartialStep(q: nat, len: nat, exp: nat, k: nat)
    requires q > 0 && k > 0
    ensures Partial(q, len, exp, k)
         == Next(q, Partial(q, len, exp, k - 1), Digit(exp, 1, k - 1), Power(q, k - 1), k - 1 < len)
  {
  }

  lemma NoDigitBeyond(exp: nat, k: nat, i: nat)
    requires exp < Pow2(k) && k <= i
    ensures Digit(exp, 1, i) == 0
  {
    Pow2Grows(k, i);
    assert i * 1 == i;
    QuotientIs(Pow2(i), exp, 0, exp);
  }

  /** All digits read: the result is [exp]G, unless some digit clashes. */
  lemma PowValIsMultiple(q: nat, len: nat, exp: nat, k: nat)
    requires q > 0 && exp < Pow2(k)
    ensures Partial(q, len, exp, k).Raised? <==> Clashes(q, len, exp)
    ensures !Partial(q, len, exp, k).Raised? ==> Partial(q, len, exp, k) == if exp == 0 then Nothing else At(exp % q)
  {
    PartialExact(q, len, exp, k);
    SmallMod(exp, Pow2(k));
    hide Partial;
    forall i: nat | Clash(q, len, exp, i) ensures i < k {
      if i >= k {
        NoDigitBeyond(exp, k, i);
      }
    }
  }

  lemma {:induction false} Pow2Grows(i: nat, j: nat)
    requires i <= j
    ensures Pow2(i) <= Pow2(j) && (i < j ==> 2 * Pow2(i) <= Pow2(j))
    decreases j
  {
    if i >= j {
    } else {
      Pow2Grows(i, j - 1);
    }
  }

  // ---------------------------------------------------------------------------------------
  // When it raises
  // ---------------------------------------------------------------------------------------

  /** A set digit, the digits below it and what they add up to. */
  lemma SetDigit(exp: nat, i: nat)
    requires Digit(exp, 1, i) == 1
    ensures exp % Pow2(i) < Pow2(i) && exp % Pow2(i) + Pow2(i) == exp % Pow2(i + 1) <= exp
  {
    hide Pow2, Digit;
    LowDigits(exp, i);
    ModAtMost(exp, Pow2(i));
    ModAtMost(exp, Pow2(i + 1));
  }

  lemma ModAtMost(x: nat, m: nat)
    requires m > 0
    ensures x % m < m && x % m <= x
  {
    if x < m {
      SmallMod(x, m);
    }
  }

  /** The highest binary digit. */
  lemma {:induction false} TopDigit(x: nat) returns (i: nat)
    requires x > 0
    ensures Pow2(i) <= x < Pow2(i + 1) && Digit(x, 1, i) == 1
    decreases x
  {
    if x == 1 {
      i := 0;
      assert Pow2(1) == 2 && 0 * 1 == 0;
    } else {
      i := TopDigit(x / 2);
      i := i + 1;
      var half := Pow2(i);
      assert Pow2(i + 1) == 2 * half && x < 2 * half;
      assert i * 1 == i;
      QuotientIs(half, x, 1, x - half);
    }
  }

  /** At every odd order, the order itself raises: its highest digit meets the opposite point. */
  lemma OrderClashes(q: nat, len: nat) returns (i: nat)
    requires q % 2 == 1 && q > 1
    ensures Clash(q, len, q, i)
  {
    i := TopDigit(q);
    QuotientIs(Pow2(i), q, 1, q - Pow2(i));
    DivMod(q, Pow2(i));
    assert i > 0 ==> Pow2(i) % 2 == 0;
    CongIntro(q, q, 0, 1);
  }

  /** Below the order nothing clashes, as long as the powers suffice. */
  lemma NoClashBelowOrder(q: nat, m: nat, j: nat)
    requires m < q && Digit(m, 1, j) == 1
    ensures !Cong(q, m % Pow2(j), Pow2(j)) && !Cong(q, m % Pow2(j) + Pow2(j), 0)
  {
    SetDigit(m, j);
    var low, p := m % Pow2(j), Pow2(j);
    SmallMod(low, q);
    SmallMod(p, q);
    SmallMod(low + p, q);
    SmallMod(0, q);
  }

  /** Exponents of fewer bits than twice the order needs raise at the order and nowhere else. */
  lemma OnlyOrderRaises(q: nat, len: nat, exp: nat, bits: nat)
    requires q % 2 == 1 && q > 1 && 0 < bits <= len && Pow2(bits) < 2 * q && exp < Pow2(bits)
    ensures Clashes(q, len, exp) <==> exp == q
  {
    if exp == q {
      var i := OrderClashes(q, len);
    }
    forall i: nat | Clash(q, len, exp, i) ensures exp == q {
      OnlyAtTop(q, len, exp, bits, i);
    }
  }

  lemma OnlyAtTop(q: nat, len: nat, exp: nat, bits: nat, i: nat)
    requires q > 0 && bits <= len && Pow2(bits) < 2 * q && exp < Pow2(bits) && Clash(q, len, exp, i)
    ensures exp == q
  {
    if i >= bits {
      NoDigitBeyond(exp, bits, i);
    } else {
      SetDigit(exp, i);
      Pow2Grows(i + 1, bits);
      var low, p := exp % Pow2(i), Pow2(i);
      assert p + p == Pow2(i + 1) && low < p && low > 0 && (Cong(q, low, p) || Cong(q, low + p, 0));
      hide Pow2, Clash, Digit, Cong;
      TopMeetsOpposite(q, low, p);
      SmallMod(exp, Pow2(i + 1));
    }
  }

  lemma TopMeetsOpposite(q: nat, low: nat, p: nat)
    requires 0 < low < p < q && (Cong(q, low, p) || Cong(q, low + p, 0))
    ensures low + p == q
  {
    SmallMod(low, q);
    SmallMod(p, q);
    var k := CongElim(q, low + p, 0);
    OneMultiple(q, k, low + p);
  }

  lemma OneMultiple(q: nat, k: int, x: nat)
    requires x == q * k && 0 < x < 2 * q
    ensures k == 1
  {
    if k >= 2 {
      MulMonotone(2, k, q);
    } else if k <= 0 {
      MulMonotone(k, 0, q);
    }
  }

  /** Factors of two can be cancelled at an odd order. */
  lemma {:induction false} CancelPow2(q: nat, a: nat, x: int, y: int)
    requires q % 2 == 1 && Cong(q, x * Pow2(a), y * Pow2(a))
    ensures Cong(q, x, y)
  {
    if a == 0 {
    } else {
      var w := Pow2(a - 1);
      assert x * (2 * w) == 2 * (x * w) && y * (2 * w) == 2 * (y * w);
      CongIntro(q, 2 * ((q + 1) / 2), 1, 1);
      CongCancel(q, 2, (q + 1) / 2, x * w, y * w);
      CancelPow2(q, a - 1, x, y);
    }
  }

  /** The digits of m 2^a are those of m, moved up by a places. */
  lemma ShiftedDigits(m: nat, a: nat, i: nat)
    ensures i < a ==> Digit(m * Pow2(a), 1, i) == 0
    ensures i >= a ==>
      && Digit(m * Pow2(a), 1, i) == Digit(m, 1, i - a)
      && m * Pow2(a) % Pow2(i) == m % Pow2(i - a) * Pow2(a) && Pow2(i) == Pow2(i - a) * Pow2(a)
  {
    var x := m * Pow2(a);
    assert i * 1 == i && (i - a) * 1 == i - a;
    if i < a {
      Pow2Add(a - i, i);
      hide Pow2;
      Multiple(m, Pow2(i), Pow2(a - i - 1));
    } else {
      Pow2Add(i - a, a);
      hide Pow2;
      ScaledParts(m, Pow2(a), Pow2(i - a));
    }
  }

  lemma Multiple(m: nat, p: nat, c: nat)
    requires p > 0
    ensures m * (2 * c * p) / p % 2 == 0
  {
    Even(m, c);
    assert m * (2 * c * p) == p * (m * (2 * c));
    QuotientIs(p, m * (2 * c * p), m * (2 * c), 0);
  }

  lemma ScaledParts(m: nat, w: nat, p: nat)
    requires w > 0 && p > 0
    ensures p * w > 0 && m * w / (p * w) == m / p && m * w % (p * w) == m % p * w
  {
    var x, y := m * w, p * w;
    SplitMod(x, w, p);
    QuotientIs(w, x, m, 0);
    ModUnique(w, x, m, 0);
    assert w * p == y;
  }

  /** A small multiple of a power of two never clashes, at whatever size the multiple is. */
  lemma NoClash(q: nat, len: nat, m: nat, a: nat, b: nat, i: nat)
    requires q % 2 == 1 && m < q && m < Pow2(b) && a + b <= len
    ensures !Clash(q, len, m * Pow2(a), i)
  {
    var exp := m * Pow2(a);
    ShiftedDigits(m, a, i);
    if i >= a && Digit(exp, 1, i) == 1 {
      var j := i - a;
      if j >= b {
        NoDigitBeyond(m, b, j);
      }
      NoClashBelowOrder(q, m, j);
      var low, p := m % Pow2(j), Pow2(j);
      hide Pow2, Digit;
      if Cong(q, low * Pow2(a), p * Pow2(a)) {
        CancelPow2(q, a, low, p);
      }
      assert (low + p) * Pow2(a) == low * Pow2(a) + p * Pow2(a) && 0 * Pow2(a) == 0;
      if Cong(q, (low + p) * Pow2(a), 0) {
        CancelPow2(q, a, low + p, 0);
      }
    }
  }

  // ---------------------------------------------------------------------------------------
  // The table
  // ---------------------------------------------------------------------------------------

  /** `math.ceil(n * k / stride)`, the quotient read exactly. */
  function Strides(n: nat, k: nat, stride: nat): nat
    requires stride > 0
  {
    (n * k + stride - 1) / stride
  }

  /** What entry idx of row s should be: no point for idx 0, otherwise [idx 2^(s stride)]G. */
  function Entry(q: nat, stride: nat, s: nat, idx: nat): Sum
    requires q > 0
  {
    if idx == 0 then Nothing else At(idx * Pow2(s * stride) % q)
  }

  ghost predicate RowOk(q: nat, stride: nat, s: nat, row: seq<Sum>)
    requires q > 0
  {
    forall idx {:trigger row[idx]} :: 0 <= idx < |row| ==> row[idx] == Entry(q, stride, s, idx)
  }

  ghost predicate TableOk(q: nat, stride: nat, table: seq<seq<Sum>>)
    requires q > 0
  {
    forall s {:trigger table[s]} :: 0 <= s < |table| ==> |table[s]| == Pow2(stride) && RowOk(q, stride, s, table[s])
  }

  /**
   The layouts whose tables are built: without rows there is nothing to do; otherwise every entry number is
   below the order, and the 256 + stride powers reach the last row.
   */
  predicate Buildable(q: nat, stride: nat, strides: nat)
  {
    strides == 0 || (Pow2(stride) <= q && strides * stride <= 256 + stride)
  }

  lemma OneTimes(idx: nat)
    ensures idx * Pow2(0) == idx
  {
  }

  lemma Even(idx: nat, half: nat)
    ensures idx * (2 * half) % 2 == 0
  {
    assert idx * (2 * half) == 2 * (idx * half);
  }

  /** Row s at entry idx: no clash in a layout that fits. */
  lemma EntryFits(q: nat, stride: nat, s: nat, idx: nat, i: nat)
    requires q % 2 == 1 && Pow2(stride) <= q && (s + 1) * stride <= 256 + stride && idx < Pow2(stride)
    ensures !Clash(q, 256 + stride, idx * Pow2(s * stride), i)
  {
    assert s * stride + stride == (s + 1) * stride;
    NoClash(q, 256 + stride, idx, s * stride, stride, i);
  }

  /** Entry q of the first row is the order. */
  lemma OrderEntry(q: nat, len: nat, stride: nat) returns (i: nat)
    requires q % 2 == 1 && q > 1
    ensures Clash(q, len, q * Pow2(0 * stride), i)
  {
    assert 0 * stride == 0;
    OneTimes(q);
    i := OrderClashes(q, len);
  }

  /** The entry with only the highest digit of the row set needs the row's last power. */
  lemma TopEntry(q: nat, len: nat, stride: nat, s: nat)
    requires q > 0 && stride > 0 && (s + 1) * stride > len
    ensures Pow2(stride - 1) < Pow2(stride)
    ensures Clash(q, len, Pow2(stride - 1) * Pow2(s * stride), s * stride + stride - 1)
  {
    assert s * stride + stride == (s + 1) * stride;
    Pow2Add(stride - 1, s * stride);
    OneDigit(s * stride + stride - 1);
  }

  lemma OneDigit(i: nat)
    ensures Digit(Pow2(i), 1, i) == 1
  {
    assert i * 1 == i;
    hide Pow2;
    QuotientIs(Pow2(i), Pow2(i), 1, 0);
  }

  /** The two loops of `get_cache_str` over rows and entries; an exception ends them. */
  method Table(q: nat, n: nat, k: nat, stride: nat) returns (r: Result<seq<seq<Sum>>>)
    requires q % 2 == 1 && q > 1
    ensures r.Ok? <==> stride > 0 && Buildable(q, stride, Strides(n, k, stride))
    ensures r.Ok? ==> |r.value| == Strides(n, k, stride) && TableOk(q, stride, r.value)
  {
    if stride == 0 {
      return Err("division by zero");
    }
    hide Strides, Entry, Pow2, Clashes;
    var numStrides := Strides(n, k, stride);
    var pows := GetGPows(q, 256 + stride);
    var table: seq<seq<Sum>> := [];
    for strideIdx := 0 to numStrides
      invariant |table| == strideIdx && TableOk(q, stride, table)
      invariant Buildable(q, stride, strideIdx)
    {
      var row: seq<Sum> := [];
      TopPower(stride);
      for idx := 0 to Pow2(stride)
        invariant |row| == idx && RowOk(q, stride, strideIdx, row)
        invariant strideIdx == 0 ==> idx <= q
        invariant idx > Pow2(stride - 1) ==> (strideIdx + 1) * stride <= 256 + stride
      {
        var exp := idx * Pow2(strideIdx * stride);
        NoExponent(q, stride, strideIdx, idx);
        if exp > 0 {
          EntryRaises(q, stride, numStrides, strideIdx, idx);
          var gPow := GetGPowVal(q, pows, exp);
          if gPow.Raised? {
            return Err("modular inverse does not exist, or no such power");
          }
          row := row + [gPow];
        } else {
          row := row + [Nothing];
        }
      }
      table := table + [row];
    }
    return Ok(table);
  }

  lemma TopPower(stride: nat)
    requires stride > 0
    ensures Pow2(stride - 1) < Pow2(stride)
  {
  }

  /** Where the script can raise, and where it must. */
  lemma EntryRaises(q: nat, stride: nat, strides: nat, s: nat, idx: nat)
    requires q % 2 == 1 && q > 1 && stride > 0 && s < strides && idx < Pow2(stride)
    ensures var (len, exp) := (256 + stride, idx * Pow2(s * stride));
      && (Clashes(q, len, exp) ==> !Buildable(q, stride, strides))
      && (s == 0 && idx == q ==> Clashes(q, len, exp))
      && (idx == Pow2(stride - 1) && (s + 1) * stride > len ==> Clashes(q, len, exp))
  {
    hide Clash, Pow2;
    var len, exp := 256 + stride, idx * Pow2(s * stride);
    MulMonotone(s + 1, strides, stride);
    if Clashes(q, len, exp) && Buildable(q, stride, strides) {
      var i: nat :| Clash(q, len, exp, i);
      EntryFits(q, stride, s, idx, i);
      assert false;
    }
    if s == 0 && idx == q {
      var i := OrderEntry(q, len, stride);
      assert s * stride == 0 * stride;
    }
    if idx == Pow2(stride - 1) && (s + 1) * stride > len {
      TopEntry(q, len, stride, s);
    }
  }

  /** The parameters the script is run with: the order of secp256k1, four registers of 64 bits, stride 8. */
  const N: nat := 115792089237316195423570985008687907852837564279074904382605163141518161494337

  /** 32 rows, all of them built. */
  lemma ScriptParameters()
    ensures Strides(64, 4, 8) == 32 && Buildable(N, 8, Strides(64, 4, 8))
  {
    SmallStride();
  }

  /** The layout of three registers of 86 bits: 33 rows, whose last one uses every power there is. */
  lemma ThreeRegisters()
    ensures Strides(86, 3, 8) == 33 && 33 * 8 == 256 + 8 && Buildable(N, 8, Strides(86, 3, 8))
  {
    SmallStride();
  }

  lemma SmallStride()
    ensures Pow2(8) == 256 && N % 2 == 1
  {
    assert Pow2(4) == 16;
    Pow2Add(4, 4);
  }

  lemma NoExponent(q: nat, stride: nat, s: nat, idx: nat)
    requires q > 0
    ensures idx * Pow2(s * stride) == 0 <==> idx == 0
    ensures idx == 0 ==> Entry(q, stride, s, idx) == Nothing
  {
    if idx > 0 {
      MulMonotone(1, idx, Pow2(s * stride));
    } else {
      assert 0 * Pow2(s * stride) == 0;
    }
  }

  /** The multiple of G that an entry stands for; the empty entry is the neutral element. */
  function LogOf(e: Sum): nat { if e.At? then e.log else 0 }

  /** Logarithm of the sum of the entries picked by the base-2^stride digits of e, rows 0 to s - 1. */
  function Lookup(table: seq<seq<Sum>>, stride: nat, e: nat, s: nat): nat
    requires s <= |table| && forall t {:trigger table[t]} :: 0 <= t < |table| ==> |table[t]| == Pow2(stride)
  {
    if s == 0 then 0 else Lookup(table, stride, e, s - 1) + LogOf(table[s - 1][Digit(e, stride, s - 1)])
  }

  lemma EntryLog(q: nat, stride: nat, s: nat, idx: nat)
    requires q > 0
    ensures Cong(q, LogOf(Entry(q, stride, s, idx)), idx * Pow2(s * stride))
  {
    CongMod(q, idx * Pow2(s * stride));
    if idx == 0 {
      assert 0 * Pow2(s * stride) == 0;
    }
  }

  lemma {:induction false} LookupRecombines(q: nat, stride: nat, table: seq<seq<Sum>>, e: nat, s: nat)
    requires q > 0 && TableOk(q, stride, table) && s <= |table|
    ensures Cong(q, Lookup(table, stride, e, s), Recombined(e, stride, s))
  {
    hide Cong, Digit, Entry, LogOf;
    if s == 0 {
      CongIntro(q, 0, 0, 0);
    } else {
      var d := Digit(e, stride, s - 1);
      LookupRecombines(q, stride, table, e, s - 1);
      EntryLog(q, stride, s - 1, d);
      assert table[s - 1][d] == Entry(q, stride, s - 1, d);
      CongAdd(q, Lookup(table, stride, e, s - 1), Recombined(e, stride, s - 1),
        LogOf(table[s - 1][d]), d * Pow2((s - 1) * stride));
    }
  }

  /** Adding up the table entries at the digits of e gives [e]G, for every e the rows can hold. */
  lemma LookupIsMultiple(q: nat, stride: nat, table: seq<seq<Sum>>, e: nat)
    requires q > 0 && TableOk(q, stride, table) && e < Pow2(|table| * stride)
    ensures Cong(q, Lookup(table, stride, e, |table|), e)
  {
    LookupRecombines(q, stride, table, e, |table|);
    RecombinedIsMod(e, stride, |table|);
    SmallMod(e, Pow2(|table| * stride));
  }

  /** The rows reach n k bits, and would not with one row less. */
  lemma RowsNeeded(n: nat, k: nat, stride: nat)
    requires stride > 0
    ensures var rows := Strides(n, k, stride);
      rows * stride >= n * k && (rows > 0 ==> (rows - 1) * stride < n * k)
  {
    var bits, rows := n * k, Strides(n, k, stride);
    assert bits + stride - 1 == stride * rows + (bits + stride - 1) % stride;
    assert stride * rows == rows * stride;
    assert (rows - 1) * stride == rows * stride - stride;
  }

  /** Every scalar of n k bits is covered. */
  lemma RowsCover(n: nat, k: nat, stride: nat, e: nat)
    requires stride > 0 && e < Pow2(n * k)
    ensures e < Pow2(Strides(n, k, stride) * stride)
  {
    var bits, s := n * k, Strides(n, k, stride);
    assert bits + stride - 1 == stride * s + (bits + stride - 1) % stride;
    assert stride * s == s * stride;
    Pow2Grows(bits, s * stride);
  }
}
