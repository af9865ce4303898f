/**
 Regrouping the bits of a number sequence: `_convertbits` with its masked accumulator, and the
 decoder's loop with an unbounded one, against one specification on bit strings.
 */
module BaseConversion {
  import opened Bits
  import opened Wrappers

  // ---------------------------------------------------------------------------------------
  // Bit strings, most significant bit first
  // ---------------------------------------------------------------------------------------

  /** The low `n` bits of v. */
  function Binary(v: nat, n: nat): (b: seq<bool>)
    ensures |b| == n
  {
    if n == 0 then [] else Binary(v / 2, n - 1) + [v % 2 == 1]
  }

  function Value(b: seq<bool>): nat
    decreases |b|
  {
    if b == [] then 0 else 2 * Value(b[..|b| - 1]) + if b[|b| - 1] then 1 else 0
  }

  /** `v & ((1 << n) - 1)` */
  function Low(v: nat, n: nat): nat
  {
    if n == 0 then 0 else 2 * Low(v / 2, n - 1) + v % 2
  }

  /** All values written side by side, `n` bits each. */
  function BitString(data: seq<nat>, n: nat): seq<bool>
    decreases |data|
  {
    if data == [] then [] else BitString(data[..|data| - 1], n) + Binary(data[|data| - 1], n)
  }

  /** The values of the complete groups of `n` bits. */
  function Groups(b: seq<bool>, n: nat): seq<nat>
    requires n > 0
    decreases |b|
  {
    if |b| < n then [] else [Value(b[..n])] + Groups(b[n..], n)
  }

  /** The bits after the last complete group. */
  function Leftover(b: seq<bool>, n: nat): (r: seq<bool>)
    requires n > 0
    ensures |r| < n
    decreases |b|
  {
    if |b| < n then b else Leftover(b[n..], n)
  }

  function Zeros(n: nat): (z: seq<bool>)
    ensures |z| == n
  {
    if n == 0 then [] else Zeros(n - 1) + [false]
  }

  /** The complete groups, and a last one filled up with zeros if bits are left over. */
  function PaddedGroups(b: seq<bool>, n: nat): seq<nat>
    requires n > 0
  {
    var rest := Leftover(b, n);
    Groups(b, n) + if rest == [] then [] else [Value(rest + Zeros(n - |rest|))]
  }

  ghost predicate Fits(data: seq<int>, n: nat)
  {
    forall k {:trigger data[k]} :: 0 <= k < |data| ==> 0 <= data[k] < Pow2(n)
  }

  // ---------------------------------------------------------------------------------------
  // Laws
  // ---------------------------------------------------------------------------------------

  lemma {:induction false} BinaryValue(b: seq<bool>)
    ensures Binary(Value(b), |b|) == b && Value(b) < Pow2(|b|)
    decreases |b|
  {
    if b == [] {
    } else {
      BinaryValue(b[..|b| - 1]);
      assert b == b[..|b| - 1] + [b[|b| - 1]];
    }
  }

  lemma {:induction false} ValueBinary(v: nat, n: nat)
    ensures Value(Binary(v, n)) == Low(v, n)
  {
    if n == 0 {
    } else {
      ValueBinary(v / 2, n - 1);
      ValueSnoc(Binary(v / 2, n - 1), v % 2 == 1);
    }
  }

  lemma ValueSnoc(b: seq<bool>, bit: bool)
    ensures Value(b + [bit]) == 2 * Value(b) + if bit then 1 else 0
  {
    assert (b + [bit])[..|b|] == b;
  }

  lemma {:induction false} LowSmall(v: nat, n: nat)
    requires v < Pow2(n)
    ensures Low(v, n) == v
  {
    if n == 0 {
    } else {
      LowSmall(v / 2, n - 1);
    }
  }

  lemma {:induction false} BinaryLow(v: nat, m: nat, n: nat)
    requires n <= m
    ensures Binary(Low(v, m), n) == Binary(v, n)
  {
    if n == 0 {
    } else {
      BinaryLow(v / 2, m - 1, n - 1);
      assert Low(v, m) / 2 == Low(v / 2, m - 1);
    }
  }

  lemma {:induction false} ShrHalf(v: nat, k: nat)
    ensures Shr(v / 2, k) == Shr(v, k + 1)
  {
    if k == 0 {
    } else {
      ShrHalf(v, k - 1);
    }
  }

  /** The high and the low part of a number's bits. */
  lemma {:induction false} BinarySplit(v: nat, m: nat, n: nat)
    ensures Binary(v, m + n) == Binary(Shr(v, n), m) + Binary(v, n)
    decreases n
  {
    if n == 0 {
    } else {
      BinarySplit(v / 2, m, n - 1);
      ShrHalf(v, n - 1);
      assert m + n - 1 == m + (n - 1);
      var h, l := Binary(Shr(v, n), m), Binary(v / 2, n - 1);
      assert h + l + [v % 2 == 1] == h + (l + [v % 2 == 1]);
    }
  }

  lemma {:induction false} StartTwice(i: nat, k: nat)
    ensures Start(2 * i, k) == 2 * Start(i, k)
    decreases k
  {
    if k == 0 {
    } else {
      StartTwice(2 * i, k - 1);
    }
  }

  /** `(acc << n) | v` writes the bits of v after those of acc. */
  lemma {:induction false} BinaryPush(acc: nat, v: nat, m: nat, n: nat)
    requires v < Pow2(n)
    ensures Binary(Start(acc, n) + v, m + n) == Binary(acc, m) + Binary(v, n)
    decreases n
  {
    if n == 0 {
    } else {
      BinaryPush(acc, v / 2, m, n - 1);
      StartTwice(acc, n - 1);
      assert m + n - 1 == m + (n - 1);
      var x := Start(acc, n) + v;
      assert x / 2 == Start(acc, n - 1) + v / 2 && x % 2 == v % 2;
      var h, l := Binary(acc, m), Binary(v / 2, n - 1);
      assert h + l + [v % 2 == 1] == h + (l + [v % 2 == 1]);
    }
  }

  lemma {:induction false} GroupsAppend(b: seq<bool>, c: seq<bool>, n: nat)
    requires n > 0
    ensures Groups(b + c, n) == Groups(b, n) + Groups(Leftover(b, n) + c, n)
    ensures Leftover(b + c, n) == Leftover(Leftover(b, n) + c, n)
    decreases |b|
  {
    if |b| < n {
    } else {
      assert (b + c)[..n] == b[..n] && (b + c)[n..] == b[n..] + c;
      GroupsAppend(b[n..], c, n);
    }
  }

  lemma {:induction false} GroupsLose(b: seq<bool>, n: nat)
    requires n > 0
    ensures BitString(Groups(b, n), n) + Leftover(b, n) == b
    ensures Fits(Groups(b, n), n)
    decreases |b|
  {
    hide BitString, Value, Binary;
    if |b| >= n {
      var first, more := b[..n], b[n..];
      GroupsLose(more, n);
      assert b == first + more;
      FirstGroup(first, more, n);
      BinaryValue(first);
      BitStringFirst(Value(first), Groups(more, n), n);
      hide Groups, Leftover;
      Regroup(first, BitString(Groups(more, n), n), Leftover(more, n));
      FitsFirst(first, Groups(more, n), n);
    } else {
      BitStringNone(n);
    }
  }

  lemma FitsFirst(first: seq<bool>, rest: seq<nat>, n: nat)
    requires |first| == n && Fits(rest, n)
    ensures Fits([Value(first)] + rest, n)
  {
    BinaryValue(first);
  }

  lemma Regroup(a: seq<bool>, b: seq<bool>, c: seq<bool>)
    ensures a + b + c == a + (b + c)
  {
  }

  lemma BitStringNone(n: nat)
    ensures BitString([], n) == []
  {
  }

  lemma BitStringFirst(v: nat, t: seq<nat>, n: nat)
    ensures BitString([v] + t, n) == Binary(v, n) + BitString(t, n)
  {
    BitStringOne(v, n);
    BitStringAppend([v], t, n);
  }

  lemma BitStringOne(v: nat, n: nat)
    ensures BitString([v], n) == Binary(v, n)
  {
    assert [v][..0] == [];
  }

  lemma {:induction false} BitStringAppend(s: seq<nat>, t: seq<nat>, n: nat)
    ensures BitString(s + t, n) == BitString(s, n) + BitString(t, n)
    decreases |t|
  {
    if t == [] {
      assert s + t == s;
    } else {
      var last := t[|t| - 1];
      BitStringAppend(s, t[..|t| - 1], n);
      assert (s + t)[..|s + t| - 1] == s + t[..|t| - 1];
      assert BitString(s, n) + BitString(t[..|t| - 1], n) + Binary(last, n)
          == BitString(s, n) + (BitString(t[..|t| - 1], n) + Binary(last, n));
    }
  }

  /** Cutting the bits of some values back into groups of their own width returns the values. */
  lemma {:induction false} GroupsOfBits(data: seq<nat>, rest: seq<bool>, n: nat)
    requires n > 0 && Fits(data, n) && |rest| < n
    ensures Groups(BitString(data, n) + rest, n) == data
    ensures Leftover(BitString(data, n) + rest, n) == rest
    decreases |data|
  {
    hide BitString, Value, Binary;
    if data == [] {
      BitStringNone(n);
      assert BitString(data, n) + rest == rest;
    } else {
      var v, t := data[0], data[1..];
      assert data == [v] + t;
      BitStringFirst(v, t, n);
      ValueBinary(v, n);
      LowSmall(v, n);
      GroupsOfBits(t, rest, n);
      Regroup(Binary(v, n), BitString(t, n), rest);
      FirstGroup(Binary(v, n), BitString(t, n) + rest, n);
    }
  }

  lemma FirstGroup(b: seq<bool>, c: seq<bool>, n: nat)
    requires n > 0 && |b| == n
    ensures Groups(b + c, n) == [Value(b)] + Groups(c, n) && Leftover(b + c, n) == Leftover(c, n)
  {
    assert (b + c)[..n] == b && (b + c)[n..] == c;
  }

  /** What padding keeps: the same bits, followed by fewer than `n` zeros. */
  lemma PaddingAddsZeros(b: seq<bool>, n: nat) returns (fill: nat)
    requires n > 0
    ensures fill < n && BitString(PaddedGroups(b, n), n) == b + Zeros(fill)
    ensures Fits(PaddedGroups(b, n), n)
  {
    hide BitString, Value, Binary, Groups, Leftover;
    var rest, g := Leftover(b, n), Groups(b, n);
    fill := if rest == [] then 0 else n - |rest|;
    GroupsLose(b, n);
    if rest == [] {
      assert b + Zeros(0) == b;
      assert g + [] == g;
    } else {
      var last := rest + Zeros(fill);
      BinaryValue(last);
      BitStringAppend(g, [Value(last)], n);
      BitStringOne(Value(last), n);
      Regroup(BitString(g, n), rest, Zeros(fill));
    }
  }

  /**
   The round trip of the base conversion: regrouping into `m` bits with padding and back into `n`
   bits without it returns the data, whenever the padding cannot fill a group of its own.
   */
  lemma RegroupTwice(data: seq<nat>, n: nat, m: nat)
    requires 0 < m <= n && Fits(data, n)
    ensures Groups(BitString(PaddedGroups(BitString(data, n), m), m), n) == data
  {
    var fill := PaddingAddsZeros(BitString(data, n), m);
    GroupsOfBits(data, Zeros(fill), n);
  }

  // ---------------------------------------------------------------------------------------
  // The loops
  // ---------------------------------------------------------------------------------------

  /** What `_convertbits` returns, said on bit strings. */
  function Converted(data: seq<int>, frombits: nat, tobits: nat, pad: bool): Option<seq<nat>>
    requires tobits > 0
  {
    if exists k :: 0 <= k < |data| && !(0 <= data[k] < Pow2(frombits)) then None
    else
      var b := BitString(data, frombits);
      if pad then Some(PaddedGroups(b, tobits))
      else if |Leftover(b, tobits)| >= frombits || true in Leftover(b, tobits) then None
      else Some(Groups(b, tobits))
  }

  ghost predicate AllZero(z: seq<bool>) { forall k {:trigger z[k]} :: 0 <= k < |z| ==> !z[k] }

  lemma {:induction false} ZerosAreZero(n: nat)
    ensures AllZero(Zeros(n))
  {
    if n == 0 {
    } else {
      ZerosAreZero(n - 1);
    }
  }

  lemma {:induction false} AllZeroIsZeros(z: seq<bool>)
    requires AllZero(z)
    ensures z == Zeros(|z|)
    decreases |z|
  {
    if z == [] {
    } else {
      AllZeroIsZeros(z[..|z| - 1]);
    }
  }

  /** g says the same bits as the data, but for z zeros at the end of one of the two. */
  ghost predicate SameBits(data: seq<nat>, frombits: nat, g: seq<nat>, tobits: nat, z: seq<bool>, pad: bool)
  {
    && AllZero(z) && |z| < tobits
    && if pad then BitString(g, tobits) == BitString(data, frombits) + z
       else |z| < frombits && BitString(data, frombits) == BitString(g, tobits) + z
  }

  /**
   What a conversion returns, by the bits alone.  Padding appends fewer zeros than one group; without padding the
   bits that are cut off must be zeros, fewer than one group of either width, or the conversion fails.
   */
  lemma ConvertedExactly(data: seq<nat>, frombits: nat, tobits: nat, pad: bool, g: seq<nat>)
    requires tobits > 0 && Fits(data, frombits)
    ensures Converted(data, frombits, tobits, pad) == Some(g)
       <==> Fits(g, tobits) && exists z {:trigger AllZero(z)} :: SameBits(data, frombits, g, tobits, z, pad)
  {
    hide Groups, Leftover, BitString, Value, Binary, PaddedGroups, AllZero;
    var b := BitString(data, frombits);
    if pad {
      var fill := PaddingAddsZeros(b, tobits);
      ZerosAreZero(fill);
      assert PaddedGroups(b, tobits) == g ==> SameBits(data, frombits, g, tobits, Zeros(fill), true);
      if z :| AllZero(z) && SameBits(data, frombits, g, tobits, z, true) && Fits(g, tobits) {
        AllZeroIsZeros(z);
        PaddedOnce(b, tobits, g, |z|);
      }
    } else {
      GroupsLose(b, tobits);
      var rest := Leftover(b, tobits);
      NoOnes(rest);
      assert !(true in rest) && |rest| < frombits && Groups(b, tobits) == g ==>
        SameBits(data, frombits, g, tobits, rest, false);
      if z :| AllZero(z) && SameBits(data, frombits, g, tobits, z, false) && Fits(g, tobits) {
        GroupsOfBits(g, z, tobits);
      }
    }
  }

  lemma NoOnes(rest: seq<bool>)
    ensures true !in rest <==> AllZero(rest)
  {
  }

  /** A padding to whole groups by fewer zeros than a group is the only one. */
  lemma PaddedOnce(b: seq<bool>, n: nat, g: seq<nat>, z: nat)
    requires n > 0 && Fits(g, n) && z < n && BitString(g, n) == b + Zeros(z)
    ensures PaddedGroups(b, n) == g
  {
    hide Groups, Leftover, BitString, Value, Binary, PaddedGroups, Zeros;
    var fill := PaddingAddsZeros(b, n);
    var p := PaddedGroups(b, n);
    BitStringLength(g, n);
    BitStringLength(p, n);
    SameFill(|g|, |p|, n, |b|, z, fill);
    GroupsOfBits(g, [], n);
    GroupsOfBits(p, [], n);
    assert BitString(g, n) + [] == BitString(g, n) && BitString(p, n) + [] == BitString(p, n);
  }

  lemma {:induction false} BitStringLength(data: seq<nat>, n: nat)
    ensures |BitString(data, n)| == |data| * n
    decreases |data|
  {
    if data == [] {
      assert 0 * n == 0;
    } else {
      BitStringLength(data[..|data| - 1], n);
      assert (|data| - 1) * n + n == |data| * n;
    }
  }

  lemma SameFill(x: nat, y: nat, n: nat, b: nat, z: nat, fill: nat)
    requires n > 0 && x * n == b + z && y * n == b + fill && z < n && fill < n
    ensures z == fill
  {
    if x > y {
      LessByGroup(x, y, n);
    } else if x < y {
      LessByGroup(y, x, n);
    }
  }

  lemma LessByGroup(x: nat, y: nat, n: nat)
    requires x > y
    ensures x * n >= y * n + n
  {
    var d := x - y - 1;
    assert d * n >= 0;
    assert x * n == y * n + n + d * n by {
      assert x == y + 1 + d;
    }
  }

  lemma ShrZeroIff(v: nat, n: nat)
    ensures Shr(v, n) == 0 <==> v < Pow2(n)
  {
    ShrBounds(v, n);
    StartZero(n);
    StartSucc(0, n);
    if v < Pow2(n) {
      ShrZero(v, n);
    }
  }

  /** Taking one more value into the masked accumulator appends its bits. */
  lemma Push(acc: nat, bits: nat, v: nat, frombits: nat, tobits: nat)
    requires bits < tobits && v < Pow2(frombits)
    ensures Binary(Low(Start(acc, frombits) + v, frombits + tobits - 1), bits + frombits)
         == Binary(acc, bits) + Binary(v, frombits)
  {
    BinaryLow(Start(acc, frombits) + v, frombits + tobits - 1, bits + frombits);
    BinaryPush(acc, v, bits, frombits);
  }

  /** Taking a group out of the accumulator removes the first group of its pending bits. */
  lemma Pop(acc: nat, bits: nat, n: nat)
    requires n > 0
    ensures Groups(Binary(acc, n + bits), n) == [Low(Shr(acc, bits), n)] + Groups(Binary(acc, bits), n)
    ensures Leftover(Binary(acc, n + bits), n) == Leftover(Binary(acc, bits), n)
  {
    BinarySplit(acc, n, bits);
    FirstGroup(Binary(Shr(acc, bits), n), Binary(acc, bits), n);
    ValueBinary(Shr(acc, bits), n);
  }

  lemma {:induction false} ValueZero(b: seq<bool>)
    ensures Value(b) == 0 <==> true !in b
    decreases |b|
  {
    if b == [] {
    } else {
      ValueZero(b[..|b| - 1]);
      assert b == b[..|b| - 1] + [b[|b| - 1]];
    }
  }

  lemma {:induction false} BinaryZero(n: nat)
    ensures Binary(0, n) == Zeros(n) && true !in Zeros(n)
  {
    if n == 0 {
    } else {
      BinaryZero(n - 1);
    }
  }

  /** `(acc << (tobits - bits)) & maxv`: the pending bits, filled up with zeros. */
  lemma LastGroup(acc: nat, bits: nat, n: nat)
    requires bits < n
    ensures Low(Start(acc, n - bits), n) == Value(Binary(acc, bits) + Zeros(n - bits))
    ensures Low(Start(acc, n - bits), n) == 0 <==> true !in Binary(acc, bits)
  {
    hide Value, Binary, Low, Zeros, Start;
    BinaryPush(acc, 0, bits, n - bits);
    BinaryZero(n - bits);
    ValueBinary(Start(acc, n - bits), n);
    ValueZero(Binary(acc, bits) + Zeros(n - bits));
  }

  lemma BitStringNext(data: seq<nat>, k: nat, n: nat)
    requires k < |data|
    ensures BitString(data[..k + 1], n) == BitString(data[..k], n) + Binary(data[k], n)
  {
    assert data[..k + 1][..k] == data[..k];
  }

  /** `_convertbits`, with shifts and masks written as arithmetic on non-negative numbers. */
  method ConvertBits(data: seq<int>, frombits: nat, tobits: nat, pad: bool) returns (r: Option<seq<nat>>)
    requires tobits > 0
    ensures r == Converted(data, frombits, tobits, pad)
  {
    hide Groups, Leftover, Binary, Low, BitString, Value;
    var acc: nat, bits: nat, ret: seq<nat> := 0, 0, [];
    BitStringNone(frombits);
    EmptyGroups(tobits);
    for k := 0 to |data|
      invariant Fits(data[..k], frombits) && bits < tobits
      invariant Groups(BitString(data[..k], frombits), tobits) == ret
      invariant Leftover(BitString(data[..k], frombits), tobits) == Binary(acc, bits)
    {
      var value := data[k];
      if value < 0 || Shr(value, frombits) != 0 {
        if value >= 0 {
          ShrZeroIff(value, frombits);
        }
        return None;
      }
      ShrZeroIff(value, frombits);
      assert data[..k + 1] == data[..k] + [value];
      ghost var b, b' := BitString(data[..k], frombits), BitString(data[..k + 1], frombits);
      BitStringNext(data[..k + 1], k, frombits);
      assert data[..k + 1][..k] == data[..k] && data[..k + 1][..k + 1] == data[..k + 1];
      GroupsAppend(b, Binary(value, frombits), tobits);
      Push(acc, bits, value, frombits, tobits);
      acc := Low(Start(acc, frombits) + value, frombits + tobits - 1);
      bits := bits + frombits;
      while bits >= tobits
        invariant Groups(b', tobits) == ret + Groups(Binary(acc, bits), tobits)
        invariant Leftover(b', tobits) == Leftover(Binary(acc, bits), tobits)
      {
        bits := bits - tobits;
        Pop(acc, bits, tobits);
        ret := ret + [Low(Shr(acc, bits), tobits)];
      }
      NoGroup(Binary(acc, bits), tobits);
    }
    assert data[..|data|] == data;
    LastGroup(acc, bits, tobits);
    assert ret + [] == ret && (bits == 0 <==> Binary(acc, bits) == []);
    if pad {
      if bits > 0 {
        ret := ret + [Low(Start(acc, tobits - bits), tobits)];
      }
    } else if bits >= frombits || Low(Start(acc, tobits - bits), tobits) != 0 {
      return None;
    }
    return Some(ret);
  }

  lemma EmptyGroups(n: nat)
    requires n > 0
    ensures Groups([], n) == [] && Leftover([], n) == [] == Binary(0, 0)
  {
  }

  lemma NoGroup(b: seq<bool>, n: nat)
    requires |b| < n
    ensures Groups(b, n) == [] && Leftover(b, n) == b
  {
  }

  /** The loop of `npub_to_pubkey`: five-bit values to bytes, the accumulator never masked. */
  method ToBytes(values: seq<nat>) returns (bytes: seq<nat>)
    requires Fits(values, 5)
    ensures bytes == Groups(BitString(values, 5), 8)
  {
    hide Groups, Leftover, Binary, Low, BitString, Value;
    var acc: nat, bits: nat := 0, 0;
    bytes := [];
    BitStringNone(5);
    EmptyGroups(8);
    for k := 0 to |values|
      invariant bits < 8
      invariant Groups(BitString(values[..k], 5), 8) == bytes
      invariant Leftover(BitString(values[..k], 5), 8) == Binary(acc, bits)
    {
      ghost var b, b' := BitString(values[..k], 5), BitString(values[..k + 1], 5);
      BitStringNext(values, k, 5);
      GroupsAppend(b, Binary(values[k], 5), 8);
      BinaryPush(acc, values[k], bits, 5);
      acc := Start(acc, 5) + values[k];
      bits := bits + 5;
      while bits >= 8
        invariant Groups(b', 8) == bytes + Groups(Binary(acc, bits), 8)
        invariant Leftover(b', 8) == Leftover(Binary(acc, bits), 8)
      {
        bits := bits - 8;
        Pop(acc, bits, 8);
        bytes := bytes + [Low(Shr(acc, bits), 8)];
      }
      NoGroup(Binary(acc, bits), 8);
    }
    assert values[..|values|] == values;
  }
}
