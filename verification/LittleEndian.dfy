/** Numbers as bytes, least significant first, and where bytes stand in a buffer. */
module LittleEndian {

  type Byte = b: int | 0 <= b < 256

  /** Little-endian value of n bytes. */
  function Value(data: seq<Byte>, start: nat, n: nat): nat
    requires start + n <= |data|
    decreases n
  {
    if n == 0 then 0
    else
      var b: int := data[start];
      b + 256 * Value(data, start + 1, n - 1)
  }

  /** Byte i of a number: shifted right by eight bits i times. */
  function ByteOf(v: nat, i: nat): (b: nat)
    ensures b < 256
    decreases i
  {
    if i == 0 then v % 256 else ByteOf(v / 256, i - 1)
  }

  /** 2^(8n) */
  function Limit(n: nat): (r: nat)
    ensures r >= 1
  {
    if n == 0 then 1 else 256 * Limit(n - 1)
  }

  /** The value of n bytes has exactly these bytes, in this order. */
  lemma {:induction false} ValueBytes(data: seq<Byte>, start: nat, n: nat, i: nat)
    requires start + n <= |data|
    ensures Value(data, start, n) < Limit(n)
    ensures i < n ==> ByteOf(Value(data, start, n), i) == data[start + i]
    decreases n
  {
    if n == 0 {
    } else {
      ValueBytes(data, start + 1, n - 1, if i > 0 then i - 1 else 0);
      var b: int, rest := data[start], Value(data, start + 1, n - 1);
      assert (b + 256 * rest) % 256 == b && (b + 256 * rest) / 256 == rest;
    }
  }

  /** The n bytes of a number, least significant first. */
  function Le(v: nat, n: nat): (bytes: seq<Byte>)
    ensures |bytes| == n
  {
    if n == 0 then [] else [v % 256] + Le(v / 256, n - 1)
  }

  lemma {:induction false} LeBytes(v: nat, n: nat, i: nat)
    requires i < n
    ensures Le(v, n)[i] == ByteOf(v, i)
  {
    if i == 0 {
    } else {
      LeBytes(v / 256, n - 1, i - 1);
    }
  }

  /** These bytes stand at this place. */
  predicate At(data: seq<Byte>, pos: nat, bytes: seq<Byte>)
  {
    pos + |bytes| <= |data| && data[pos..pos + |bytes|] == bytes
  }

  lemma AtSplit(data: seq<Byte>, pos: nat, a: seq<Byte>, b: seq<Byte>)
    ensures At(data, pos, a + b) <==> At(data, pos, a) && At(data, pos + |a|, b)
  {
    if At(data, pos, a + b) {
      assert data[pos..pos + |a|] == (a + b)[..|a|] == a;
      assert data[pos + |a|..pos + |a| + |b|] == (a + b)[|a|..] == b;
    }
    if At(data, pos, a) && At(data, pos + |a|, b) {
      assert data[pos..pos + |a + b|] == data[pos..pos + |a|] + data[pos + |a|..pos + |a| + |b|];
    }
  }

  /** Reading undoes writing: n bytes at a place are those of v exactly when their value is v. */
  lemma {:induction false} ValueOfLe(data: seq<Byte>, pos: nat, v: nat, n: nat)
    requires v < Limit(n) && pos + n <= |data|
    ensures At(data, pos, Le(v, n)) <==> Value(data, pos, n) == v
    decreases n
  {
    if n == 0 {
    } else {
      var first: seq<Byte> := [v % 256];
      AtSplit(data, pos, first, Le(v / 256, n - 1));
      ValueOfLe(data, pos + 1, v / 256, n - 1);
      hide Limit;
      assert At(data, pos, first) <==> data[pos] == v % 256;
      var b: int, rest := data[pos], Value(data, pos + 1, n - 1);
      assert b + 256 * rest == v <==> b == v % 256 && rest == v / 256;
    }
  }
}
