/** The second reader of witness files, which steps over the section headers by itself. */
module Witness {
  import opened Wrappers
  import opened Modular
  import opened LittleEndian
  import opened BinFile

  const MAGIC: seq<Byte> := [0x77, 0x74, 0x6e, 0x73] // "wtns"

  /** Up to `num` values of 32 bytes, stopping early where the file ends. */
  function Values(data: seq<Byte>, offset: nat, num: nat, prime: nat): seq<nat>
    requires prime > 0
    decreases num
  {
    if num == 0 || |data| < offset + 32 then []
    else [Value(data, offset, 32) % prime] + Values(data, offset + 32, num - 1, prime)
  }

  /** The longest slice and the largest allocation: isize::MAX bytes. */
  const LIMIT: nat := 0x7fff_ffff_ffff_ffff

  /** `Vec::with_capacity` for this many 32-byte values asks for more than any allocation may have. */
  predicate TooMany(numValues: nat) { 32 * numValues > LIMIT }

  ghost predicate Slice(data: seq<Byte>) { |data| <= LIMIT }

  /** `parse_witness_file`; offsets are 64-bit numbers, and an index out of range panics. */
  function Parsed(data: seq<Byte>, prime: nat): Result<seq<nat>>
    requires prime > 0
  {
    if |data| < 12 then Err("witness file too short")
    else if data[..4] != MAGIC then Err("invalid witness magic")
    else if |data| < 24 then Err("missing section header")
    else
      var offset := (24 + U64(data, 16)) % WORD;
      var lo, hi := (offset + 4) % WORD, (offset + 12) % WORD;
      if |data| < hi then Err("missing witness section")
      else if hi < lo then Err("panic: slice index starts after its end")
      else if TooMany(U64(data, lo) / 32) then Err("panic: capacity overflow")
      else Ok(Values(data, hi, U64(data, lo) / 32, prime))
  }

  /**
   A size of section 1 that takes the offset to the last four bytes of a word is not refused: the size of the
   values is then read from the file's own header, and they follow right after it.
   */
  lemma HeaderReadAsSize(data: seq<Byte>, prime: nat, d: nat)
    requires prime > 0 && |data| >= 24 && data[..4] == MAGIC && U64(data, 16) == WORD - 28 + d && d < 4
    ensures Parsed(data, prime) ==
      if TooMany(U64(data, d) / 32) then Err("panic: capacity overflow")
      else Ok(Values(data, 8 + d, U64(data, d) / 32, prime))
  {
    hide U64, Values;
    ModUnique(WORD, 24 + (WORD - 28 + d), 0, WORD - 4 + d);
    ModUnique(WORD, WORD - 4 + d + 4, 1, d);
    ModUnique(WORD, WORD - 4 + d + 12, 1, 8 + d);
  }

  method ParseWitnessFile(data: seq<Byte>, prime: nat) returns (r: Result<seq<nat>>)
    requires prime > 0 && Buffer(data)
    ensures r == Parsed(data, prime)
  {
    hide U64, Value, Values;
    if |data| < 12 {
      return Err("witness file too short");
    }
    if data[0..4] != MAGIC {
      return Err("invalid witness magic");
    }
    var offset: nat := 12;
    if |data| < (offset + 12) % WORD {
      return Err("missing section header");
    }
    var section1Size := U64(data, offset + 4);
    offset := (offset + (12 + section1Size) % WORD) % WORD;
    WrapTwice(12, 12 + section1Size);
    var lo, hi := (offset + 4) % WORD, (offset + 12) % WORD;
    if |data| < hi {
      return Err("missing witness section");
    }
    if hi < lo {
      return Err("panic: slice index starts after its end");
    }
    var section2Size := U64(data, lo);
    offset := hi;
    if TooMany(section2Size / 32) {
      return Err("panic: capacity overflow");
    }
    var values := ReadValues(data, offset, section2Size / 32, prime);
    return Ok(values);
  }

  /** The loop over the values. */
  method ReadValues(data: seq<Byte>, start: nat, numValues: nat, prime: nat) returns (values: seq<nat>)
    requires prime > 0 && Buffer(data) && start <= |data|
    ensures values == Values(data, start, numValues, prime)
  {
    hide Value;
    values := [];
    var i: nat, offset: nat := 0, start;
    while i < numValues
      invariant 0 <= i <= numValues && offset <= |data|
      invariant Values(data, start, numValues, prime) == values + Values(data, offset, numValues - i, prime)
    {
      if |data| < (offset + 32) % WORD {
        break;
      }
      values := values + [Value(data, offset, 32) % prime];
      offset := offset + 32;
      i := i + 1;
    }
    assert Values(data, offset, numValues - i, prime) == [];
    assert values + [] == values;
  }

  lemma WrapTwice(a: nat, b: nat)
    ensures (a + b % WORD) % WORD == (a + b) % WORD
  {
  }

  /** The i-th block of 32 bytes from `start` on. */
  function ValueAt(data: seq<Byte>, start: nat, i: nat): nat
    requires start + 32 * i + 32 <= |data|
  {
    Value(data, start + 32 * i, 32)
  }

  lemma {:induction false} ValuesAt(data: seq<Byte>, offset: nat, num: nat, prime: nat, i: nat)
    requires prime > 0 && offset + 32 * num <= |data|
    ensures |Values(data, offset, num, prime)| == num
    ensures i < num ==> Values(data, offset, num, prime)[i] == ValueAt(data, offset, i) % prime
    decreases num
  {
    hide Value;
    if num == 0 {
    } else {
      ValuesAt(data, offset + 32, num - 1, prime, if i > 0 then i - 1 else 0);
      assert i > 0 ==> offset + 32 + 32 * (i - 1) == offset + 32 * i;
    }
  }

  /** The two entries of a file that the first reader accepts. */
  lemma TwoEntries(data: seq<Byte>, maxVersion: nat, e1: Entry, e2: Entry)
    requires Buffer(data) && Parse(data, MAGIC, maxVersion) == Ok([e1, e2])
    ensures |data| >= 36 && data[..4] == MAGIC
    ensures var second := (24 + U64(data, 16)) % WORD;
            second + 12 <= |data| && e2 == Entry(U32(data, second), Section(second + 12, U64(data, second + 4)))
            && (second + 12 + U64(data, second + 4)) % WORD <= |data|
  {
    hide U32, U64;
    var n := U32(data, 8);
    WalkCount(data, n, 12);
    var second := (24 + U64(data, 16)) % WORD;
    var rest := Walk(data, 1, second).value;
    assert [e1, e2] == [e1] + [e2] && [e1, e2][0] == e1 && [e1, e2][1] == e2;
    WalkTail(data, 2, 12, [e1, e2]);
    WalkTail(data, 1, second, [e2]);
    assert [e1, e2][1..] == [e2];
  }

  lemma WalkTail(data: seq<Byte>, n: nat, pos: nat, entries: seq<Entry>)
    requires n > 0 && |entries| == n && Walk(data, n, pos) == Ok(entries)
    ensures pos + 12 <= |data| && entries[0] == Entry(U32(data, pos), Section(pos + 12, U64(data, pos + 4)))
    ensures var next := (pos + 12 + U64(data, pos + 4)) % WORD;
      next <= |data| && Walk(data, n - 1, next) == Ok(entries[1..])
  {
    hide U32, U64;
  }

  /**
   On a witness file of two sections, numbered 1 and 2, that the first reader accepts, the second reader
   succeeds exactly when the size of section 2 does not wrap the first one's cursor, and then it returns
   exactly the whole 32-byte blocks of what the first reports as section 2.
   */
  lemma ReadersAgree(data: seq<Byte>, maxVersion: nat, e1: Entry, e2: Entry, prime: nat)
    requires prime > 0 && Slice(data)
    requires Parse(data, MAGIC, maxVersion) == Ok([e1, e2]) && e1.id == 1 && e2.id == 2
    ensures Grouped([e1, e2]) == map[1 := [e1.section], 2 := [e2.section]]
    ensures var w := Parsed(data, prime);
            && (w.Ok? <==> e2.section.start + e2.section.size < WORD)
            && (w.Ok? ==>
                 && e2.section.start + e2.section.size <= |data| && |w.value| == e2.section.size / 32
                 && forall i :: 0 <= i < |w.value| ==> w.value[i] == ValueAt(data, e2.section.start, i) % prime)
  {
    hide U32, U64, Walk, Value, ValueAt, Values, Parse, Parsed;
    TwoEntries(data, maxVersion, e1, e2);
    TwoGroups(e1, e2);
    ParsedSecond(data, prime);
    var start, size := e2.section.start, e2.section.size;
    if start + size < WORD {
      SmallWord(start + size);
      AllValues(data, start, size / 32, prime);
    }
  }

  /** Without a wrap on the way, the second reader finds the size and the values where they are. */
  lemma ParsedSecond(data: seq<Byte>, prime: nat)
    requires prime > 0 && Slice(data) && |data| >= 24 && data[..4] == MAGIC
    requires (24 + U64(data, 16)) % WORD + 12 <= |data|
    ensures var second := (24 + U64(data, 16)) % WORD;
      Parsed(data, prime) ==
        if TooMany(U64(data, second + 4) / 32) then Err("panic: capacity overflow")
        else Ok(Values(data, second + 12, U64(data, second + 4) / 32, prime))
  {
    hide U64, Values;
    var second := (24 + U64(data, 16)) % WORD;
    SmallWord(second + 4);
    SmallWord(second + 12);
  }

  lemma AllValues(data: seq<Byte>, start: nat, num: nat, prime: nat)
    requires prime > 0 && start + 32 * num <= |data|
    ensures |Values(data, start, num, prime)| == num
    ensures forall i :: 0 <= i < num ==> Values(data, start, num, prime)[i] == ValueAt(data, start, i) % prime
  {
    hide Values, ValueAt;
    ValuesAt(data, start, num, prime, 0);
    forall i | 0 <= i < num ensures Values(data, start, num, prime)[i] == ValueAt(data, start, i) % prime {
      ValuesAt(data, start, num, prime, i);
    }
  }

  lemma TwoGroups(e1: Entry, e2: Entry)
    requires e1.id == 1 && e2.id == 2
    ensures Grouped([e1, e2]) == map[1 := [e1.section], 2 := [e2.section]]
  {
    GroupedAppend([], e1);
    GroupedAppend([e1], e2);
    assert [] + [e1] == [e1] && [e1] + [e2] == [e1, e2];
    var none: seq<Section> := [];
    assert Grouped([]) == map[] && none + [e1.section] == [e1.section] && none + [e2.section] == [e2.section];
  }
}
