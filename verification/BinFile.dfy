/**
 The sectioned binary container of keys and witnesses: the reader with its 64-bit cursor, the key header
 on top of it, and the second, independent reader of witness files.
 */
module BinFile {
  import opened Wrappers
  import opened LittleEndian

  const WORD: nat := 0x1_0000_0000_0000_0000 // 2^64
  const HALF: nat := 0x1_0000_0000           // 2^32

  /** A buffer with 4 GB of address space above it, so that reading a field of 32-bit length cannot wrap the cursor. */
  ghost predicate Buffer(data: seq<Byte>) { |data| + HALF <= WORD }

  function U32(data: seq<Byte>, pos: nat): (v: nat)
    requires pos + 4 <= |data|
    ensures v < HALF
  {
    var b0: int, b1: int, b2: int, b3: int := data[pos], data[pos + 1], data[pos + 2], data[pos + 3];
    b0 + 0x100 * b1 + 0x10000 * b2 + 0x1000000 * b3
  }

  function U64(data: seq<Byte>, pos: nat): (v: nat)
    requires pos + 8 <= |data|
    ensures v < WORD
  {
    U32(data, pos) + HALF * U32(data, pos + 4)
  }

  /** The four bytes of the number read, least significant first. */
  lemma U32Bytes(data: seq<Byte>, pos: nat)
    requires pos + 4 <= |data|
    ensures U32(data, pos) == Value(data, pos, 4)
    ensures forall i {:trigger ByteOf(U32(data, pos), i)} :: 0 <= i < 4 ==> ByteOf(U32(data, pos), i) == data[pos + i]
  {
    assert Value(data, pos + 4, 0) == 0;
    assert Value(data, pos, 4) == U32(data, pos);
    forall i: nat | i < 4 ensures ByteOf(U32(data, pos), i) == data[pos + i] {
      ValueBytes(data, pos, 4, i);
    }
  }

  lemma {:induction false} ValueSplits(data: seq<Byte>, pos: nat, n: nat, m: nat)
    requires pos + n + m <= |data|
    ensures Value(data, pos, n + m) == Value(data, pos, n) + Limit(n) * Value(data, pos + n, m)
    decreases n
  {
    if n == 0 {
    } else {
      ValueSplits(data, pos + 1, n - 1, m);
      var x := Value(data, pos + n, m);
      assert 256 * (Limit(n - 1) * x) == 256 * Limit(n - 1) * x;
    }
  }

  lemma Limits()
    ensures Limit(4) == HALF && Limit(8) == WORD
  {
    assert Limit(4) == 256 * Limit(3) && Limit(3) == 256 * Limit(2) && Limit(2) == 65536;
    assert Limit(8) == 256 * Limit(7) && Limit(7) == 256 * Limit(6) && Limit(6) == 65536 * Limit(4);
  }

  /** The eight bytes of the number read. */
  lemma U64Bytes(data: seq<Byte>, pos: nat)
    requires pos + 8 <= |data|
    ensures U64(data, pos) == Value(data, pos, 8)
    ensures forall i {:trigger ByteOf(U64(data, pos), i)} :: 0 <= i < 8 ==> ByteOf(U64(data, pos), i) == data[pos + i]
  {
    U32Bytes(data, pos);
    U32Bytes(data, pos + 4);
    ValueSplits(data, pos, 4, 4);
    Limits();
    hide U32, Value, ByteOf;
    forall i: nat | i < 8 ensures ByteOf(U64(data, pos), i) == data[pos + i] {
      ValueBytes(data, pos, 8, i);
    }
  }

  datatype Section = Section(start: nat, size: nat)
  /** A section with its id, in file order. */
  datatype Entry = Entry(id: nat, section: Section)

  // ---------------------------------------------------------------------------------------
  // The section table
  // ---------------------------------------------------------------------------------------

  /** The loop over the sections, from a cursor position on; the cursor is a 64-bit number. */
  function Walk(data: seq<Byte>, n: nat, pos: nat): Result<seq<Entry>>
  {
    if n == 0 then Ok([])
    else if pos + 12 > |data| then Err("file pos too big")
    else
      var size := U64(data, pos + 4);
      var next := (pos + 12 + size) % WORD;
      if next > |data| then Err("section invalid")
      else
        match Walk(data, n - 1, next)
        case Err(e) => Err(e)
        case Ok(rest) => Ok([Entry(U32(data, pos), Section(pos + 12, size))] + rest)
  }

  /** `readFileData`: header checks, then the sections. */
  function Parse(data: seq<Byte>, fileType: seq<Byte>, maxVersion: nat): Result<seq<Entry>>
  {
    if |data| < 12 then Err("file too short")
    else if data[..4] != fileType then Err("invalid file type")
    else if U32(data, 4) > maxVersion then Err("invalid version")
    else if |data| < 12 + U32(data, 8) * 12 then Err("file too short for sections")
    else Walk(data, U32(data, 8), 12)
  }

  /** Sections inside the buffer, in order, and sharing no byte. */
  ghost predicate Laid(entries: seq<Entry>, len: nat)
  {
    && (forall i {:trigger entries[i]} :: 0 <= i < |entries| ==>
      entries[i].section.start + entries[i].section.size <= len)
    && (forall i, j {:trigger entries[i], entries[j]} :: 0 <= i < j < |entries| ==>
          entries[i].section.start + entries[i].section.size <= entries[j].section.start)
  }

  /** The same loop with an unbounded cursor. */
  function WalkExact(data: seq<Byte>, n: nat, pos: nat): Result<seq<Entry>>
  {
    if n == 0 then Ok([])
    else if pos + 12 > |data| then Err("file pos too big")
    else
      var size := U64(data, pos + 4);
      var next := pos + 12 + size;
      if next > |data| then Err("section invalid")
      else
        match WalkExact(data, n - 1, next)
        case Err(e) => Err(e)
        case Ok(rest) => Ok([Entry(U32(data, pos), Section(pos + 12, size))] + rest)
  }

  /** Where the unbounded walk succeeds, the 64-bit one gives the same sections, and they are laid out in order. */
  lemma {:induction false} ExactIsLaid(data: seq<Byte>, n: nat, pos: nat)
    requires Buffer(data) && WalkExact(data, n, pos).Ok?
    ensures Walk(data, n, pos) == WalkExact(data, n, pos)
    ensures var entries := WalkExact(data, n, pos).value;
            Laid(entries, |data|) && forall i {:trigger entries[i]} :: 0 <= i < |entries| ==>
              entries[i].section.start >= pos + 12
    decreases n
  {
    hide U32, U64, Laid;
    if n == 0 {
      LaidNone(|data|);
    } else {
      var size := U64(data, pos + 4);
      var next := pos + 12 + size;
      var rest, e := WalkExact(data, n - 1, next).value, Entry(U32(data, pos), Section(pos + 12, size));
      assert WalkExact(data, n, pos).value == [e] + rest;
      assert ([e] + rest)[0] == e;
      SmallWord(next);
      assert forall i {:trigger rest[i]} :: 0 <= i < |rest| ==> rest[i] == ([e] + rest)[i + 1];
      ExactIsLaid(data, n - 1, next);
      LaidFirst(e, rest, |data|);
    }
  }

  /** Where the 64-bit walk accepts sections that are laid out in order, it never wrapped. */
  lemma {:induction false} LaidIsExact(data: seq<Byte>, n: nat, pos: nat)
    requires Buffer(data) && Walk(data, n, pos).Ok? && Laid(Walk(data, n, pos).value, |data|)
    ensures WalkExact(data, n, pos).Ok?
    decreases n
  {
    hide U32, U64;
    if n == 0 {
    } else {
      var size := U64(data, pos + 4);
      var rest, e := Walk(data, n - 1, (pos + 12 + size) % WORD).value, Entry(U32(data, pos), Section(pos + 12, size));
      var entries := [e] + rest;
      assert Walk(data, n, pos).value == entries && entries[0] == e;
      SmallWord(pos + 12 + size);
      assert Laid(rest, |data|) by {
        assert forall i {:trigger rest[i]} :: 0 <= i < |rest| ==> rest[i] == entries[i + 1];
      }
      LaidIsExact(data, n - 1, pos + 12 + size);
    }
  }

  lemma LaidNone(len: nat)
    ensures Laid([], len)
  {
  }

  lemma LaidFirst(e: Entry, rest: seq<Entry>, len: nat)
    requires Laid(rest, len) && e.section.start + e.section.size <= len
    requires forall i {:trigger rest[i]} :: 0 <= i < |rest| ==>
      rest[i].section.start >= e.section.start + e.section.size
    ensures Laid([e] + rest, len)
  {
  }

  lemma SmallWord(x: nat)
    requires x < WORD
    ensures x % WORD == x
  {
  }

  /**
   Accepted sections lie inside the buffer, in order and without overlap, exactly when the same walk over
   the file with an unbounded cursor succeeds too, and then it finds the same sections.
   */
  lemma SectionsLaidIffExact(data: seq<Byte>, fileType: seq<Byte>, maxVersion: nat)
    requires Buffer(data) && Parse(data, fileType, maxVersion).Ok?
    ensures var (entries, exact) := (Parse(data, fileType, maxVersion).value, WalkExact(data, U32(data, 8), 12));
      && |entries| == U32(data, 8)
      && (Laid(entries, |data|) <==> exact.Ok?)
      && (exact.Ok? ==> exact.value == entries)
  {
    hide U32, Laid;
    var n := U32(data, 8);
    WalkCount(data, n, 12);
    if WalkExact(data, n, 12).Ok? {
      ExactIsLaid(data, n, 12);
    }
    if Laid(Walk(data, n, 12).value, |data|) {
      LaidIsExact(data, n, 12);
    }
  }

  lemma {:induction false} WalkCount(data: seq<Byte>, n: nat, pos: nat)
    requires Walk(data, n, pos).Ok?
    ensures |Walk(data, n, pos).value| == n
    decreases n
  {
    hide U32, U64;
    if n == 0 {
    } else {
      WalkCount(data, n - 1, (pos + 12 + U64(data, pos + 4)) % WORD);
    }
  }

  /** A section whose size takes the cursor back to its own header is accepted, and then read a second time. */
  lemma WrapIsAccepted(data: seq<Byte>)
    requires Buffer(data) && |data| >= 36 && U32(data, 4) <= 2 && U32(data, 8) == 2 && U64(data, 16) == WORD - 12
    ensures var e := Entry(U32(data, 12), Section(24, WORD - 12));
            Parse(data, data[..4], 2) == Ok([e, e]) && !Laid([e, e], |data|)
  {
    hide U32, U64;
    var e := Entry(U32(data, 12), Section(24, WORD - 12));
    assert (12 + 12 + U64(data, 12 + 4)) % WORD == 12;
    assert [e] + [] == [e] && [e] + [e] == [e, e];
    assert Walk(data, 1, 12) == Ok([e]) by {
      assert Walk(data, 0, 12) == Ok([]);
    }
    assert Walk(data, 2, 12) == Ok([e, e]);
    assert [e, e][0] == e;
  }

  /** The map from ids to sections that the loop fills. */
  function Grouped(entries: seq<Entry>): map<nat, seq<Section>>
    decreases |entries|
  {
    if entries == [] then map[]
    else
      var front, last := Grouped(entries[..|entries| - 1]), entries[|entries| - 1];
      front[last.id := (if last.id in front then front[last.id] else []) + [last.section]]
  }

  ghost predicate StartsInside(sections: map<nat, seq<Section>>, len: nat)
  {
    forall id, k {:trigger sections[id][k]} :: id in sections && 0 <= k < |sections[id]| ==>
      sections[id][k].start <= len && sections[id][k].size < WORD
  }

  lemma GroupedAppend(entries: seq<Entry>, e: Entry)
    ensures var front := Grouped(entries);
            Grouped(entries + [e]) == front[e.id := (if e.id in front then front[e.id] else []) + [e.section]]
  {
    assert (entries + [e])[..|entries|] == entries;
  }

  function Prepend(done: seq<Entry>, r: Result<seq<Entry>>): Result<seq<Entry>>
  {
    if r.Err? then r else Ok(done + r.value)
  }

  /** One turn of the section loop. */
  lemma WalkStep(data: seq<Byte>, n: nat, pos: nat, done: seq<Entry>)
    requires n > 0
    ensures pos + 12 > |data| ==> Walk(data, n, pos).Err?
    ensures pos + 12 <= |data| ==>
      var size := U64(data, pos + 4);
      var next := (pos + 12 + size) % WORD;
      if next > |data| then Walk(data, n, pos).Err?
      else Prepend(done, Walk(data, n, pos))
           == Prepend(done + [Entry(U32(data, pos), Section(pos + 12, size))], Walk(data, n - 1, next))
  {
    hide U32, U64;
    if pos + 12 <= |data| {
      var next := (pos + 12 + U64(data, pos + 4)) % WORD;
      if next <= |data| && Walk(data, n - 1, next).Ok? {
        var e, rest := Entry(U32(data, pos), Section(pos + 12, U64(data, pos + 4))), Walk(data, n - 1, next).value;
        assert done + ([e] + rest) == done + [e] + rest;
      }
    }
  }

  lemma WalkStart(r: Result<seq<Entry>>)
    ensures r == Prepend([], r) && Grouped([]) == map[]
  {
    if r.Ok? {
      assert [] + r.value == r.value;
    }
  }

  lemma PrependErr(done: seq<Entry>, r: Result<seq<Entry>>)
    ensures Prepend(done, r).Err? <==> r.Err?
  {
  }

  lemma WalkEnd(data: seq<Byte>, pos: nat, done: seq<Entry>)
    ensures Prepend(done, Walk(data, 0, pos)) == Ok(done)
  {
    assert done + [] == done;
  }

  class BinFile {
    const data: seq<Byte>
    var pos: nat
    var sections: map<nat, seq<Section>>
    var version: nat
    var reading: Option<Section>

    ghost predicate Valid()
      reads this
    {
      Buffer(data) && pos <= |data| && StartsInside(sections, |data|)
    }

    constructor (data: seq<Byte>)
      requires Buffer(data)
      ensures this.data == data && Valid() && reading == None
    {
      this.data := data;
      pos := 0;
      sections := map[];
      version := 0;
      reading := None;
    }

    method ReadU32LE() returns (r: Result<nat>)
      requires Valid()
      modifies this`pos
      ensures Valid()
      ensures if old(pos) + 4 <= |data| then r == Ok(U32(data, old(pos))) && pos == old(pos) + 4
              else r.Err? && pos == old(pos)
      ensures r.Ok? ==>
        && old(pos) + 4 <= |data|
        && forall i {:trigger ByteOf(r.value, i)} :: 0 <= i < 4 ==> ByteOf(r.value, i) == data[old(pos) + i]
    {
      var newPos := (pos + 4) % WORD;
      if newPos > |data| {
        return Err("file pos too big");
      }
      U32Bytes(data, pos);
      r := Ok(U32(data, pos));
      pos := newPos;
    }

    method ReadU64LE() returns (r: Result<nat>)
      requires Valid()
      modifies this`pos
      ensures Valid()
      ensures if old(pos) + 8 <= |data| then r == Ok(U64(data, old(pos))) && pos == old(pos) + 8
              else r.Err? && pos == old(pos)
      ensures r.Ok? ==>
        && old(pos) + 8 <= |data|
        && forall i {:trigger ByteOf(r.value, i)} :: 0 <= i < 8 ==> ByteOf(r.value, i) == data[old(pos) + i]
    {
      var newPos := (pos + 8) % WORD;
      if newPos > |data| {
        return Err("file pos too big");
      }
      U64Bytes(data, pos);
      r := Ok(U64(data, pos));
      pos := newPos;
    }

    /** Returns where the bytes start, as the source returns their address. */
    method Read(len: nat) returns (r: Result<nat>)
      requires Valid() && len < WORD
      modifies this`pos
      ensures Valid()
      ensures var next := (old(pos) + len) % WORD;
              if next <= |data| then r == Ok(old(pos)) && pos == next else r.Err? && pos == old(pos)
    {
      var newPos := (pos + len) % WORD;
      if newPos > |data| {
        return Err("file pos too big");
      }
      r := Ok(pos);
      pos := newPos;
    }

    /** One turn of the section loop: the id and the section, or an exception. */
    method ReadEntry() returns (r: Result<Entry>)
      requires Valid()
      modifies this`pos
      ensures Valid()
      ensures r.Ok? <==> old(pos) + 12 <= |data| && (old(pos) + 12 + U64(data, old(pos) + 4)) % WORD <= |data|
      ensures r.Ok? ==>
        && r.value == Entry(U32(data, old(pos)), Section(old(pos) + 12, U64(data, old(pos) + 4)))
        && pos == (old(pos) + 12 + U64(data, old(pos) + 4)) % WORD
    {
      var t := ReadU32LE();
      if t.Err? {
        return Err("file pos too big");
      }
      var s := ReadU64LE();
      if s.Err? {
        return Err("file pos too big");
      }
      r := Ok(Entry(t.value, Section(pos, s.value)));
      var next := (pos + s.value) % WORD;
      if next > |data| {
        return Err("section invalid");
      }
      pos := next;
    }

    method ReadSections(n: nat) returns (r: Result<()>)
      requires Valid()
      modifies this`pos, this`sections
      ensures Valid()
      ensures r.Ok? <==> Walk(data, n, old(pos)).Ok?
      ensures r.Ok? ==> sections == Grouped(Walk(data, n, old(pos)).value)
    {
      hide U32, U64, Walk, Grouped, Prepend;
      sections := map[];
      ghost var start := pos;
      ghost var done: seq<Entry> := [];
      WalkStart(Walk(data, n, pos));
      for i := 0 to n
        invariant Valid() && sections == Grouped(done)
        invariant Walk(data, n, start) == Prepend(done, Walk(data, n - i, pos))
      {
        PrependErr(done, Walk(data, n - i, pos));
        WalkStep(data, n - i, pos, done);
        var e := ReadEntry();
        if e.Err? {
          return Err(e.reason);
        }
        var id, section := e.value.id, e.value.section;
        GroupedAppend(done, e.value);
        sections := sections[id := (if id in sections then sections[id] else []) + [section]];
        done := done + [e.value];
      }
      WalkEnd(data, pos, done);
      return Ok(());
    }

    method ReadFileData(fileType: seq<Byte>, maxVersion: nat) returns (r: Result<()>)
      requires Valid()
      modifies this
      ensures r.Ok? <==> Parse(data, fileType, maxVersion).Ok?
      ensures r.Ok? ==> sections == Grouped(Parse(data, fileType, maxVersion).value)
                        && version == U32(data, 4) && pos == 0 && reading == None
      ensures Valid()
    {
      if |data| < 12 {
        return Err("file too short");
      }
      pos := 4;
      if data[..4] != fileType {
        return Err("invalid file type");
      }
      var v := ReadU32LE();
      version := v.value;
      if version > maxVersion {
        return Err("invalid version");
      }
      var n := ReadU32LE();
      var nSections := n.value;
      if |data| < 12 + nSections * 12 {
        return Err("file too short for sections");
      }
      var read := ReadSections(nSections);
      if read.Err? {
        return read;
      }
      pos := 0;
      reading := None;
      return Ok(());
    }

    predicate Exists(sectionId: nat, sectionPos: nat)
      reads this
    {
      sectionId in sections && sectionPos < |sections[sectionId]|
    }

    method StartReadSection(sectionId: nat, sectionPos: nat) returns (r: Result<()>)
      requires Valid()
      modifies this`pos, this`reading
      ensures Valid()
      ensures r.Ok? <==> Exists(sectionId, sectionPos) && old(reading).None?
      ensures r.Ok? ==> reading == Some(sections[sectionId][sectionPos]) && pos == sections[sectionId][sectionPos].start
      ensures r.Err? ==> reading == old(reading) && pos == old(pos)
    {
      if sectionId !in sections {
        return Err("section does not exist");
      }
      if sectionPos >= |sections[sectionId]| {
        return Err("section pos too big");
      }
      if reading.Some? {
        return Err("already reading a section");
      }
      pos := sections[sectionId][sectionPos].start;
      reading := Some(sections[sectionId][sectionPos]);
      return Ok(());
    }

    /** With the check on, the bytes consumed since the start must be all of the section. */
    method EndReadSection(check: bool) returns (r: Result<()>)
      requires Valid() && reading.Some?
      modifies this`reading
      ensures Valid()
      ensures r.Ok? <==> !check || (pos - old(reading).value.start) % WORD == old(reading).value.size
      ensures r.Ok? ==> reading == None
    {
      if check && (pos - reading.value.start) % WORD != reading.value.size {
        return Err("invalid section size");
      }
      reading := None;
      return Ok(());
    }

    method GetSectionData(sectionId: nat, sectionPos: nat) returns (r: Result<nat>)
      ensures r.Ok? <==> Exists(sectionId, sectionPos)
      ensures r.Ok? ==> r.value == sections[sectionId][sectionPos].start
    {
      if sectionId !in sections {
        return Err("section does not exist");
      }
      if sectionPos >= |sections[sectionId]| {
        return Err("section pos too big");
      }
      return Ok(sections[sectionId][sectionPos].start);
    }

    method GetSectionSize(sectionId: nat, sectionPos: nat) returns (r: Result<nat>)
      ensures r.Ok? <==> Exists(sectionId, sectionPos)
      ensures r.Ok? ==> r.value == sections[sectionId][sectionPos].size
    {
      if sectionId !in sections {
        return Err("section does not exist");
      }
      if sectionPos >= |sections[sectionId]| {
        return Err("section pos too big");
      }
      return Ok(sections[sectionId][sectionPos].size);
    }
  }
}
