/**
 The container, the key header and the witness file as they are written, byte for byte, and what the readers
 make of them.
 */
module FileFormat {
  import opened Wrappers
  import opened LittleEndian
  import opened BinFile
  import opened ZKey
  import opened Witness

  /** A section to be written. */
  datatype Part = Part(id: nat, payload: seq<Byte>)

  /** Sections in file order: id, size, payload. */
  function Body(parts: seq<Part>): seq<Byte>
  {
    if parts == [] then []
    else Le(parts[0].id, 4) + (Le(|parts[0].payload|, 8) + (parts[0].payload + Body(parts[1..])))
  }

  function File(fileType: seq<Byte>, version: nat, parts: seq<Part>): seq<Byte>
  {
    fileType + (Le(version, 4) + (Le(|parts|, 4) + Body(parts)))
  }

  ghost predicate Writable(fileType: seq<Byte>, version: nat, parts: seq<Part>)
  {
    && |fileType| == 4 && version < HALF && |parts| < HALF && Buffer(File(fileType, version, parts))
    && forall i {:trigger parts[i]} :: 0 <= i < |parts| ==> parts[i].id < HALF
  }

  /** The entry of every part, the first header at `pos`. */
  function EntriesOf(parts: seq<Part>, pos: nat): (entries: seq<Entry>)
    ensures |entries| == |parts|
    decreases |parts|
  {
    if parts == [] then []
    else
      var size := |parts[0].payload|;
      [Entry(parts[0].id, Section(pos + 12, size))] + EntriesOf(parts[1..], pos + 12 + size)
  }

  lemma ReadsU32(data: seq<Byte>, pos: nat, v: nat)
    requires v < HALF && At(data, pos, Le(v, 4))
    ensures U32(data, pos) == v
  {
    Limits();
    ValueOfLe(data, pos, v, 4);
    U32Bytes(data, pos);
  }

  lemma ReadsU64(data: seq<Byte>, pos: nat, v: nat)
    requires v < WORD && At(data, pos, Le(v, 8))
    ensures U64(data, pos) == v
  {
    Limits();
    ValueOfLe(data, pos, v, 8);
    U64Bytes(data, pos);
  }

  lemma {:induction false} BodyLength(parts: seq<Part>)
    ensures |Body(parts)| >= 12 * |parts|
  {
    if parts == [] {
    } else {
      BodyLength(parts[1..]);
    }
  }

  /** Walking over written sections finds each of them where it was written, with its payload. */
  lemma {:induction false} WalkReads(data: seq<Byte>, parts: seq<Part>, pos: nat)
    requires Buffer(data) && At(data, pos, Body(parts))
    requires forall i {:trigger parts[i]} :: 0 <= i < |parts| ==> parts[i].id < HALF
    ensures Walk(data, |parts|, pos) == Ok(EntriesOf(parts, pos))
    ensures forall i {:trigger parts[i]} :: 0 <= i < |parts| ==>
      EntriesOf(parts, pos)[i].id == parts[i].id && EntriesOf(parts, pos)[i].section.size == |parts[i].payload|
      && At(data, EntriesOf(parts, pos)[i].section.start, parts[i].payload)
    decreases |parts|
  {
    hide U32, U64, At, Le;
    if parts == [] {
    } else {
      var p, rest := parts[0], parts[1..];
      var size := |p.payload|;
      SectionAt(data, p, rest, pos);
      ReadsU32(data, pos, p.id);
      ReadsU64(data, pos + 4, size);
      SmallWord(pos + 12 + size);
      WalkReads(data, rest, pos + 12 + size);
    }
  }

  lemma SectionAt(data: seq<Byte>, p: Part, rest: seq<Part>, pos: nat)
    requires Buffer(data) && At(data, pos, Body([p] + rest))
    ensures At(data, pos, Le(p.id, 4)) && At(data, pos + 4, Le(|p.payload|, 8)) && At(data, pos + 12, p.payload)
    ensures At(data, pos + 12 + |p.payload|, Body(rest)) && pos + 12 + |p.payload| <= |data|
  {
    var parts := [p] + rest;
    assert parts[0] == p && parts[1..] == rest;
    hide Le;
    AtSplit(data, pos, Le(p.id, 4), Le(|p.payload|, 8) + (p.payload + Body(rest)));
    AtSplit(data, pos + 4, Le(|p.payload|, 8), p.payload + Body(rest));
    AtSplit(data, pos + 12, p.payload, Body(rest));
  }

  /**
   Reading undoes writing: a written file of a version up to the given one parses to exactly its sections, each
   with its payload in place; a later version and another file type are refused.
   */
  lemma FileParses(fileType: seq<Byte>, version: nat, parts: seq<Part>, expected: seq<Byte>, maxVersion: nat)
    requires Writable(fileType, version, parts) && |expected| == 4
    ensures var data := File(fileType, version, parts);
      && (expected != fileType ==> Parse(data, expected, maxVersion) == Err("invalid file type"))
      && (expected == fileType && version > maxVersion ==> Parse(data, expected, maxVersion) == Err("invalid version"))
      && (expected == fileType && version <= maxVersion ==>
            && Parse(data, expected, maxVersion) == Ok(EntriesOf(parts, 12))
            && forall i {:trigger parts[i]} :: 0 <= i < |parts| ==>
                 EntriesOf(parts, 12)[i].id == parts[i].id
                 && EntriesOf(parts, 12)[i].section.size == |parts[i].payload|
                 && At(data, EntriesOf(parts, 12)[i].section.start, parts[i].payload))
  {
    var data := File(fileType, version, parts);
    hide U32, U64, Le, Body, EntriesOf, Walk;
    HeaderBytes(data, fileType, version, parts);
    BodyLength(parts);
    ReadsU32(data, 4, version);
    ReadsU32(data, 8, |parts|);
    WalkReads(data, parts, 12);
  }

  lemma HeaderBytes(data: seq<Byte>, fileType: seq<Byte>, version: nat, parts: seq<Part>)
    requires |fileType| == 4 && data == File(fileType, version, parts)
    ensures |data| == 12 + |Body(parts)| && data[..4] == fileType
    ensures At(data, 4, Le(version, 4)) && At(data, 8, Le(|parts|, 4)) && At(data, 12, Body(parts))
  {
    hide Le, Body;
    var counted := Le(|parts|, 4) + Body(parts);
    assert At(data, 0, data);
    AtSplit(data, 0, fileType, Le(version, 4) + counted);
    AtSplit(data, 4, Le(version, 4), counted);
    AtSplit(data, 8, Le(|parts|, 4), Body(parts));
  }

  /** The sections of one id, in file order. */
  function SectionsOf(entries: seq<Entry>, id: nat): seq<Section>
  {
    if entries == [] then []
    else (if entries[0].id == id then [entries[0].section] else []) + SectionsOf(entries[1..], id)
  }

  lemma {:induction false} SectionsOfAppend(entries: seq<Entry>, e: Entry, id: nat)
    ensures SectionsOf(entries + [e], id) == SectionsOf(entries, id) + if e.id == id then [e.section] else []
  {
    if entries == [] {
    } else {
      SectionsOfAppend(entries[1..], e, id);
      assert (entries + [e])[1..] == entries[1..] + [e];
    }
  }

  /** The reader's map holds, for every id that occurs, the sections of that id in file order. */
  lemma {:induction false} GroupedIs(entries: seq<Entry>, id: nat)
    ensures id in Grouped(entries) <==> SectionsOf(entries, id) != []
    ensures id in Grouped(entries) ==> Grouped(entries)[id] == SectionsOf(entries, id)
    decreases |entries|
  {
    if entries == [] {
    } else {
      var front, last := entries[..|entries| - 1], entries[|entries| - 1];
      GroupedIs(front, id);
      SectionsOfAppend(front, last, id);
      assert entries == front + [last];
    }
  }

  // ---------------------------------------------------------------------------------------
  // The key header
  // ---------------------------------------------------------------------------------------

  /** The fields of section 2 of a proving key, as they are written. */
  datatype KeyFields = KeyFields(
    q: seq<Byte>, r: seq<Byte>, nVars: nat, nPublic: nat, domainSize: nat,
    alpha1: seq<Byte>, beta1: seq<Byte>, beta2: seq<Byte>, gamma2: seq<Byte>, delta1: seq<Byte>, delta2: seq<Byte>)

  ghost predicate FieldsOk(k: KeyFields)
  {
    && 4 * |k.q| < HALF && |k.r| < HALF && k.nVars < HALF && k.nPublic < HALF && k.domainSize < HALF
    && |k.alpha1| == |k.beta1| == |k.delta1| == 2 * |k.q| && |k.beta2| == |k.gamma2| == |k.delta2| == 4 * |k.q|
  }

  /** Bytes with their length in front. */
  function Counted(x: seq<Byte>, rest: seq<Byte>): (bytes: seq<Byte>)
    ensures |bytes| == 4 + |x| + |rest|
  {
    Le(|x|, 4) + (x + rest)
  }

  function PrimesBytes(k: KeyFields, rest: seq<Byte>): (bytes: seq<Byte>)
    ensures |bytes| == 8 + |k.q| + |k.r| + |rest|
  {
    Counted(k.q, Counted(k.r, rest))
  }

  function CountsBytes(k: KeyFields, rest: seq<Byte>): (bytes: seq<Byte>)
    ensures |bytes| == 12 + |rest|
  {
    Le(k.nVars, 4) + (Le(k.nPublic, 4) + (Le(k.domainSize, 4) + rest))
  }

  function PointsBytes(k: KeyFields): seq<Byte>
  {
    k.alpha1 + (k.beta1 + (k.beta2 + (k.gamma2 + (k.delta1 + k.delta2))))
  }

  function KeyBytes(k: KeyFields): seq<Byte> { PrimesBytes(k, CountsBytes(k, PointsBytes(k))) }

  lemma PrimesRead(data: seq<Byte>, pos: nat, k: KeyFields, rest: seq<Byte>)
    requires FieldsOk(k) && At(data, pos, PrimesBytes(k, rest))
    ensures pos + 8 + |k.q| + |k.r| + |rest| <= |data|
    ensures U32(data, pos) == |k.q| && At(data, pos + 4, k.q)
    ensures U32(data, pos + 4 + |k.q|) == |k.r| && At(data, pos + 8 + |k.q|, k.r)
    ensures At(data, pos + 8 + |k.q| + |k.r|, rest)
  {
    hide U32, Counted, At;
    CountedRead(data, pos, k.q, Counted(k.r, rest));
    CountedRead(data, pos + 4 + |k.q|, k.r, rest);
  }

  lemma CountedRead(data: seq<Byte>, pos: nat, x: seq<Byte>, rest: seq<Byte>)
    requires |x| < HALF && At(data, pos, Counted(x, rest))
    ensures pos + 4 + |x| + |rest| <= |data|
    ensures U32(data, pos) == |x| && At(data, pos + 4, x) && At(data, pos + 4 + |x|, rest)
  {
    hide U32, Le, At;
    AtSplit(data, pos, Le(|x|, 4), x + rest);
    AtSplit(data, pos + 4, x, rest);
    AtInside(data, pos + 4 + |x|, rest);
    ReadsU32(data, pos, |x|);
  }

  lemma CountsRead(data: seq<Byte>, pos: nat, k: KeyFields, rest: seq<Byte>)
    requires FieldsOk(k) && At(data, pos, CountsBytes(k, rest))
    ensures pos + 12 + |rest| <= |data|
    ensures U32(data, pos) == k.nVars && U32(data, pos + 4) == k.nPublic && U32(data, pos + 8) == k.domainSize
    ensures At(data, pos + 12, rest)
  {
    var tail := Le(k.domainSize, 4) + rest;
    var second := Le(k.nPublic, 4) + tail;
    hide U32, Le, At;
    AtSplit(data, pos, Le(k.nVars, 4), second);
    AtSplit(data, pos + 4, Le(k.nPublic, 4), tail);
    AtSplit(data, pos + 8, Le(k.domainSize, 4), rest);
    AtInside(data, pos + 12, rest);
    ReadsU32(data, pos, k.nVars);
    ReadsU32(data, pos + 4, k.nPublic);
    ReadsU32(data, pos + 8, k.domainSize);
  }

  lemma PointsRead(data: seq<Byte>, pos: nat, k: KeyFields)
    requires FieldsOk(k) && At(data, pos, PointsBytes(k))
    ensures var n := |k.q|;
      && pos + 18 * n <= |data|
      && At(data, pos, k.alpha1) && At(data, pos + 2 * n, k.beta1) && At(data, pos + 4 * n, k.beta2)
      && At(data, pos + 8 * n, k.gamma2) && At(data, pos + 12 * n, k.delta1) && At(data, pos + 14 * n, k.delta2)
  {
    hide At;
    var n := |k.q|;
    AtSplit(data, pos, k.alpha1, k.beta1 + (k.beta2 + (k.gamma2 + (k.delta1 + k.delta2))));
    AtSplit(data, pos + 2 * n, k.beta1, k.beta2 + (k.gamma2 + (k.delta1 + k.delta2)));
    AtSplit(data, pos + 4 * n, k.beta2, k.gamma2 + (k.delta1 + k.delta2));
    AtSplit(data, pos + 8 * n, k.gamma2, k.delta1 + k.delta2);
    AtSplit(data, pos + 12 * n, k.delta1, k.delta2);
    AtInside(data, pos + 14 * n, k.delta2);
  }

  lemma AtInside(data: seq<Byte>, pos: nat, bytes: seq<Byte>)
    requires At(data, pos, bytes)
    ensures pos + |bytes| <= |data|
  {
  }

  lemma PointLengths(n: nat)
    requires 4 * n < HALF
    ensures Times32(n, 2) == 2 * n && Times32(n, 4) == 4 * n
  {
  }

  lemma PointsLength(k: KeyFields)
    requires FieldsOk(k)
    ensures |PointsBytes(k)| == 18 * |k.q| && 4 * |k.q| < HALF
  {
  }

  /** The three groups of fields, one after the other. */
  lemma KeyParts(data: seq<Byte>, start: nat, k: KeyFields)
    requires FieldsOk(k) && At(data, start, KeyBytes(k))
    ensures var (fields, points) := (start + 8 + |k.q| + |k.r|, PointsBytes(k));
      && |KeyBytes(k)| == 20 + 19 * |k.q| + |k.r|
      && At(data, start, PrimesBytes(k, CountsBytes(k, points)))
      && At(data, fields, CountsBytes(k, points)) && At(data, fields + 12, points)
  {
    hide U32, CountsBytes, PrimesBytes, PointsBytes, Le, At, FieldsOk;
    var points := PointsBytes(k);
    PointsLength(k);
    PrimesRead(data, start, k, CountsBytes(k, points));
    CountsRead(data, start + 8 + |k.q| + |k.r|, k, points);
  }

  ghost predicate PrimesMatch(data: seq<Byte>, k: KeyFields, h: Header)
  {
    h.n8q == |k.q| && At(data, h.qPrime, k.q) && h.n8r == |k.r| && At(data, h.rPrime, k.r)
  }

  ghost predicate CountsMatch(k: KeyFields, h: Header)
  {
    h.nVars == k.nVars && h.nPublic == k.nPublic && h.domainSize == k.domainSize
  }

  ghost predicate PointsMatch(data: seq<Byte>, k: KeyFields, h: Header)
  {
    && At(data, h.alpha1, k.alpha1) && At(data, h.beta1, k.beta1) && At(data, h.beta2, k.beta2)
    && At(data, h.gamma2, k.gamma2) && At(data, h.delta1, k.delta1) && At(data, h.delta2, k.delta2)
  }

  /** Where a header says its fields are. */
  lemma HeaderPlaces(data: seq<Byte>, start: nat, size: nat, h: Header)
    requires HeaderAt(data, start, size, h) && 4 * h.n8q < HALF
    ensures var fields := start + 8 + h.n8q + h.n8r;
      && h.rPrime + h.n8r == fields
      && h.alpha1 == fields + 12 && h.beta1 == fields + 12 + 2 * h.n8q && h.beta2 == fields + 12 + 4 * h.n8q
      && h.gamma2 == fields + 12 + 8 * h.n8q && h.delta1 == fields + 12 + 12 * h.n8q
      && h.delta2 == fields + 12 + 14 * h.n8q
  {
    hide U32, Times32;
    PointLengths(h.n8q);
  }

  lemma PrimesBack(data: seq<Byte>, start: nat, k: KeyFields, h: Header)
    requires FieldsOk(k) && At(data, start, KeyBytes(k)) && HeaderAt(data, start, |KeyBytes(k)|, h)
    ensures PrimesMatch(data, k, h) && 4 * h.n8q < HALF
  {
    hide U32, At, HeaderAt, PrimesBytes, CountsBytes, PointsBytes, FieldsOk;
    PointsLength(k);
    HeaderPrimes(data, start, |KeyBytes(k)|, h);
    PrimesRead(data, start, k, CountsBytes(k, PointsBytes(k)));
  }

  lemma HeaderPrimes(data: seq<Byte>, start: nat, size: nat, h: Header)
    requires HeaderAt(data, start, size, h)
    ensures start + 8 + h.n8q <= |data|
    ensures h.n8q == U32(data, start) && h.qPrime == start + 4
    ensures h.n8r == U32(data, start + 4 + h.n8q) && h.rPrime == start + 8 + h.n8q
  {
    hide U32, Times32;
  }

  lemma CountsBack(data: seq<Byte>, start: nat, k: KeyFields, h: Header)
    requires FieldsOk(k) && At(data, start, KeyBytes(k)) && HeaderAt(data, start, |KeyBytes(k)|, h)
    ensures CountsMatch(k, h)
  {
    hide U32, At, KeyBytes, Times32, CountsBytes, PointsBytes, PrimesBytes, FieldsOk;
    PrimesBack(data, start, k, h);
    HeaderPlaces(data, start, |KeyBytes(k)|, h);
    KeyParts(data, start, k);
    CountsRead(data, start + 8 + |k.q| + |k.r|, k, PointsBytes(k));
  }

  lemma PointsBack(data: seq<Byte>, start: nat, k: KeyFields, h: Header)
    requires FieldsOk(k) && At(data, start, KeyBytes(k)) && HeaderAt(data, start, |KeyBytes(k)|, h)
    ensures PointsMatch(data, k, h)
  {
    hide U32, At, KeyBytes, Times32, CountsBytes, PointsBytes, PrimesBytes, FieldsOk, HeaderAt;
    PrimesBack(data, start, k, h);
    HeaderPlaces(data, start, |KeyBytes(k)|, h);
    KeyParts(data, start, k);
    PointsRead(data, start + 20 + |k.q| + |k.r|, k);
  }

  lemma KeyEnds(data: seq<Byte>, start: nat, k: KeyFields)
    requires FieldsOk(k) && At(data, start, KeyBytes(k))
    ensures FieldsEnd(data, start) == Some((start + |KeyBytes(k)|, |k.r|))
  {
    hide U32, At, KeyBytes, FieldsEnd, CountsBytes, PointsBytes, PrimesBytes;
    KeyParts(data, start, k);
    AtInside(data, start, KeyBytes(k));
    PrimesRead(data, start, k, CountsBytes(k, PointsBytes(k)));
    EndsAt(data, start, |k.q|, |k.r|);
  }

  lemma EndsAt(data: seq<Byte>, start: nat, n: nat, r: nat)
    requires 4 * n < HALF && start + 20 + 19 * n + r <= |data|
    requires U32(data, start) == n && U32(data, start + 4 + n) == r
    ensures FieldsEnd(data, start) == Some((start + 20 + 19 * n + r, r))
  {
    PointLengths(n);
    hide U32, Times32;
  }

  /**
   Reading undoes writing for the key header: the fields of a written section 2 end where it does, and a header
   read from it has the written counts and finds each prime and each point where it was written.
   */
  lemma KeyReadsBack(data: seq<Byte>, start: nat, k: KeyFields, h: Header)
    requires FieldsOk(k) && At(data, start, KeyBytes(k))
    ensures Ends(data, Section(start, |KeyBytes(k)|)) && FieldsEnd(data, start).value.1 == |k.r|
    ensures HeaderAt(data, start, |KeyBytes(k)|, h) ==>
      PrimesMatch(data, k, h) && CountsMatch(k, h) && PointsMatch(data, k, h)
  {
    KeyEnds(data, start, k);
    hide HeaderAt, FieldsEnd, KeyBytes, At, PrimesMatch, CountsMatch, PointsMatch;
    if HeaderAt(data, start, |KeyBytes(k)|, h) {
      PrimesBack(data, start, k, h);
      CountsBack(data, start, k, h);
      PointsBack(data, start, k, h);
    }
  }

  // ---------------------------------------------------------------------------------------
  // Witness files
  // ---------------------------------------------------------------------------------------

  /** Values of 32 bytes, one after the other. */
  function ValuesBytes(values: seq<nat>): (bytes: seq<Byte>)
    ensures |bytes| == 32 * |values|
  {
    if values == [] then [] else Le(values[0], 32) + ValuesBytes(values[1..])
  }

  lemma {:induction false} ValuesRead(data: seq<Byte>, start: nat, values: seq<nat>, i: nat)
    requires At(data, start, ValuesBytes(values)) && i < |values|
    requires forall k {:trigger values[k]} :: 0 <= k < |values| ==> values[k] < Limit(32)
    ensures start + 32 * i + 32 <= |data| && ValueAt(data, start, i) == values[i]
    decreases |values|
  {
    hide Limit, Value, Le;
    AtSplit(data, start, Le(values[0], 32), ValuesBytes(values[1..]));
    if i == 0 {
      ValueOfLe(data, start, values[0], 32);
    } else {
      ValuesRead(data, start + 32, values[1..], i - 1);
      assert start + 32 + 32 * (i - 1) == start + 32 * i;
    }
  }

  /**
   Reading undoes writing for witness files: the second reader returns exactly the values of a file written
   with a header section 1 and the values as section 2.
   */
  lemma WitnessReadsBack(version: nat, header: seq<Byte>, values: seq<nat>, prime: nat)
    requires prime > 0 && version < HALF
    requires forall k {:trigger values[k]} :: 0 <= k < |values| ==> values[k] < Limit(32)
    requires Slice(File(MAGIC, version, [Part(1, header), Part(2, ValuesBytes(values))]))
    ensures var r := Parsed(File(MAGIC, version, [Part(1, header), Part(2, ValuesBytes(values))]), prime);
      r.Ok? && |r.value| == |values| && forall i :: 0 <= i < |values| ==> r.value[i] == values[i] % prime
  {
    var data := File(MAGIC, version, [Part(1, header), Part(2, ValuesBytes(values))]);
    var e1, e2 := WitnessSections(version, header, ValuesBytes(values));
    hide File, ValuesBytes, Parse, Parsed, Limit, ValueAt, At, Grouped;
    ReadersAgree(data, version, e1, e2, prime);
    AtInside(data, e2.section.start, ValuesBytes(values));
    forall i | 0 <= i < |values| ensures ValueAt(data, e2.section.start, i) == values[i] {
      ValuesRead(data, e2.section.start, values, i);
    }
  }

  lemma WitnessSections(version: nat, header: seq<Byte>, payload: seq<Byte>) returns (e1: Entry, e2: Entry)
    requires version < HALF && Slice(File(MAGIC, version, [Part(1, header), Part(2, payload)]))
    ensures var data := File(MAGIC, version, [Part(1, header), Part(2, payload)]);
      && Parse(data, MAGIC, version) == Ok([e1, e2]) && e1.id == 1 && e2.id == 2
      && e2.section.size == |payload| && At(data, e2.section.start, payload)
  {
    var parts := [Part(1, header), Part(2, payload)];
    TwoEntriesOf(header, payload);
    assert Buffer(File(MAGIC, version, parts));
    hide File, EntriesOf, Parse, At;
    FileParses(MAGIC, version, parts, MAGIC, version);
    e1, e2 := EntriesOf(parts, 12)[0], EntriesOf(parts, 12)[1];
    assert EntriesOf(parts, 12) == [e1, e2];
    assert parts[0].id == 1 && parts[1].id == 2 && parts[1].payload == payload;
  }

  lemma TwoEntriesOf(a: seq<Byte>, b: seq<Byte>)
    ensures |EntriesOf([Part(1, a), Part(2, b)], 12)| == 2
  {
  }
}
