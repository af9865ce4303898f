/** The header of a proving key, and the coefficient records that the prover takes from section 4. */
module ZKey {
  import opened Wrappers
  import opened LittleEndian
  import opened BinFile
  import opened Modular

  /** Header fields; primes and points are given by where they start in the file. */
  datatype Header = Header(n8q: nat, qPrime: nat, n8r: nat, rPrime: nat, nVars: nat, nPublic: nat, domainSize: nat,
                           alpha1: nat, beta1: nat, beta2: nat, gamma2: nat, delta1: nat, delta2: nat, nCoefs: nat)

  /** `h->n8q * k` in 32 bits. */
  function Times32(n: nat, k: nat): (r: nat)
    ensures r < HALF
  {
    n * k % HALF
  }

  /** What the header fields are, by their place after the start of section 2. */
  ghost predicate HeaderAt(data: seq<Byte>, start: nat, size: nat, h: Header)
  {
    var g1, g2 := Times32(h.n8q, 2), Times32(h.n8q, 4);
    && size == 20 + h.n8q + h.n8r + 3 * g1 + 3 * g2
    && start + size <= |data|
    && h.n8q == U32(data, start)
    && h.qPrime == start + 4
    && h.n8r == U32(data, start + 4 + h.n8q)
    && h.rPrime == start + 8 + h.n8q
    && var fields := h.rPrime + h.n8r;
    && h.nVars == U32(data, fields) && h.nPublic == U32(data, fields + 4) && h.domainSize == U32(data, fields + 8)
    && h.alpha1 == fields + 12 && h.beta1 == h.alpha1 + g1 && h.beta2 == h.beta1 + g1 && h.gamma2 == h.beta2 + g2
    && h.delta1 == h.gamma2 + g2 && h.delta2 == h.delta1 + g1
  }

  /** Where the fields that start at `start` end, and n8r; None where a read runs out of the file. */
  function FieldsEnd(data: seq<Byte>, start: nat): Option<(nat, nat)>
  {
    if start + 4 > |data| then None
    else
      var n8q := U32(data, start);
      var second := start + 4 + n8q;
      if second + 4 > |data| then None
      else
        var n8r := U32(data, second);
        var end := second + 4 + n8r + 12 + 3 * Times32(n8q, 2) + 3 * Times32(n8q, 4);
        if end > |data| then None else Some((end, n8r))
  }

  /** When the header loads: the exact conditions on sections 1, 2 and 4. */
  ghost predicate Loadable(f: BinFile)
    reads f
  {
    && f.Exists(1, 0) && f.Exists(2, 0) && f.Exists(4, 0)
    && var s1, s2 := f.sections[1][0], f.sections[2][0];
    && s1.size == 4 && s1.start + 4 <= |f.data| && U32(f.data, s1.start) == 1
    && Ends(f.data, s2) && (12 + FieldsEnd(f.data, s2.start).value.1) % HALF != 0
  }

  /** Reads of a prime and its length. */
  method ReadPrime(f: BinFile) returns (r: Result<(nat, nat)>)
    requires f.Valid()
    modifies f`pos
    ensures f.Valid()
    ensures r.Ok? <==> old(f.pos) + 4 <= |f.data| && old(f.pos) + 4 + U32(f.data, old(f.pos)) <= |f.data|
    ensures r.Ok? ==>
      && old(f.pos) + 4 <= |f.data| && r.value == (U32(f.data, old(f.pos)), old(f.pos) + 4)
      && f.pos == old(f.pos) + 4 + r.value.0
  {
    hide U32;
    var n := f.ReadU32LE();
    if n.Err? {
      return Err(n.reason);
    }
    SmallWord(f.pos + n.value);
    var p := f.Read(n.value);
    if p.Err? {
      return Err(p.reason);
    }
    return Ok((n.value, p.value));
  }

  /** Six points, in the order of the file. */
  method ReadPoints(f: BinFile, n8q: nat) returns (r: Result<seq<nat>>)
    requires f.Valid() && n8q < HALF
    modifies f`pos
    ensures f.Valid()
    ensures r.Ok? <==> old(f.pos) + 3 * Times32(n8q, 2) + 3 * Times32(n8q, 4) <= |f.data|
    ensures r.Ok? ==>
      var p, g1, g2 := old(f.pos), Times32(n8q, 2), Times32(n8q, 4);
      && r.value == [p, p + g1, p + 2 * g1, p + 2 * g1 + g2, p + 2 * g1 + 2 * g2, p + 3 * g1 + 2 * g2]
      && f.pos == p + 3 * g1 + 3 * g2
  {
    hide Times32;
    var g1, g2 := Times32(n8q, 2), Times32(n8q, 4);
    var alpha1 := ReadPoint(f, g1);
    if alpha1.Err? { return Err(alpha1.reason); }
    var beta1 := ReadPoint(f, g1);
    if beta1.Err? { return Err(beta1.reason); }
    var beta2 := ReadPoint(f, g2);
    if beta2.Err? { return Err(beta2.reason); }
    var gamma2 := ReadPoint(f, g2);
    if gamma2.Err? { return Err(gamma2.reason); }
    var delta1 := ReadPoint(f, g1);
    if delta1.Err? { return Err(delta1.reason); }
    var delta2 := ReadPoint(f, g2);
    if delta2.Err? { return Err(delta2.reason); }
    return Ok([alpha1.value, beta1.value, beta2.value, gamma2.value, delta1.value, delta2.value]);
  }

  /** One read of 32-bit length, for which the cursor cannot wrap. */
  method ReadPoint(f: BinFile, len: nat) returns (r: Result<nat>)
    requires f.Valid() && len < HALF
    modifies f`pos
    ensures f.Valid()
    ensures if old(f.pos) + len <= |f.data| then r == Ok(old(f.pos)) && f.pos == old(f.pos) + len else r.Err?
  {
    SmallWord(f.pos + len);
    r := f.Read(len);
  }

  /** Section 1: the protocol number, which must be 1, and nothing else. */
  method ReadProtocol(f: BinFile) returns (r: Result<()>)
    requires f.Valid() && f.reading.None?
    modifies f`pos, f`reading
    ensures f.Valid()
    ensures r.Ok? <==>
      && f.Exists(1, 0)
      && var s := f.sections[1][0]; s.size == 4 && s.start + 4 <= |f.data| && U32(f.data, s.start) == 1
    ensures r.Ok? ==>
      && f.Exists(1, 0) && f.reading.None?
      && var s := f.sections[1][0]; s.size == 4 && s.start + 4 <= |f.data| && U32(f.data, s.start) == 1
  {
    hide U32;
    var s := f.StartReadSection(1, 0);
    if s.Err? { return s; }
    var protocol := f.ReadU32LE();
    if protocol.Err? { return Err(protocol.reason); }
    if protocol.value != 1 { return Err("zkey file is not groth16"); }
    SmallWord(4);
    r := f.EndReadSection(true);
  }

  /** Three counts. */
  method ReadCounts(f: BinFile) returns (r: Result<(nat, nat, nat)>)
    requires f.Valid()
    modifies f`pos
    ensures f.Valid()
    ensures r.Ok? <==> old(f.pos) + 12 <= |f.data|
    ensures r.Ok? ==>
      var p := old(f.pos);
      && p + 12 <= |f.data| && r.value == (U32(f.data, p), U32(f.data, p + 4), U32(f.data, p + 8)) && f.pos == p + 12
  {
    hide U32;
    var nVars := f.ReadU32LE();
    if nVars.Err? { return Err(nVars.reason); }
    var nPublic := f.ReadU32LE();
    if nPublic.Err? { return Err(nPublic.reason); }
    var domainSize := f.ReadU32LE();
    if domainSize.Err? { return Err(domainSize.reason); }
    return Ok((nVars.value, nPublic.value, domainSize.value));
  }

  /** Section 2, between its start and end checks; the coefficient count is filled in later. */
  method ReadFields(f: BinFile) returns (r: Result<Header>)
    requires f.Valid()
    modifies f`pos
    ensures f.Valid()
    ensures r.Ok? <==> FieldsEnd(f.data, old(f.pos)).Some?
    ensures r.Ok? ==> FieldsEnd(f.data, old(f.pos)).value == (f.pos, r.value.n8r)
    ensures r.Ok? ==> f.pos >= old(f.pos) && HeaderAt(f.data, old(f.pos), f.pos - old(f.pos), r.value)
  {
    hide U32, Times32;
    var q := ReadPrime(f);
    if q.Err? { return Err(q.reason); }
    var rr := ReadPrime(f);
    if rr.Err? { return Err(rr.reason); }
    var counts := ReadCounts(f);
    if counts.Err? { return Err(counts.reason); }
    var points := ReadPoints(f, q.value.0);
    if points.Err? { return Err(points.reason); }
    var p := points.value;
    return Ok(Header(q.value.0, q.value.1, rr.value.0, rr.value.1, counts.value.0, counts.value.1, counts.value.2,
                     p[0], p[1], p[2], p[3], p[4], p[5], 0));
  }

  method LoadHeader(f: BinFile) returns (r: Result<Header>)
    requires f.Valid() && f.reading.None?
    modifies f`pos, f`reading
    ensures f.Valid()
    ensures r.Ok? <==> Loadable(f)
    ensures r.Ok? ==>
      && f.Exists(1, 0) && f.Exists(2, 0) && f.Exists(4, 0) && f.reading.None?
      && var s1, s2, s4 := f.sections[1][0], f.sections[2][0], f.sections[4][0];
      && s1.size == 4 && s1.start + 4 <= |f.data| && U32(f.data, s1.start) == 1
      && HeaderAt(f.data, s2.start, s2.size, r.value)
      && var m := (12 + r.value.n8r) % HALF;
      && m > 0 && r.value.nCoefs == s4.size / m
  {
    hide U32, HeaderAt, FieldsEnd;
    var s := ReadProtocol(f);
    if s.Err? { return Err(s.reason); }
    var fields := ReadSection2(f);
    if fields.Err? { return fields; }
    var size := f.GetSectionSize(4, 0);
    if size.Err? { return Err(size.reason); }
    var h := fields.value;
    var record := (12 + h.n8r) % HALF;
    if record == 0 { return Err("division by zero"); }
    r := Ok(h.(nCoefs := size.value / record));
    SameFields(f.data, f.sections[2][0].start, f.sections[2][0].size, h, size.value / record);
  }

  method ReadSection2(f: BinFile) returns (r: Result<Header>)
    requires f.Valid() && f.reading.None?
    modifies f`pos, f`reading
    ensures f.Valid()
    ensures r.Ok? <==> f.Exists(2, 0) && Ends(f.data, f.sections[2][0])
    ensures r.Ok? ==>
      && f.Exists(2, 0) && f.reading.None?
      && var s := f.sections[2][0];
      && HeaderAt(f.data, s.start, s.size, r.value) && FieldsEnd(f.data, s.start).value.1 == r.value.n8r
  {
    hide U32, HeaderAt, FieldsEnd;
    var s := f.StartReadSection(2, 0);
    if s.Err? { return Err(s.reason); }
    ghost var start := f.pos;
    r := ReadFields(f);
    if r.Err? { return; }
    SmallWord(f.pos - start);
    s := f.EndReadSection(true);
    if s.Err? { return Err(s.reason); }
  }

  /** The fields of a section end where the section does. */
  ghost predicate Ends(data: seq<Byte>, s: Section)
  {
    FieldsEnd(data, s.start).Some? && FieldsEnd(data, s.start).value.0 == s.start + s.size
  }

  lemma SameFields(data: seq<Byte>, start: nat, size: nat, h: Header, nCoefs: nat)
    requires HeaderAt(data, start, size, h)
    ensures HeaderAt(data, start, size, h.(nCoefs := nCoefs))
  {
  }

  // ---------------------------------------------------------------------------------------
  // Coefficients
  // ---------------------------------------------------------------------------------------

  /** Record i of section 4, skipping its leading count of four bytes, ends inside the section. */
  ghost predicate RecordInside(size: nat, record: nat, i: nat)
  {
    4 + (i + 1) * record <= size
  }

  /** A section 4 of a count and k records is taken as k records, each of them inside it. */
  lemma CoefficientsCounted(size: nat, n8r: nat, record: nat, k: nat)
    requires record == 12 + n8r && size == 4 + k * record
    ensures size / record == k && forall i :: 0 <= i < k ==> RecordInside(size, record, i)
  {
    QuotientOf(size, record, k, 4);
    forall i | 0 <= i < k ensures RecordInside(size, record, i) {
      Multiples(i + 1, k, record);
    }
  }

  lemma QuotientOf(x: nat, m: nat, k: nat, rest: nat)
    requires m > 0 && x == k * m + rest && rest < m
    ensures x / m == k && x % m == rest
  {
    ModUnique(m, x, k, rest);
    var d := x / m - k;
    assert m * d == m * (x / m) - m * k;
    MulAtLeast(m, d);
  }

  lemma Multiples(i: nat, j: nat, m: nat)
    ensures i <= j ==> i * m <= j * m
  {
    if i <= j {
      assert (j - i) * m >= 0;
      assert j * m == i * m + (j - i) * m;
    }
  }

  /**
   For any size, the division counts only records that fit exactly when at least four bytes are left over
   after whole records, or there is no record at all.
   */
  lemma RecordsFitIff(size: nat, record: nat)
    requires record > 0
    ensures (forall i :: 0 <= i < size / record ==> RecordInside(size, record, i))
       <==> size / record == 0 || size % record >= 4
  {
    var k, rest := size / record, size % record;
    assert size == k * record + rest;
    forall i | 0 <= i < k && rest >= 4 ensures RecordInside(size, record, i) {
      Multiples(i + 1, k, record);
    }
    if k > 0 && rest < 4 {
      assert !RecordInside(size, record, k - 1);
    }
  }
}
