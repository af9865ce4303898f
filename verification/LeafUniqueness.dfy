/**
 When the leaves of a tree are really different.  Both routes compare commitments as text, and one value
 has many spellings: with 0x inside, in upper case, with blanks between bytes.  The lemmas say which
 spellings keep leaf hashes, and leaf bytes, distinct, and that every other spelling repeats one.
 */
module LeafUniqueness {
  import opened Wrappers
  import opened Tables
  import opened Enrolment
  import opened EnrolmentRuns
  import opened Npub

  // ---------------------------------------------------------------------------------------
  // Leaf hashes
  // ---------------------------------------------------------------------------------------

  ghost predicate HashesDistinct(s: Store)
  {
    forall i, j {:trigger s.leaves[i], s.leaves[j]} ::
      0 <= i < j < |s.leaves| && s.leaves[i].treeId == s.leaves[j].treeId ==>
      HashOf(s.leaves[i]) != HashOf(s.leaves[j])
  }

  /** What is stored is also what is hashed: always so on the membership route. */
  predicate StoresHash(req: Request)
  {
    req.route.Enroll? ==> Strip0x(req.commitment) == req.commitment
  }

  ghost predicate AllStoreHash(reqs: seq<Request>)
  {
    forall k {:trigger reqs[k]} :: 0 <= k < |reqs| ==> StoresHash(reqs[k])
  }

  ghost predicate StoredAsHashed(s: Store)
  {
    forall i {:trigger s.leaves[i]} :: 0 <= i < |s.leaves| ==> Strip0x(s.leaves[i].commitment) == s.leaves[i].commitment
  }

  /** A request adds at most one leaf, that of an admissible request. */
  lemma CommitLeaves(c: Config, s: Store, req: Request)
    ensures var s' := Commit(c, s, req).0;
      || s'.leaves == s.leaves
      || (Admissible(req) && |s'.leaves| == |s.leaves| + 1 && s'.leaves[..|s.leaves|] == s.leaves
          && s'.leaves[|s.leaves|].commitment == StoredText(req))
  {
    hide HexBytes, Lower, Strip0x, EventUsed, CommitmentExists;
  }

  lemma {:induction false} RunStoresHashes(c: Config, reqs: seq<Request>)
    requires AllStoreHash(reqs)
    ensures StoredAsHashed(Run(c, reqs))
  {
    hide Commit, Strip0x, HexBytes, Stored;
    if reqs == [] {
    } else {
      var front, last := reqs[..|reqs| - 1], reqs[|reqs| - 1];
      var s := Run(c, front);
      assert AllStoreHash(front) by {
        assert forall k :: 0 <= k < |front| ==> front[k] == reqs[k];
      }
      RunStoresHashes(c, front);
      CommitLeaves(c, s, last);
      if Admissible(last) {
        StoredIsStripped(last);
      }
    }
  }

  lemma StoredIsStripped(req: Request)
    requires Admissible(req) && StoresHash(req)
    ensures Strip0x(StoredText(req)) == StoredText(req)
  {
    if req.route.Membership? {
      HexHasNoPrefix(StoredText(req));
    }
  }

  /** Runs of either route in which no three-gate request contains 0x never put one hash into a tree twice. */
  lemma RunHashesDistinct(c: Config, reqs: seq<Request>)
    requires AllStoreHash(reqs)
    ensures HashesDistinct(Run(c, reqs))
  {
    RunKeeps(c, reqs);
    RunStoresHashes(c, reqs);
  }

  /** The same request spelt without 0x, for another event. */
  function Stripped(req: Request): Request
  {
    req.(commitment := Strip0x(req.commitment), eventId := req.eventId + "'")
  }

  /** A text that 0x can be removed from repeats the hash of the text without it. */
  lemma PrefixRepeatsHash(c: Config, req: Request)
    requires Admissible(req) && !StoresHash(req) && c.depth >= 1
    ensures StoresHash(Stripped(req))
    ensures var s := Run(c, [Stripped(req), req]);
      |s.leaves| == 2 && s.leaves[0].treeId == s.leaves[1].treeId && HashOf(s.leaves[0]) == HashOf(s.leaves[1])
  {
    var first := Stripped(req);
    HexHasNoPrefix(first.commitment);
    assert |first.eventId| != |req.eventId|;
    hide Run, HexBytes, Strip0x;
    BothEnrolled(c, first, req);
  }

  /**
   Exactly when an admissible request is safe: it never repeats a leaf hash, after any run of requests
   that contain no 0x themselves, if and only if there is no 0x to remove from its own text either.
   */
  lemma HashSafeIff(c: Config, req: Request)
    requires Admissible(req) && c.depth >= 1
    ensures (forall reqs {:trigger AllStoreHash(reqs)} :: AllStoreHash(reqs) ==> HashesDistinct(Run(c, reqs + [req])))
       <==> StoresHash(req)
  {
    hide Run, Admissible;
    if StoresHash(req) {
      forall reqs {:trigger AllStoreHash(reqs)} | AllStoreHash(reqs) ensures HashesDistinct(Run(c, reqs + [req])) {
        RunHashesDistinct(c, reqs + [req]);
      }
    } else {
      PrefixRepeatsHash(c, req);
      var reqs := [Stripped(req)];
      assert AllStoreHash(reqs) && reqs + [req] == [Stripped(req), req];
      assert !HashesDistinct(Run(c, reqs + [req]));
    }
  }

  // ---------------------------------------------------------------------------------------
  // Leaf bytes
  // ---------------------------------------------------------------------------------------

  /** The bytes a stored commitment spells. */
  function LeafBytes(row: LeafRow): Option<seq<nat>> { FromHex(Strip0x(row.commitment)) }

  lemma AdmissibleBytes(req: Request)
    requires Admissible(req)
    ensures var z := Strip0x(StoredText(req)); FromHex(z).Some? && |FromHex(z).value| == 32 && HexBytes(z) == 32
  {
    hide HexBytes, FromHex, Strip0x, Lower;
    var z := Strip0x(StoredText(req));
    if req.route.Membership? {
      HexHasNoPrefix(StoredText(req));
    }
    HexBytesCounts(z);
  }

  ghost predicate AllBytes(s: Store)
  {
    forall i {:trigger s.leaves[i]} :: 0 <= i < |s.leaves| ==>
      LeafBytes(s.leaves[i]).Some? && |LeafBytes(s.leaves[i]).value| == 32
  }

  /** Every leaf of every run spells exactly 32 bytes: the format check of the routes agrees with reading the hex. */
  lemma {:induction false} RunLeavesAreBytes(c: Config, reqs: seq<Request>)
    ensures AllBytes(Run(c, reqs))
  {
    hide Commit, Admissible, Strip0x, FromHex, Stored;
    if reqs == [] {
    } else {
      var front, last := reqs[..|reqs| - 1], reqs[|reqs| - 1];
      RunLeavesAreBytes(c, front);
      CommitLeaves(c, Run(c, front), last);
      if Admissible(last) {
        AdmissibleBytes(last);
      }
    }
  }

  ghost predicate BytesDistinct(s: Store)
  {
    forall i, j {:trigger s.leaves[i], s.leaves[j]} ::
      0 <= i < j < |s.leaves| && s.leaves[i].treeId == s.leaves[j].treeId ==>
      LeafBytes(s.leaves[i]) != LeafBytes(s.leaves[j])
  }

  /** The stored text is the one plain spelling of its value: lower case, no blanks, no 0x. */
  predicate Plain(req: Request) { StoredText(req) == Canonical(Strip0x(StoredText(req))) }

  ghost predicate AllPlain(reqs: seq<Request>)
  {
    forall k {:trigger reqs[k]} :: 0 <= k < |reqs| ==> Plain(reqs[k])
  }

  ghost predicate StoredPlain(s: Store)
  {
    forall i {:trigger s.leaves[i]} :: 0 <= i < |s.leaves| ==>
      s.leaves[i].commitment == Canonical(Strip0x(s.leaves[i].commitment))
  }

  lemma {:induction false} RunStoresPlain(c: Config, reqs: seq<Request>)
    requires AllPlain(reqs)
    ensures StoredPlain(Run(c, reqs))
  {
    hide Commit, Admissible, Strip0x, Canonical, Stored;
    if reqs == [] {
    } else {
      var front, last := reqs[..|reqs| - 1], reqs[|reqs| - 1];
      assert AllPlain(front) by {
        assert forall k :: 0 <= k < |front| ==> front[k] == reqs[k];
      }
      RunStoresPlain(c, front);
      CommitLeaves(c, Run(c, front), last);
    }
  }

  lemma SameBytesSameSpelling(x: string, y: string)
    requires FromHex(x).Some? && FromHex(x) == FromHex(y)
    ensures Canonical(x) == Canonical(y)
  {
    HexCanonical(x);
    HexCanonical(y);
  }

  /** Runs of plainly spelt requests, on either route, never put the same 32 bytes into a tree twice. */
  lemma RunBytesDistinct(c: Config, reqs: seq<Request>)
    requires AllPlain(reqs)
    ensures BytesDistinct(Run(c, reqs))
  {
    var s := Run(c, reqs);
    RunKeeps(c, reqs);
    RunLeavesAreBytes(c, reqs);
    RunStoresPlain(c, reqs);
    hide Run, FromHex, Strip0x, Canonical;
    forall i, j {:trigger s.leaves[i], s.leaves[j]} | 0 <= i < j < |s.leaves|
      && s.leaves[i].treeId == s.leaves[j].treeId
      ensures LeafBytes(s.leaves[i]) != LeafBytes(s.leaves[j])
    {
      if LeafBytes(s.leaves[i]) == LeafBytes(s.leaves[j]) {
        SameBytesSameSpelling(Strip0x(s.leaves[i].commitment), Strip0x(s.leaves[j].commitment));
      }
    }
  }

  lemma {:induction false} CanonicalTwice(x: string)
    ensures Canonical(Canonical(x)) == Canonical(x) && Lower(Canonical(x)) == Canonical(x)
  {
    if x == "" {
    } else {
      CanonicalTwice(x[1..]);
      if !IsSpace(x[0]) {
        SmallStays(x[0]);
        assert Canonical(x) == [Small(x[0])] + Canonical(x[1..]);
        assert Canonical(x)[1..] == Canonical(x[1..]);
      }
    }
  }

  lemma SmallStays(c: char)
    requires !IsSpace(c)
    ensures Small(Small(c)) == Small(c) && !IsSpace(Small(c))
  {
  }

  lemma {:induction false} FromHexCanonical(x: string)
    requires FromHex(x).Some?
    ensures FromHex(Canonical(x)) == FromHex(x)
    decreases |x|
  {
    if x == "" {
    } else {
      if IsSpace(x[0]) {
        FromHexCanonical(x[1..]);
      } else {
        FromHexCanonical(x[2..]);
        FromHexPair(x, Canonical(x[2..]));
      }
    }
  }

  lemma FromHexPair(x: string, rest: string)
    requires |x| >= 2 && IsHexDigit(x[0]) && IsHexDigit(x[1]) && rest == Canonical(x[2..])
    requires FromHex(x[2..]).Some? && FromHex(rest) == FromHex(x[2..])
    ensures FromHex(Canonical(x)) == FromHex(x)
  {
    hide FromHex, DigitValue;
    DigitKept(x[0]);
    DigitKept(x[1]);
    SmallDigit(x[0]);
    SmallDigit(x[1]);
    CanonicalStep(x);
    CanonicalStep(x[1..]);
    assert x[1..][1..] == x[2..];
    var y := [Small(x[0]), Small(x[1])] + rest;
    assert Canonical(x) == y && y[2..] == rest;
    ReadPair(x);
    ReadPair(y);
  }

  lemma SmallDigit(c: char)
    requires IsHexDigit(c)
    ensures IsHexDigit(Small(c)) && DigitValue(Small(c)) == DigitValue(c)
  {
  }

  lemma ReadPair(x: string)
    requires |x| >= 2 && IsHexDigit(x[0]) && IsHexDigit(x[1]) && FromHex(x[2..]).Some?
    ensures FromHex(x) == Some([16 * DigitValue(x[0]) + DigitValue(x[1])] + FromHex(x[2..]).value)
  {
    hide DigitValue;
    assert !IsSpace(x[0]);
  }

  /** The same value in its plain spelling, for another event. */
  function Plainly(req: Request): Request
  {
    req.(commitment := Canonical(Strip0x(StoredText(req))), eventId := req.eventId + "'")
  }

  lemma PlainlyIsPlain(req: Request)
    requires Admissible(req)
    ensures var x := Plainly(req); Admissible(x) && Plain(x) && StoredText(x) == x.commitment
    ensures FromHex(Strip0x(Plainly(req).commitment)) == FromHex(Strip0x(StoredText(req)))
  {
    var z := Strip0x(StoredText(req));
    var x := Canonical(z);
    AdmissibleBytes(req);
    hide HexBytes, FromHex, Strip0x, Lower, Canonical;
    FromHexCanonical(z);
    HexBytesCounts(x);
    HexHasNoPrefix(x);
    CanonicalTwice(z);
  }

  /** Any other spelling repeats the bytes of the plain one. */
  lemma RespellingRepeatsBytes(c: Config, req: Request)
    requires Admissible(req) && !Plain(req) && c.depth >= 1
    ensures Plain(Plainly(req))
    ensures var s := Run(c, [Plainly(req), req]);
      |s.leaves| == 2 && s.leaves[0].treeId == s.leaves[1].treeId && LeafBytes(s.leaves[0]) == LeafBytes(s.leaves[1])
  {
    var first := Plainly(req);
    PlainlyIsPlain(req);
    assert |first.eventId| != |req.eventId|;
    hide Run, HexBytes, Strip0x, FromHex, Canonical, Stored, Admissible;
    BothEnrolled(c, first, req);
  }

  /**
   Exactly when an admissible request is safe for bytes, on either route: it never repeats 32 bytes, after
   any run of plainly spelt requests, if and only if it is plainly spelt itself.
   */
  lemma BytesSafeIff(c: Config, req: Request)
    requires Admissible(req) && c.depth >= 1
    ensures (forall reqs {:trigger AllPlain(reqs)} :: AllPlain(reqs) ==> BytesDistinct(Run(c, reqs + [req])))
       <==> Plain(req)
  {
    hide Run, Admissible, Plain;
    if Plain(req) {
      forall reqs {:trigger AllPlain(reqs)} | AllPlain(reqs) ensures BytesDistinct(Run(c, reqs + [req])) {
        RunBytesDistinct(c, reqs + [req]);
      }
    } else {
      RespellingRepeatsBytes(c, req);
      var reqs := [Plainly(req)];
      assert AllPlain(reqs) && reqs + [req] == [Plainly(req), req];
      assert !BytesDistinct(Run(c, reqs + [req]));
    }
  }

  predicate Blank(s: string) { exists k :: 0 <= k < |s| && IsSpace(s[k]) }

  predicate UpperCase(s: string) { exists k :: 0 <= k < |s| && 'A' <= s[k] <= 'Z' }

  /**
   What plain means at the door: on the membership route, which strips 0x and lowers the case itself, that
   there are no blanks; on the other route, that there are no blanks, no 0x and no capitals.
   */
  lemma PlainMeans(req: Request)
    requires Admissible(req)
    ensures req.route.Membership? ==> (Plain(req) <==> !Blank(Strip0x(req.commitment)))
    ensures req.route.Enroll? ==>
      (Plain(req) <==>
        Strip0x(req.commitment) == req.commitment && !Blank(req.commitment) && !UpperCase(req.commitment))
  {
    hide HexBytes, Strip0x, Canonical;
    var t := StoredText(req);
    if req.route.Membership? {
      HexHasNoPrefix(t);
      LowerKeeps(Strip0x(req.commitment));
      FixedChars(t);
    } else {
      HexHasNoPrefix(Strip0x(t));
      AdmissibleBytes(req);
      if Plain(req) {
        FromHexCanonical(Strip0x(t));
        HexBytesCounts(t);
        HexHasNoPrefix(t);
      }
      FixedChars(t);
    }
  }

  lemma LowerKeeps(s: string)
    ensures !UpperCase(Lower(s))
    ensures Blank(Lower(s)) <==> Blank(s)
    ensures |Lower(s)| == |s| && forall k {:trigger Lower(s)[k]} :: 0 <= k < |s| ==> Lower(s)[k] == Small(s[k])
  {
    LowerChars(s);
    hide Lower;
    if Blank(s) {
      var k :| 0 <= k < |s| && IsSpace(s[k]);
      assert IsSpace(Lower(s)[k]);
    }
    if Blank(Lower(s)) {
      var k :| 0 <= k < |s| && IsSpace(Lower(s)[k]);
      assert IsSpace(s[k]);
    }
  }

  lemma {:induction false} LowerChars(s: string)
    ensures forall k {:trigger Lower(s)[k]} :: 0 <= k < |s| ==> Lower(s)[k] == Small(s[k])
  {
    if s == "" {
    } else {
      LowerChars(s[1..]);
    }
  }

  /** A blank in front is enough on the membership route: both texts are accepted, for the same 32 bytes. */
  lemma BlankAccepted(c: Config, r: Request, eventId: string)
    requires Admissible(r) && r.route.Membership? && eventId != r.eventId && c.depth >= 1
    ensures var r' := r.(commitment := " " + r.commitment, eventId := eventId);
      var (s1, s2) := (Run(c, [r]), Run(c, [r, r']));
      && Admissible(r') && Commit(c, s1, r').1.Enrolled?
      && |s2.leaves| == 2 && s2.leaves[0].treeId == s2.leaves[1].treeId
        && LeafBytes(s2.leaves[0]) == LeafBytes(s2.leaves[1])
  {
    var r' := r.(commitment := " " + r.commitment, eventId := eventId);
    BlankInFront(r.commitment);
    AdmissibleBytes(r);
    HexHasNoPrefix(StoredText(r));
    HexHasNoPrefix(StoredText(r'));
    assert StoredText(r') == " " + StoredText(r);
    assert StoredText(r')[1..] == StoredText(r);
    assert |StoredText(r')| != |StoredText(r)|;
    hide Inv, Commit, HexBytes, Strip0x, Stored;
    FirstEnrolled(c, r);
    SecondEnrolled(c, Run(c, [r]), r, r');
    assert [r, r'][..1] == [r];
  }

  lemma BlankInFront(x: string)
    ensures Strip0x(" " + x) == " " + Strip0x(x) && Lower(Strip0x(" " + x)) == " " + Lower(Strip0x(x))
    ensures HexBytes(" " + Lower(Strip0x(x))) == HexBytes(Lower(Strip0x(x)))
  {
    assert (" " + x)[1..] == x;
    assert (" " + Strip0x(x))[1..] == Strip0x(x);
    assert (" " + Lower(Strip0x(x)))[1..] == Lower(Strip0x(x));
  }
}
