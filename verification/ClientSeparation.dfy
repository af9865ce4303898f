/**
 Whether one client's requests can change what another client's logins accept.  Trees are named by
 client and purpose with a dash between, and both may contain dashes, so two clients can name one tree:
 this happens for exactly those pairs of ids of which one, with a dash after it, begins the other.
 */
module ClientSeparation {
  import opened Bits
  import opened MerkleSpec
  import opened Tables
  import opened Enrolment
  import opened EnrolmentRuns
  import opened LoginWindow

  // ---------------------------------------------------------------------------------------
  // Names
  // ---------------------------------------------------------------------------------------

  /** One id followed by the separator is a prefix of the other: what a caller can check. */
  predicate MayMeet(c1: string, c2: string) { c1 + "-" <= c2 || c2 + "-" <= c1 }

  ghost predicate Meet(c1: string, c2: string)
  {
    exists p1, p2 :: TreeId(c1, p1) == TreeId(c2, p2)
  }

  lemma ShorterIsPrefix(c1: string, p1: string, c2: string, p2: string)
    requires TreeId(c1, p1) == TreeId(c2, p2) && |c1| < |c2|
    ensures c1 + "-" <= c2
  {
    var t := TreeId(c1, p1);
    assert t[..|c1| + 1] == c1 + "-" && t[..|c2|] == c2;
    assert t[..|c2|][..|c1| + 1] == t[..|c1| + 1];
  }

  /** Purposes under which a client names the tree that a longer-named client has for purpose p. */
  function MeetingPurpose(c1: string, c2: string, p: string): string
    requires c1 + "-" <= c2
  {
    c2[|c1| + 1..] + "-" + p
  }

  lemma MeetingPurposeMeets(c1: string, c2: string, p: string)
    requires c1 + "-" <= c2
    ensures TreeId(c1, MeetingPurpose(c1, c2, p)) == TreeId(c2, p)
  {
    assert c2 == (c1 + "-") + c2[|c1| + 1..];
  }

  /** Equal names mean equal client and purpose, or clients that may meet. */
  lemma EqualNames(c1: string, p1: string, c2: string, p2: string)
    requires TreeId(c1, p1) == TreeId(c2, p2)
    ensures c1 == c2 ==> p1 == p2
    ensures c1 != c2 ==> MayMeet(c1, c2)
  {
    var t := TreeId(c1, p1);
    assert t[..|c1|] == c1 && t[..|c2|] == c2 && t[|c1| + 1..] == p1 && t[|c2| + 1..] == p2;
    if |c1| < |c2| {
      ShorterIsPrefix(c1, p1, c2, p2);
    } else if |c2| < |c1| {
      ShorterIsPrefix(c2, p2, c1, p1);
    }
  }

  /** Two clients can name one tree exactly when one id with a dash begins the other. */
  lemma MeetIff(c1: string, c2: string)
    requires c1 != c2
    ensures Meet(c1, c2) <==> MayMeet(c1, c2)
  {
    if Meet(c1, c2) {
      var p1, p2 :| TreeId(c1, p1) == TreeId(c2, p2);
      EqualNames(c1, p1, c2, p2);
    }
    if c1 + "-" <= c2 {
      MeetingPurposeMeets(c1, c2, "");
    } else if c2 + "-" <= c1 {
      MeetingPurposeMeets(c2, c1, "");
    }
  }

  // ---------------------------------------------------------------------------------------
  // One request
  // ---------------------------------------------------------------------------------------

  lemma {:induction false} RootsInForeign(rows: seq<RootRow>, more: seq<RootRow>, ids: set<string>)
    requires forall k {:trigger more[k]} | 0 <= k < |more| :: more[k].treeId !in ids
    ensures RootsIn(rows + more, ids) == RootsIn(rows, ids)
  {
    if more == [] {
      assert rows + more == rows;
    } else {
      var n := |more| - 1;
      RootsInForeign(rows, more[..n], ids);
      assert rows + more == (rows + more[..n]) + [more[n]];
      RootsInAppend(rows + more[..n], more[n], ids);
    }
  }

  lemma ForeignTreeKeeps(c: Config, s: Store, req: Request, clientId: string)
    requires req.clientId != clientId && TreeOf(req) !in ClientTrees(s, clientId)
    ensures var s' := Commit(c, s, req).0;
      ClientTrees(s', clientId) == ClientTrees(s, clientId) && ClientRoots(s', clientId) == ClientRoots(s, clientId)
  {
    hide Commit;
    var ids, s' := ClientTrees(s, clientId), Commit(c, s, req).0;
    CommitTouchesOnly(c, s, req);
    assert ClientTrees(s', clientId) == ids;
    assert s'.roots == s.roots + s'.roots[|s.roots|..];
    RootsInForeign(s.roots, s'.roots[|s.roots|..], ids);
  }

  /** On a tree that exists already, a request appends one root when it is accepted and none otherwise. */
  lemma KnownTreeRoots(c: Config, s: Store, req: Request)
    requires Inv(c, s) && TreeOf(req) in s.trees
    ensures var (s', out) := Commit(c, s, req);
      if out.Enrolled? then |s'.roots| == |s.roots| + 1 && s'.roots[..|s.roots|] == s.roots
        && s'.roots[|s.roots|].treeId == TreeOf(req)
      else s'.roots == s.roots
  {
    CommitKeeps(c, s, req);
  }

  lemma OwnTreeGrows(c: Config, s: Store, req: Request, clientId: string)
    requires Inv(c, s) && TreeOf(req) in ClientTrees(s, clientId)
    ensures var (s', out) := Commit(c, s, req);
      && ClientTrees(s', clientId) == ClientTrees(s, clientId)
      && |ClientRoots(s', clientId)| == |ClientRoots(s, clientId)| + (if out.Enrolled? then 1 else 0)
      && (!out.Enrolled? ==> ClientRoots(s', clientId) == ClientRoots(s, clientId))
  {
    hide Commit, Inv;
    var ids := ClientTrees(s, clientId);
    var (s', out) := Commit(c, s, req);
    CommitTouchesOnly(c, s, req);
    KnownTreeRoots(c, s, req);
    assert ClientTrees(s', clientId) == ids;
    if out.Enrolled? {
      assert s'.roots == s.roots + [s'.roots[|s.roots|]];
      RootsInAppend(s.roots, s'.roots[|s.roots|], ids);
    }
  }

  /**
   Another client's request leaves a client's recorded roots alone, and with them every answer of the
   root window, exactly unless it is accepted into a tree that belongs to that client.
   */
  lemma OtherClientCommit(c: Config, s: Store, req: Request, clientId: string)
    requires Inv(c, s) && req.clientId != clientId
    ensures var (s', out) := Commit(c, s, req);
      && (ClientRoots(s', clientId) == ClientRoots(s, clientId) <==>
        !(out.Enrolled? && TreeOf(req) in ClientTrees(s, clientId)))
      && (ClientRoots(s', clientId) == ClientRoots(s, clientId) ==>
            forall root, limit :: RootValidForClient(s', clientId, root, limit) <==>
              RootValidForClient(s, clientId, root, limit))
  {
    hide Commit, Inv, ClientRoots;
    if TreeOf(req) in ClientTrees(s, clientId) {
      OwnTreeGrows(c, s, req, clientId);
    } else {
      ForeignTreeKeeps(c, s, req, clientId);
    }
  }

  // ---------------------------------------------------------------------------------------
  // Whole runs
  // ---------------------------------------------------------------------------------------

  /** After these requests, this one changes nothing of what the client's logins accept. */
  ghost predicate Untouched(c: Config, reqs: seq<Request>, req: Request, clientId: string)
  {
    && ClientRoots(Run(c, reqs + [req]), clientId) == ClientRoots(Run(c, reqs), clientId)
    && forall root, limit :: RootValidForClient(Run(c, reqs + [req]), clientId, root, limit)
                        <==> RootValidForClient(Run(c, reqs), clientId, root, limit)
  }

  /** Clients that cannot meet are separated, after every run. */
  lemma ClientsSeparated(c: Config, reqs: seq<Request>, req: Request, clientId: string)
    requires req.clientId != clientId && !MayMeet(req.clientId, clientId)
    ensures Untouched(c, reqs, req, clientId)
  {
    hide MayMeet, Commit;
    var s, t := Run(c, reqs), TreeOf(req);
    RunKeeps(c, reqs);
    RunKeepsNames(c, reqs);
    if t in ClientTrees(s, clientId) {
      EqualNames(req.clientId, req.purpose, clientId, s.trees[t].purpose);
      assert false;
    }
    assert (reqs + [req])[..|reqs|] == reqs;
    OtherClientCommit(c, s, req, clientId);
  }

  /** The newest root of all decides a window of one row for the client that owns its tree. */
  lemma WindowOfOne(c: Config, s: Store, treeId: string, root: Hash)
    requires Inv(c, s) && treeId in s.trees && s.roots != [] && s.roots[|s.roots| - 1].treeId == treeId
    ensures RootValidForClient(s, s.trees[treeId].clientId, root, 1) <==> root == s.roots[|s.roots| - 1].rootHash
  {
    hide Inv;
    var clientId, n := s.trees[treeId].clientId, |s.roots| - 1;
    var ids, last := ClientTrees(s, clientId), s.roots[n];
    assert treeId in ids;
    assert s.roots == s.roots[..n] + [last];
    RootsInAppend(s.roots[..n], last, ids);
    var rows := ClientRoots(s, clientId);
    assert rows[|rows| - 1] == last;
    WindowExact(c, s, clientId, root, 1);
  }

  /** With a window of one row, a client's logins accept exactly this root. */
  ghost predicate AcceptsOnly(s: Store, clientId: string, root: Hash)
  {
    forall x :: RootValidForClient(s, clientId, x, 1) <==> x == root
  }

  lemma NewestOnly(c: Config, s: Store, req: Request)
    requires Inv(c, s) && Commit(c, s, req).1.Enrolled?
    ensures var (s', out) := Commit(c, s, req);
      out.treeId in s'.trees && AcceptsOnly(s', s'.trees[out.treeId].clientId, out.root)
  {
    hide RootValidForClient, Inv, Commit;
    CommitPublishes(c, s, req);
    var (s', out) := Commit(c, s, req);
    forall x ensures RootValidForClient(s', s'.trees[out.treeId].clientId, x, 1) <==> x == out.root {
      WindowOfOne(c, s', out.treeId, x);
    }
  }

  /**
   A client enrols, then another one enrols under a purpose that names the first one's tree.  The first
   client's recorded roots change, its logins accept the other's root, and with a window of one row they
   accept that root only, where they accepted the client's own before.
   */
  lemma ForeignEnrolmentAccepted(c: Config, own: Request, other: Request)
    requires Admissible(own) && Admissible(other) && own.clientId != other.clientId && c.depth >= 1
    requires TreeOf(own) == TreeOf(other) && own.eventId != other.eventId && StoredText(own) != StoredText(other)
    ensures var (s1, s2) := (Run(c, [own]), Run(c, [own, other]));
      var (out1, out2) := (Commit(c, EMPTY, own).1, Commit(c, s1, other).1);
      && !Untouched(c, [own], other, own.clientId)
      && ClientRoots(s2, own.clientId) != ClientRoots(s1, own.clientId)
      && out1.Enrolled? && AcceptsOnly(s1, own.clientId, out1.root)
      && out2.Enrolled? && AcceptsOnly(s2, own.clientId, out2.root)
  {
    hide Inv, Commit, Stored, HexBytes, RootValidForClient, AcceptsOnly;
    var s1 := Run(c, [own]);
    FirstEnrolled(c, own);
    FirstOutcome(c, own);
    SecondEnrolled(c, s1, own, other);
    assert [own, other][..1] == [own] && [own] + [other] == [own, other];
    assert Run(c, [own, other]) == Commit(c, s1, other).0;
    OtherClientCommit(c, s1, other, own.clientId);
    EmptyInv(c);
    NewestOnly(c, EMPTY, own);
    NewestOnly(c, s1, other);
  }

  lemma FirstOutcome(c: Config, r: Request)
    requires Admissible(r)
    ensures Run(c, [r]) == Commit(c, EMPTY, r).0
    ensures Commit(c, EMPTY, r).1.Enrolled? && Commit(c, EMPTY, r).1.treeId == TreeOf(r)
  {
    hide Inv, HexBytes, Lower, Strip0x;
    assert [r][..0] == [] && Run(c, []) == EMPTY;
    EmptyInv(c);
    GetOrCreateKeeps(c, EMPTY, r.clientId, r.purpose);
    AppendKeeps(c, GetOrCreate(c, EMPTY, r.clientId, r.purpose), TreeOf(r), StoredText(r), r.eventId, r.pubkey);
    assert Pow2(c.depth) >= 1;
  }

  // ---------------------------------------------------------------------------------------
  // Exactly when
  // ---------------------------------------------------------------------------------------

  /** n bytes of one value, in hex. */
  function SameBytes(digit: char, n: nat): string
  {
    if n == 0 then "" else [digit, digit] + SameBytes(digit, n - 1)
  }

  lemma {:induction false} SameBytesCount(digit: char, n: nat)
    requires IsHexDigit(digit)
    ensures HexBytes(SameBytes(digit, n)) == n && |SameBytes(digit, n)| == 2 * n
    ensures forall k {:trigger SameBytes(digit, n)[k]} :: 0 <= k < 2 * n ==> SameBytes(digit, n)[k] == digit
  {
    if n == 0 {
    } else {
      SameBytesCount(digit, n - 1);
      assert SameBytes(digit, n)[2..] == SameBytes(digit, n - 1);
    }
  }

  /** There are different commitments of any positive length. */
  lemma TwoCommitments(n: nat) returns (x: string, y: string)
    requires n > 0
    ensures HexBytes(x) == HexBytes(y) == n && x != y
  {
    x, y := SameBytes('0', n), SameBytes('1', n);
    SameBytesCount('0', n);
    SameBytesCount('1', n);
    assert x[0] != y[0];
  }

  /** No request of client c1, after any run, changes what client c2 accepts. */
  ghost predicate Separated(c: Config, c1: string, c2: string)
  {
    forall reqs: seq<Request>, req: Request | req.clientId == c1 :: Untouched(c, reqs, req, c2)
  }

  /** One client can never change what another accepts exactly when neither id with a dash begins the other. */
  lemma SeparatedIff(c: Config, c1: string, c2: string)
    requires c1 != c2 && c.depth >= 1
    ensures Separated(c, c1, c2) <==> !MayMeet(c1, c2)
  {
    hide Untouched, MayMeet, HexBytes;
    if MayMeet(c1, c2) {
      MeetIff(c1, c2);
      var p1, p2 :| TreeId(c1, p1) == TreeId(c2, p2);
      var x, y := TwoCommitments(32);
      var own, other := Request(Enroll, true, c2, p2, x, "e1", ""), Request(Enroll, true, c1, p1, y, "e2", "");
      PlainHexAdmissible(own);
      PlainHexAdmissible(other);
      assert own.eventId[1] != other.eventId[1];
      ForeignEnrolmentAccepted(c, own, other);
      assert !Untouched(c, [own], other, c2);
    } else {
      forall reqs: seq<Request>, req: Request | req.clientId == c1 ensures Untouched(c, reqs, req, c2) {
        ClientsSeparated(c, reqs, req, c2);
      }
    }
  }

  lemma PlainHexAdmissible(r: Request)
    requires r.route.Enroll? && r.checksPass && HexBytes(r.commitment) == 32
    ensures Admissible(r)
  {
    hide HexBytes;
    HexHasNoPrefix(r.commitment);
  }

  /** Client acme, with purpose corp-allowlist, takes over what the logins of client acme-corp accept. */
  lemma AcmeMeetsAcmeCorp(c: Config, x: string, y: string)
    requires c.depth >= 1 && HexBytes(x) == HexBytes(y) == 32 && x != y
    ensures var own := Request(Enroll, true, "acme-corp", "allowlist", x, "e1", "");
      var other := Request(Enroll, true, "acme", "corp-allowlist", y, "e2", "");
      var (s1, s2) := (Run(c, [own]), Run(c, [own, other]));
      var (out1, out2) := (Commit(c, EMPTY, own).1, Commit(c, s1, other).1);
      && ClientRoots(s2, "acme-corp") != ClientRoots(s1, "acme-corp")
      && out1.Enrolled? && AcceptsOnly(s1, "acme-corp", out1.root)
      && out2.Enrolled? && AcceptsOnly(s2, "acme-corp", out2.root)
  {
    var own := Request(Enroll, true, "acme-corp", "allowlist", x, "e1", "");
    var other := Request(Enroll, true, "acme", "corp-allowlist", y, "e2", "");
    assert TreeOf(own) == TreeOf(other);
    assert own.eventId[1] != other.eventId[1] && |own.clientId| != |other.clientId|;
    PlainHexAdmissible(own);
    PlainHexAdmissible(other);
    hide Commit, AcceptsOnly, Run, ClientRoots, HexBytes, TreeId;
    ForeignEnrolmentAccepted(c, own, other);
  }

  /** A dash alone does no harm. */
  lemma DashesAreHarmless(c: Config)
    requires c.depth >= 1
    ensures Separated(c, "acme-us", "beta-eu") && Separated(c, "beta-eu", "acme-us")
  {
    hide Separated;
    SeparatedIff(c, "acme-us", "beta-eu");
    SeparatedIff(c, "beta-eu", "acme-us");
  }
}
