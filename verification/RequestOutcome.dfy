/**
 What the two routes answer, said of any reachable tables: when a request is accepted, which of its faults a
 refusal names, and what an accepted request is given and leaves behind.
 */
module RequestOutcome {
  import opened Wrappers
  import opened Bits
  import opened MerkleSpec
  import opened IncrementalTree
  import opened Tables
  import opened Enrolment
  import opened EnrolmentRuns

  /** What a request stores: lower case without 0x on the membership route, the text as it came on the other. */
  function Text(req: Request): string
  {
    if req.route.Membership? then Lower(Strip0x(req.commitment)) else req.commitment
  }

  predicate FormatOk(req: Request)
  {
    HexBytes(if req.route.Membership? then Text(req) else Strip0x(req.commitment)) == 32
  }

  ghost predicate EventStored(s: Store, eventId: string)
  {
    exists i {:trigger s.leaves[i]} :: 0 <= i < |s.leaves| && s.leaves[i].eventId == eventId
  }

  /** A leaf of this tree, whatever other trees hold, has this text. */
  ghost predicate TextStored(s: Store, treeId: string, text: string)
  {
    exists i {:trigger s.leaves[i]} ::
      0 <= i < |s.leaves| && s.leaves[i].treeId == treeId && s.leaves[i].commitment == text
  }

  ghost predicate Full(c: Config, s: Store, treeId: string) { |LeafHashes(s.leaves, treeId)| >= Pow2(c.depth) }

  /** The first fault of a request, in the order in which its route looks. */
  ghost function Fault(c: Config, s: Store, req: Request): Option<Reason>
  {
    if !req.checksPass then Some(ChecksFailed)
    else if req.route.Membership? && !FormatOk(req) then Some(BadCommitment)
    else if EventStored(s, req.eventId) then Some(EventReplayed)
    else if !FormatOk(req) then Some(BadCommitment)
    else if TextStored(s, TreeOf(req), Text(req)) then Some(AlreadyEnrolled)
    else if Full(c, s, TreeOf(req)) then Some(TreeFull)
    else None
  }

  /** A refusal on the membership route can leave a new, empty tree behind; nothing else changes. */
  ghost predicate OnlyCreates(c: Config, s: Store, s': Store, req: Request)
  {
    || s' == s
    || (&& req.route.Membership? && FormatOk(req) && TreeOf(req) !in s.trees
        && s'.leaves == s.leaves && s'.witnesses == s.witnesses
        && s'.roots == s.roots + [RootRow(|s.roots| + 1, TreeOf(req), c.h.zero, -1)]
        && s'.trees.Keys == s.trees.Keys + {TreeOf(req)}
        && forall t | t in s.trees :: s'.trees[t] == s.trees[t])
  }

  /** What an accepted request is told, and what it adds: one leaf row and that leaf's witness. */
  ghost predicate Answers(c: Config, s: Store, s': Store, req: Request, out: Outcome)
    requires out.Enrolled?
  {
    var t, leaf := TreeOf(req), Hex(Strip0x(Text(req)));
    var leaves := LeafHashes(s.leaves, t);
    && out.treeId == t && out.leafIndex == |leaves|
    && LeafHashes(s'.leaves, t) == leaves + [leaf]
    && out.root == TreeRoot(c.h, c.depth, leaves + [leaf])
    && |out.siblings| == |out.pathBits| == c.depth
    && Fold(c.h, leaf, out.siblings, out.pathBits, c.depth) == out.root
    && (forall l {:trigger out.pathBits[l]} :: 0 <= l < c.depth ==> out.pathBits[l] == Shr(out.leafIndex, l) % 2)
    && s'.leaves == s.leaves + [LeafRow(|s.leaves| + 1, t, out.leafIndex, Text(req), req.eventId, req.pubkey)]
    && s'.witnesses
       == s.witnesses[|s.leaves| + 1 := WitnessRow(t, out.siblings, out.pathBits, out.leafIndex, out.root)]
    && s'.roots != [] && s'.roots[|s'.roots| - 1] == RootRow(|s'.roots|, t, out.root, out.leafIndex)
  }

  lemma LookupsAgree(s: Store, treeId: string, text: string, eventId: string)
    ensures EventUsed(s, eventId) <==> EventStored(s, eventId)
    ensures CommitmentExists(s, treeId, text) <==> TextStored(s, treeId, text)
  {
  }

  /** The tree a request names, created if need be, counts the leaves stored for it. */
  lemma TreeCounts(c: Config, s: Store, req: Request)
    requires Inv(c, s)
    ensures var s1 := GetOrCreate(c, s, req.clientId, req.purpose);
      && Inv(c, s1) && TreeOf(req) in s1.trees && s1.leaves == s.leaves && s1.witnesses == s.witnesses
      && s1.trees[TreeOf(req)].nextLeafIndex == |LeafHashes(s.leaves, TreeOf(req))| <= Pow2(c.depth)
      && (TreeOf(req) in s.trees ==> s1 == s)
      && (TreeOf(req) !in s.trees ==> LeafHashes(s.leaves, TreeOf(req)) == [])
      && (req.route.Membership? && FormatOk(req) ==> OnlyCreates(c, s, s1, req))
  {
    var t, s1 := TreeOf(req), GetOrCreate(c, s, req.clientId, req.purpose);
    GetOrCreateKeeps(c, s, req.clientId, req.purpose);
    assert TreeOk(c, s1, t);
    if t !in s.trees {
      forall i | 0 <= i < |s.leaves| ensures s.leaves[i].treeId != t { assert LeafRowOk(s, i); }
      UnknownTreeHasNoLeaves(s.leaves, t);
    }
  }

  /** The shared tail of both routes, on a tree with room. */
  lemma AppendAnswers(c: Config, s: Store, req: Request)
    requires Inv(c, s) && TreeOf(req) in s.trees
    requires !EventStored(s, req.eventId) && !TextStored(s, TreeOf(req), Text(req))
    ensures var (s', out) := Append(c, s, TreeOf(req), Text(req), req.eventId, req.pubkey);
      if Full(c, s, TreeOf(req)) then out == Rejected(TreeFull) && s' == s
      else out.Enrolled? && Answers(c, s, s', req, out)
  {
    var t, text := TreeOf(req), Text(req);
    var leaf, state, n := Hex(Strip0x(text)), s.trees[t].state, s.trees[t].nextLeafIndex;
    hide Lower, Strip0x;
    LookupsAgree(s, t, text, req.eventId);
    AppendKeeps(c, s, t, text, req.eventId, req.pubkey);
    assert TreeOk(c, s, t);
    if !Full(c, s, t) {
      InsertRefines(c.h, state, LeafHashes(s.leaves, t), leaf);
      WitnessFolds(c.h, state, n, leaf, c.depth);
      NoConflict(c, s, t, text, leaf);
      var row := LeafRow(|s.leaves| + 1, t, n, text, req.eventId, req.pubkey);
      LeafHashesAppend(s.leaves, row, t);
      forall l | 0 <= l < c.depth ensures PathBits(n, c.depth)[l] == Shr(n, l) % 2 {
        PathBitsEntry(n, c.depth, l);
      }
    }
  }

  /**
   The whole answer of either route on any reachable tables: a request without a fault is accepted, and told
   and stored what `Answers` says; any other is refused for its first fault.
   */
  lemma OutcomeIs(c: Config, s: Store, req: Request)
    requires Inv(c, s)
    ensures var (s', out) := Commit(c, s, req);
      match Fault(c, s, req)
      case Some(fault) => out == Rejected(fault) && OnlyCreates(c, s, s', req)
      case None => out.Enrolled? && Answers(c, s, s', req, out)
  {
    hide Inv, Append, GetOrCreate, HexBytes, Lower, Strip0x, Full, EventUsed, CommitmentExists, FormatOk;
    hide EventStored, TextStored, OnlyCreates, Answers, Text, TreeId;
    var s1, t := GetOrCreate(c, s, req.clientId, req.purpose), TreeOf(req);
    TreeCounts(c, s, req);
    Unchanged(c, s, req);
    if t !in s.trees {
      RoomInNewTree(c, s, t);
    }
    SameLeaves(c, s, s1, req);
    FormatMeans(req);
    LookupsAgree(s, t, Text(req), req.eventId);
    LookupsAgree(s1, t, Text(req), req.eventId);
    if !EventStored(s, req.eventId) && !TextStored(s, t, Text(req)) {
      AppendAnswers(c, s1, req);
      var (s', out) := Append(c, s1, t, Text(req), req.eventId, req.pubkey);
      assert !Full(c, s, t) ==> Answers(c, s, s', req, out);
      assert Fault(c, s, req) == None ==> Commit(c, s, req) == (s', out);
    }
  }

  lemma Unchanged(c: Config, s: Store, req: Request)
    ensures OnlyCreates(c, s, s, req)
  {
  }

  lemma RoomInNewTree(c: Config, s: Store, t: string)
    requires LeafHashes(s.leaves, t) == []
    ensures !Full(c, s, t)
  {
  }

  /** Lookups and answers depend on the leaf and the witness table only. */
  lemma SameLeaves(c: Config, s: Store, s1: Store, req: Request)
    requires s1.leaves == s.leaves && s1.witnesses == s.witnesses
    ensures EventStored(s1, req.eventId) == EventStored(s, req.eventId)
    ensures TextStored(s1, TreeOf(req), Text(req)) == TextStored(s, TreeOf(req), Text(req))
    ensures Full(c, s1, TreeOf(req)) == Full(c, s, TreeOf(req))
    ensures forall s', out: Outcome {:trigger Answers(c, s1, s', req, out)} ::
      out.Enrolled? && Answers(c, s1, s', req, out) ==> Answers(c, s, s', req, out)
  {
    hide Text, Fold, PathBits, TreeRoot, LeafHashes;
  }

  lemma FormatMeans(req: Request)
    ensures Text(req) == Stored(req.route, req.commitment)
    ensures FormatOk(req) <==> HexBytes(if req.route.Membership? then Text(req) else Strip0x(req.commitment)) == 32
    ensures Admissible(req) <==> req.checksPass && FormatOk(req)
  {
    hide HexBytes, Lower, Strip0x;
  }

  lemma AcceptedHere(c: Config, s: Store, req: Request)
    requires Inv(c, s)
    ensures Commit(c, s, req).1.Enrolled? <==>
      && req.checksPass && FormatOk(req)
      && !EventStored(s, req.eventId) && !TextStored(s, TreeOf(req), Text(req))
      && |LeafHashes(s.leaves, TreeOf(req))| < Pow2(c.depth)
    ensures Commit(c, s, req).1.Enrolled? ==> Commit(c, s, req).1.leafIndex == |LeafHashes(s.leaves, TreeOf(req))|
  {
    hide Commit, Inv, OnlyCreates, FormatOk, EventStored, TextStored, Text, TreeId, LeafHashes, Fold, TreeRoot;
    OutcomeIs(c, s, req);
  }

  /**
   After any run, a request is accepted if and only if its checks pass, its text reads as 32 bytes, its event
   is not stored in any tree, its text is not stored in its own tree, and its tree has a free place.
   */
  lemma AcceptedIff(c: Config, reqs: seq<Request>, req: Request)
    ensures var s := Run(c, reqs);
      Commit(c, s, req).1.Enrolled? <==>
        && req.checksPass && FormatOk(req)
        && !EventStored(s, req.eventId) && !TextStored(s, TreeOf(req), Text(req))
        && |LeafHashes(s.leaves, TreeOf(req))| < Pow2(c.depth)
  {
    hide Run, Commit, Inv, FormatOk, EventStored, TextStored, Text, TreeId, LeafHashes;
    RunKeeps(c, reqs);
    AcceptedHere(c, Run(c, reqs), req);
  }

  /** The same text in another client's tree is no obstacle. */
  lemma OtherTreeNoObstacle(c: Config, r: Request, r': Request)
    requires Admissible(r) && Admissible(r') && TreeOf(r) != TreeOf(r') && r.eventId != r'.eventId
    ensures Commit(c, Run(c, [r]), r').1.Enrolled? && Commit(c, Run(c, [r]), r').1.leafIndex == 0
  {
    hide Run, Commit, Inv, FormatOk, EventStored, TextStored, Text, LeafHashes, OnlyLeaf, Admissible;
    FirstEnrolled(c, r);
    FormatMeans(r');
    OnlyLeafElsewhere(c, Run(c, [r]), r, r');
    AcceptedHere(c, Run(c, [r]), r');
  }

  lemma OnlyLeafElsewhere(c: Config, s: Store, r: Request, r': Request)
    requires OnlyLeaf(c, s, r) && TreeOf(r) != TreeOf(r') && r.eventId != r'.eventId
    ensures Inv(c, s) && LeafHashes(s.leaves, TreeOf(r')) == []
    ensures !EventStored(s, r'.eventId) && !TextStored(s, TreeOf(r'), Text(r'))
  {
    hide Inv, Text;
    UnknownTreeHasNoLeaves(s.leaves, TreeOf(r'));
  }
}
