/**
 How long a saved witness stays good.  A witness is saved once and opens the root of the leaves up to its
 own; it opens the current root only while no leaf has followed, and login accepts its root only while
 fewer leaves than the window have followed, unless a root value recurs.
 */
module WitnessFreshness {
  import opened Bits
  import opened MerkleSpec
  import opened Tables
  import opened Enrolment
  import opened EnrolmentRuns
  import opened LoginWindow

  /** What two equal roots of different leaf sequences must exhibit. */
  datatype Clue =
    | Nothing
    | Pair(a: Hash, b: Hash, c: Hash, d: Hash) // two inputs of the pair hash with one output
    | Zero(level: nat, node: nat)              // a subtree with leaves in it whose value is the zero hash

  ghost predicate Exhibits(h: Hasher, depth: nat, leaves: seq<Hash>, clue: Clue)
  {
    match clue
    case Nothing => false
    case Pair(a, b, c, d) => (a != c || b != d) && h.pair(a, b) == h.pair(c, d)
    case Zero(level, node) =>
      level <= depth && Start(node, level) < |leaves| && Subtree(h, leaves, level, node) == h.zero
  }

  /** Descending the path of leaf k, which only the longer sequence has. */
  lemma {:induction false} EqualNodesExhibit(h: Hasher, depth: nat, leaves: seq<Hash>, k: nat, level: nat)
    returns (clue: Clue)
    requires k < |leaves| && level <= depth
    requires Subtree(h, leaves[..k], level, Shr(k, level)) == Subtree(h, leaves, level, Shr(k, level))
    ensures Exhibits(h, depth, leaves, clue)
  {
    var i := Shr(k, level);
    ShrBounds(k, level);
    if Start(i, level) >= k {
      clue := Zero(level, i);
    } else {
      SubtreeUnfold(h, leaves, level, i);
      SubtreeUnfold(h, leaves[..k], level, i);
      var j := Shr(k, level - 1);
      var l, r := Subtree(h, leaves, level - 1, 2 * i), Subtree(h, leaves, level - 1, 2 * i + 1);
      var l', r' := Subtree(h, leaves[..k], level - 1, 2 * i), Subtree(h, leaves[..k], level - 1, 2 * i + 1);
      if l == l' && r == r' {
        assert j == 2 * i || j == 2 * i + 1;
        clue := EqualNodesExhibit(h, depth, leaves, k, level - 1);
      } else {
        clue := Pair(l, r, l', r');
      }
    }
  }

  /** The root of the first k leaves is the root of all of them only if k is all, or the hash gives itself away. */
  lemma PrefixRoots(h: Hasher, depth: nat, leaves: seq<Hash>, k: nat) returns (clue: Clue)
    requires k <= |leaves| <= Pow2(depth)
    ensures k == |leaves| ==> TreeRoot(h, depth, leaves[..k]) == TreeRoot(h, depth, leaves)
    ensures TreeRoot(h, depth, leaves[..k]) == TreeRoot(h, depth, leaves) ==>
      k == |leaves| || Exhibits(h, depth, leaves, clue)
  {
    clue := Nothing;
    if k == |leaves| {
      assert leaves[..k] == leaves;
    } else if TreeRoot(h, depth, leaves[..k]) == TreeRoot(h, depth, leaves) {
      ShrZero(k, depth);
      SubtreeIsRoot(h, leaves, depth);
      SubtreeIsRoot(h, leaves[..k], depth);
      clue := EqualNodesExhibit(h, depth, leaves, k, depth);
    }
  }

  // ---------------------------------------------------------------------------------------
  // Saved witnesses
  // ---------------------------------------------------------------------------------------

  /** The leaves, now, of the tree that stored leaf i is in. */
  function LeavesOf(s: Store, i: nat): seq<Hash>
    requires i < |s.leaves|
  {
    LeafHashes(s.leaves, s.leaves[i].treeId)
  }

  /** The saved witness of stored leaf i climbs to this root. */
  ghost predicate Opens(c: Config, s: Store, i: nat, root: Hash)
    requires i < |s.leaves|
  {
    && i + 1 in s.witnesses
    && var w := s.witnesses[i + 1];
       |w.siblings| == |w.pathBits| == c.depth
         && Fold(c.h, HashOf(s.leaves[i]), w.siblings, w.pathBits, c.depth) == root
  }

  lemma SavedRoot(c: Config, reqs: seq<Request>, i: nat)
    requires i < |Run(c, reqs).leaves|
    ensures var (s, k) := (Run(c, reqs), Run(c, reqs).leaves[i].leafIndex + 1);
      && k <= |LeavesOf(s, i)| <= Pow2(c.depth) && s.leaves[i].treeId in s.trees && i + 1 in s.witnesses
      && s.witnesses[i + 1].rootHash == TreeRoot(c.h, c.depth, LeavesOf(s, i)[..k])
      && forall root :: Opens(c, s, i, root) <==> root == TreeRoot(c.h, c.depth, LeavesOf(s, i)[..k])
  {
    var s := Run(c, reqs);
    hide Fold, TreeRoot;
    WitnessOpensRecordedRoot(c, reqs, i);
    RunKeeps(c, reqs);
    hide Run;
    assert TreeOk(c, s, s.leaves[i].treeId);
  }

  /**
   After any run, a saved witness opens its tree's current root exactly while no leaf has followed its own,
   unless the two roots exhibit a pair-hash collision or a non-empty subtree with the zero hash.
   */
  lemma WitnessFreshIff(c: Config, reqs: seq<Request>, i: nat) returns (clue: Clue)
    requires i < |Run(c, reqs).leaves|
    ensures var s := Run(c, reqs);
      var (leaves, k) := (LeavesOf(s, i), s.leaves[i].leafIndex + 1);
      && (k == |leaves| ==> Opens(c, s, i, TreeRoot(c.h, c.depth, leaves)))
      && (Opens(c, s, i, TreeRoot(c.h, c.depth, leaves)) ==> k == |leaves| || Exhibits(c.h, c.depth, leaves, clue))
  {
    var s := Run(c, reqs);
    SavedRoot(c, reqs, i);
    hide Run, Opens, Exhibits, TreeRoot;
    clue := PrefixRoots(c.h, c.depth, LeavesOf(s, i), s.leaves[i].leafIndex + 1);
  }

  /** A later prefix of the leaves, among the last `limit` ones, has the same root as the first k leaves. */
  ghost predicate Recurs(h: Hasher, depth: nat, leaves: seq<Hash>, k: nat, limit: nat)
    requires k <= |leaves|
  {
    exists later: nat {:trigger leaves[..later]} ::
      k < later <= |leaves| < later + limit && TreeRoot(h, depth, leaves[..later]) == TreeRoot(h, depth, leaves[..k])
  }

  /**
   For a client with one tree, login accepts the root of a saved witness exactly while fewer than `limit`
   leaves have followed, or when a root of the window has the same value, which exhibits the same clues.
   */
  lemma WitnessAcceptedIff(c: Config, reqs: seq<Request>, i: nat, clientId: string, limit: nat)
    returns (clue: Clue, later: nat)
    requires i < |Run(c, reqs).leaves| && limit >= 1
      && ClientTrees(Run(c, reqs), clientId) == {Run(c, reqs).leaves[i].treeId}
    ensures var s := Run(c, reqs);
      var (leaves, k) := (LeavesOf(s, i), s.leaves[i].leafIndex + 1);
      && i + 1 in s.witnesses && k <= |leaves|
      && (RootValidForClient(s, clientId, s.witnesses[i + 1].rootHash, limit) <==>
            |leaves| < k + limit || Recurs(c.h, c.depth, leaves, k, limit))
      && (Recurs(c.h, c.depth, leaves, k, limit) ==>
            k < later <= |leaves| && Exhibits(c.h, c.depth, leaves[..later], clue))
  {
    var s := Run(c, reqs);
    SavedRoot(c, reqs, i);
    RunKeeps(c, reqs);
    hide Run, Exhibits, TreeRoot, RootValidForClient, Inv, LeafHashes, Recurs, Opens, ClientTrees;
    var k, root := s.leaves[i].leafIndex + 1, s.witnesses[i + 1].rootHash;
    PrefixAccepted(c, s, clientId, s.leaves[i].treeId, k, root, limit);
    clue, later := RecurringRoot(c.h, c.depth, LeavesOf(s, i), k, limit);
  }

  lemma PrefixAccepted(c: Config, s: Store, clientId: string, t: string, k: nat, root: Hash, limit: nat)
    requires Inv(c, s) && limit >= 1 && ClientTrees(s, clientId) == {t}
    requires k <= |LeafHashes(s.leaves, t)| && root == TreeRoot(c.h, c.depth, LeafHashes(s.leaves, t)[..k])
    ensures var leaves := LeafHashes(s.leaves, t);
      RootValidForClient(s, clientId, root, limit) <==>
        |leaves| < k + limit || Recurs(c.h, c.depth, leaves, k, limit)
  {
    hide TreeRoot, RootValidForClient, Inv, LeafHashes, Recurs, ClientTrees;
    AcceptedIsRecentPrefix(c, s, clientId, t, root, limit);
    RecentOrRecurs(c.h, c.depth, LeafHashes(s.leaves, t), k, root, limit);
  }

  lemma RecurringRoot(h: Hasher, depth: nat, leaves: seq<Hash>, k: nat, limit: nat) returns (clue: Clue, later: nat)
    requires k <= |leaves| <= Pow2(depth)
    ensures Recurs(h, depth, leaves, k, limit) ==> k < later <= |leaves| && Exhibits(h, depth, leaves[..later], clue)
  {
    hide TreeRoot, Exhibits;
    clue, later := Nothing, 0;
    if Recurs(h, depth, leaves, k, limit) {
      later :| k < later <= |leaves| < later + limit
        && TreeRoot(h, depth, leaves[..later]) == TreeRoot(h, depth, leaves[..k]);
      assert leaves[..later][..k] == leaves[..k];
      clue := PrefixRoots(h, depth, leaves[..later], k);
    }
  }

  lemma RecentOrRecurs(h: Hasher, depth: nat, leaves: seq<Hash>, k: nat, root: Hash, limit: nat)
    requires k <= |leaves| && root == TreeRoot(h, depth, leaves[..k])
    ensures (exists j: nat {:trigger leaves[..j]} ::
      j <= |leaves| < j + limit && root == TreeRoot(h, depth, leaves[..j]))
       <==> |leaves| < k + limit || Recurs(h, depth, leaves, k, limit)
  {
    hide TreeRoot;
    if j: nat :| j <= |leaves| < j + limit && root == TreeRoot(h, depth, leaves[..j]) {
      assert j <= k || Recurs(h, depth, leaves, k, limit);
    }
    if |leaves| < k + limit {
      assert root == TreeRoot(h, depth, leaves[..k]);
    }
  }

  // ---------------------------------------------------------------------------------------
  // Several trees
  // ---------------------------------------------------------------------------------------

  /** Row m is the only one of its tree that was recorded for this leaf index. */
  ghost predicate OnlyRowFor(rows: seq<RootRow>, m: nat, treeId: string, leafIndex: int)
  {
    m < |rows| && forall j {:trigger rows[j]} :: 0 <= j < |rows| ==>
      (rows[j].treeId == treeId && rows[j].leafIndex == leafIndex <==> j == m)
  }

  lemma RowOfLeaf(c: Config, s: Store, t: string, ids: set<string>, k: nat) returns (m: nat)
    requires Inv(c, s) && t in s.trees && t in ids && k <= |LeafHashes(s.leaves, t)|
    ensures var rows := RootsIn(s.roots, ids);
      OnlyRowFor(rows, m, t, k - 1) && rows[m].rootHash == TreeRoot(c.h, c.depth, LeafHashes(s.leaves, t)[..k])
  {
    var rows, own := RootsIn(s.roots, ids), RootsIn(s.roots, {t});
    assert RootsOk(c, s, t);
    InvIncreasing(c, s);
    hide Inv, TreeRoot;
    RootsInTwice(s.roots, ids, t);
    RootsInIncreasing(s.roots, ids);
    m := RootsInSource(rows, {t}, k);
    forall j | 0 <= j < |rows| && rows[j].treeId == t && rows[j].leafIndex == k - 1 ensures j == m {
      var l := CloserToEnd(rows, j);
      assert own[l].leafIndex + 1 == l;
    }
  }

  /**
   For any client that has the leaf's tree: the saved root is one row of the union of the client's trees, and
   login accepts it exactly while fewer than `limit` rows of the union follow that row, or when one of the
   last `limit` rows has the same value.
   */
  lemma WitnessAcceptedInUnion(c: Config, reqs: seq<Request>, i: nat, clientId: string, limit: nat) returns (m: nat)
    requires i < |Run(c, reqs).leaves| && limit >= 1
      && Run(c, reqs).leaves[i].treeId in ClientTrees(Run(c, reqs), clientId)
    ensures var (s, leaf) := (Run(c, reqs), Run(c, reqs).leaves[i]);
      var rows := ClientRoots(s, clientId);
      && OnlyRowFor(rows, m, leaf.treeId, leaf.leafIndex)
      && i + 1 in s.witnesses && rows[m].rootHash == s.witnesses[i + 1].rootHash
      && (RootValidForClient(s, clientId, s.witnesses[i + 1].rootHash, limit) <==>
            || |rows| - m <= limit
            || exists j {:trigger rows[j]} :: m < j < |rows| <= j + limit && rows[j].rootHash == rows[m].rootHash)
  {
    var s := Run(c, reqs);
    SavedRoot(c, reqs, i);
    RunKeeps(c, reqs);
    hide Run, TreeRoot, Inv, LeafHashes, RootValidForClient;
    m := RowOfLeaf(c, s, s.leaves[i].treeId, ClientTrees(s, clientId), s.leaves[i].leafIndex + 1);
    WindowExact(c, s, clientId, s.witnesses[i + 1].rootHash, limit);
    NewerRow(ClientRoots(s, clientId), m, limit);
  }

  lemma NewerRow(rows: seq<RootRow>, m: nat, limit: nat)
    requires m < |rows|
    ensures AmongLast(rows, rows[m].rootHash, limit) <==>
            || |rows| - m <= limit
            || exists j {:trigger rows[j]} :: m < j < |rows| <= j + limit && rows[j].rootHash == rows[m].rootHash
  {
  }

  // ---------------------------------------------------------------------------------------
  // A witness that went stale
  // ---------------------------------------------------------------------------------------

  /**
   Whatever the hash and the depth, after a second enrolment in its tree the first one's saved witness no
   longer opens the current root, or the hash gives itself away.
   */
  lemma WitnessGoesStale(c: Config, r: Request, r': Request) returns (clue: Clue)
    requires c.depth >= 1
    requires Admissible(r) && Admissible(r') && TreeOf(r) == TreeOf(r') && r.eventId != r'.eventId
    requires StoredText(r) != StoredText(r')
    ensures var s := Run(c, [r, r']);
      && |s.leaves| == 2
      && var leaves := LeavesOf(s, 0);
         Opens(c, s, 0, TreeRoot(c.h, c.depth, leaves)) ==> Exhibits(c.h, c.depth, leaves, clue)
  {
    var s := Run(c, [r, r']);
    BothEnrolled(c, r, r');
    clue := WitnessFreshIff(c, [r, r'], 0);
    hide Run, Opens, Admissible, StoredText, Inv, TreeRoot, Exhibits;
    FirstIndex(c, s);
    TwoLeaves(s);
  }

  lemma TwoLeaves(s: Store)
    requires |s.leaves| == 2 && s.leaves[0].treeId == s.leaves[1].treeId
    ensures LeavesOf(s, 0) == [HashOf(s.leaves[0]), HashOf(s.leaves[1])]
  {
    var t := s.leaves[0].treeId;
    assert s.leaves == [s.leaves[0]] + [s.leaves[1]];
    LeafHashesAppend([s.leaves[0]], s.leaves[1], t);
    LeafHashesAppend([], s.leaves[0], t);
    assert [] + [s.leaves[0]] == [s.leaves[0]];
  }

  /** A pair hash that returns its right argument: enough to see a witness go stale. */
  function RightHand(): Hasher { Hasher((a: Hash, b: Hash) => b, Hex("0")) }

  /** At that hash, which exhibits plenty, the witness is stale all the same. */
  lemma StaleAtDepthOne(r: Request, r': Request)
    requires Admissible(r) && Admissible(r') && TreeOf(r) == TreeOf(r') && r.eventId != r'.eventId
    requires StoredText(r) != StoredText(r')
    ensures var c := Config(RightHand(), 1);
      var s := Run(c, [r, r']);
      |s.leaves| == 2 && !Opens(c, s, 0, TreeRoot(c.h, 1, LeavesOf(s, 0)))
  {
    var c := Config(RightHand(), 1);
    var s := Run(c, [r, r']);
    BothEnrolled(c, r, r');
    SavedRoot(c, [r, r'], 0);
    hide Run, Opens, StoredText, Inv, TreeRoot;
    FirstIndex(c, s);
    TwoLeaves(s);
    var x, y := HashOf(s.leaves[0]), HashOf(s.leaves[1]);
    NotOneDigit(r');
    hide Admissible;
    assert [x, y][..1] == [x];
    RootsOfTwo(c.h, x, y);
  }

  lemma RootsOfTwo(h: Hasher, x: Hash, y: Hash)
    ensures TreeRoot(h, 1, [x, y]) == h.pair(x, y) && TreeRoot(h, 1, [x]) == h.pair(x, h.zero)
  {
    assert Pow2(0) == 1;
    assert TreeAt(h, [x, y], 0, 0) == x && TreeAt(h, [x, y], 0, 1) == y;
    assert TreeAt(h, [x], 0, 0) == x && TreeAt(h, [x], 0, 1) == h.zero;
  }

  lemma FirstIndex(c: Config, s: Store)
    requires Inv(c, s) && s.leaves != []
    ensures s.leaves[0].leafIndex == 0
  {
    assert LeafRowOk(s, 0) && s.leaves[..0] == [];
  }

  lemma NotOneDigit(r: Request)
    requires Admissible(r)
    ensures Strip0x(StoredText(r)) != "0"
  {
    if r.route.Membership? {
      HexHasNoPrefix(StoredText(r));
    }
    assert HexBytes("0") == -1;
  }
}
