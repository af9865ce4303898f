/** What the enrolment invariant says about any reachable state, in the terms of the routes. */
module EnrolmentRuns {
  import opened Bits
  import opened MerkleSpec
  import opened IncrementalTree
  import opened Tables
  import opened Enrolment

  /** Two leaves of one tree never share an index. */
  lemma LeafIndexInjective(c: Config, s: Store, i: nat, j: nat)
    requires Inv(c, s) && i < j < |s.leaves| && s.leaves[i].treeId == s.leaves[j].treeId
    ensures s.leaves[i].leafIndex < s.leaves[j].leafIndex
  {
    var t, rows := s.leaves[i].treeId, s.leaves[..j];
    assert LeafRowOk(s, i) && LeafRowOk(s, j);
    assert rows[..i] == s.leaves[..i] && rows[..i + 1] == s.leaves[..i] + [s.leaves[i]];
    LeafHashesAppend(s.leaves[..i], s.leaves[i], t);
    LeafHashesPrefix(rows, i + 1, t);
  }

  /** Every index below a tree's counter belongs to a stored leaf: together, exactly 0 .. next - 1. */
  lemma {:induction false} LeafIndexTaken(c: Config, s: Store, t: string, n: nat, k: nat) returns (i: nat)
    requires Inv(c, s) && n <= |s.leaves| && k < |LeafHashes(s.leaves[..n], t)|
    ensures i < n && s.leaves[i].treeId == t && s.leaves[i].leafIndex == k
  {
    if n == 0 {
      assert false;
    } else {
      var row := s.leaves[n - 1];
      assert s.leaves[..n] == s.leaves[..n - 1] + [row];
      LeafHashesAppend(s.leaves[..n - 1], row, t);
      assert LeafRowOk(s, n - 1);
      if row.treeId == t && k == |LeafHashes(s.leaves[..n - 1], t)| {
        i := n - 1;
      } else {
        i := LeafIndexTaken(c, s, t, n - 1, k);
      }
    }
  }

  /**
   After any run, the tree of every stored leaf has a root row recorded right after that leaf, and
   the leaf's saved witness climbs to exactly that root.
   */
  lemma WitnessOpensRecordedRoot(c: Config, reqs: seq<Request>, i: nat)
    requires i < |Run(c, reqs).leaves|
    ensures var s := Run(c, reqs);
      var row := s.leaves[i];
      var rows, leaves := RootsIn(s.roots, {row.treeId}), LeafHashes(s.leaves, row.treeId);
      && row.treeId in s.trees && i + 1 in s.witnesses
      && row.leafIndex + 1 < |rows| && row.leafIndex < |leaves| && leaves[row.leafIndex] == HashOf(row)
      && var w := s.witnesses[i + 1];
         && |w.siblings| == c.depth && w.pathBits == PathBits(row.leafIndex, c.depth)
         && w.rootHash == rows[row.leafIndex + 1].rootHash == TreeRoot(c.h, c.depth, leaves[..row.leafIndex + 1])
         && Fold(c.h, HashOf(row), w.siblings, w.pathBits, c.depth) == w.rootHash
  {
    RunKeeps(c, reqs);
    var s := Run(c, reqs);
    var row := s.leaves[i];
    var t := row.treeId;
    assert LeafRowOk(s, i) && WitnessOk(c, s, i) && RootsOk(c, s, t);
    assert s.leaves[..i + 1] == s.leaves[..i] + [row];
    LeafHashesAppend(s.leaves[..i], row, t);
    LeafHashesPrefix(s.leaves, i + 1, t);
    assert LeafHashes(s.leaves, t)[..row.leafIndex + 1] == LeafHashes(s.leaves[..i + 1], t);
    assert RootsIn(s.roots, {t})[row.leafIndex + 1].rootHash
        == TreeRoot(c.h, c.depth, LeafHashes(s.leaves, t)[..row.leafIndex + 1]);
  }

  // ---------------------------------------------------------------------------------------
  // Two requests for one tree
  // ---------------------------------------------------------------------------------------

  /** The request passes every check that does not look at the tables. */
  predicate Admissible(req: Request)
  {
    req.checksPass && HexBytes(if req.route.Membership? then StoredText(req) else Strip0x(req.commitment)) == 32
  }

  /** The commitment as it is looked up and stored. */
  function StoredText(req: Request): string { Stored(req.route, req.commitment) }

  function TreeOf(req: Request): string { TreeId(req.clientId, req.purpose) }

  /** The tables when the only leaf is that of `r`, in the only tree. */
  ghost predicate OnlyLeaf(c: Config, s: Store, r: Request)
  {
    && Inv(c, s) && s.trees.Keys == {TreeOf(r)} && s.trees[TreeOf(r)].clientId == r.clientId
    && s.trees[TreeOf(r)].nextLeafIndex == 1 && |s.leaves| == 1
    && s.leaves[0].treeId == TreeOf(r) && s.leaves[0].commitment == StoredText(r) && s.leaves[0].eventId == r.eventId
  }

  /** What an accepted request appends. */
  ghost predicate AppendsLeaf(s: Store, s': Store, r: Request, root: Hash)
  {
    && |s'.leaves| == |s.leaves| + 1 && s'.leaves[..|s.leaves|] == s.leaves
    && s'.leaves[|s.leaves|].treeId == TreeOf(r) && s'.leaves[|s.leaves|].commitment == StoredText(r)
    && |s'.roots| == |s.roots| + 1 && s'.roots[..|s.roots|] == s.roots
    && s'.roots[|s.roots|].treeId == TreeOf(r) && s'.roots[|s.roots|].rootHash == root
  }

  lemma FirstEnrolled(c: Config, r: Request)
    requires Admissible(r)
    ensures OnlyLeaf(c, Run(c, [r]), r)
  {
    hide Inv, HexBytes, Lower, Strip0x;
    assert [r][..0] == [] && Run(c, []) == EMPTY;
    var s0, t := GetOrCreate(c, EMPTY, r.clientId, r.purpose), TreeOf(r);
    EmptyInv(c);
    GetOrCreateKeeps(c, EMPTY, r.clientId, r.purpose);
    AppendKeeps(c, s0, t, StoredText(r), r.eventId, r.pubkey);
    assert Pow2(c.depth) >= 1;
    assert Run(c, [r]) == Append(c, s0, t, StoredText(r), r.eventId, r.pubkey).0;
  }

  /**
   A second request for the same tree, with a fresh event, is accepted exactly when its stored text
   differs from the first one's; otherwise nothing changes.
   */
  lemma SecondEnrolled(c: Config, s: Store, r: Request, r': Request)
    requires OnlyLeaf(c, s, r) && Admissible(r') && TreeOf(r') == TreeOf(r) && r'.eventId != r.eventId && c.depth >= 1
    ensures var (s', out) := Commit(c, s, r');
      && Inv(c, s')
      && (out.Enrolled? <==> StoredText(r') != StoredText(r))
      && (if out.Enrolled? then out.treeId == TreeOf(r) && s'.trees.Keys == s.trees.Keys
            && s'.trees[TreeOf(r)].clientId == r.clientId && AppendsLeaf(s, s', r', out.root) else s' == s)
  {
    CommitKeeps(c, s, r');
    assert 1 < Pow2(c.depth) by { assert Pow2(c.depth) == 2 * Pow2(c.depth - 1); }
    hide Inv, HexBytes, Lower, Strip0x;
    var t := TreeOf(r);
    assert !EventUsed(s, r'.eventId);
    assert CommitmentExists(s, t, StoredText(r')) <==> StoredText(r') == StoredText(r) by {
      assert s.leaves[0].treeId == t;
    }
    if StoredText(r') != StoredText(r) {
      AppendKeeps(c, s, t, StoredText(r'), r'.eventId, r'.pubkey);
    }
  }

  /** Two different texts for one tree, with two events, are both enrolled. */
  lemma BothEnrolled(c: Config, r: Request, r': Request)
    requires Admissible(r) && Admissible(r') && TreeOf(r) == TreeOf(r') && r.eventId != r'.eventId
    requires StoredText(r) != StoredText(r') && c.depth >= 1
    ensures var s := Run(c, [r, r']);
      Inv(c, s) && |s.leaves| == 2 && s.leaves[0].treeId == s.leaves[1].treeId
      && s.leaves[0].commitment == StoredText(r) && s.leaves[1].commitment == StoredText(r')
  {
    hide Inv, Commit, HexBytes, Stored, Admissible;
    FirstEnrolled(c, r);
    SecondEnrolled(c, Run(c, [r]), r, r');
    assert [r, r'][..1] == [r];
  }
}
