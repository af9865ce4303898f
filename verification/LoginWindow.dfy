/** The one check of login: is the presented root recent enough for the client? */
module LoginWindow {
  import opened MerkleSpec
  import opened IncrementalTree
  import opened Tables
  import opened Enrolment

  function ClientTrees(s: Store, clientId: string): set<string>
  {
    set t | t in s.trees && s.trees[t].clientId == clientId
  }

  function ClientRoots(s: Store, clientId: string): seq<RootRow>
  {
    RootsIn(s.roots, ClientTrees(s, clientId))
  }

  function MinId(rows: seq<RootRow>): nat
    requires rows != []
  {
    var last := rows[|rows| - 1].id;
    if |rows| == 1 then last else Min(last, MinId(rows[..|rows| - 1]))
  }

  function Min(a: nat, b: nat): nat { if a <= b then a else b }

  /** COALESCE(MIN(id), 0) over the last `limit` rows. */
  function Cutoff(rows: seq<RootRow>, limit: nat): nat
  {
    var last := LastRows(rows, limit);
    if last == [] then 0 else MinId(last)
  }

  /** is_root_valid: the per-tree window. */
  predicate RootValid(s: Store, treeId: string, root: Hash, limit: nat)
  {
    root in ValidRoots(s, treeId, limit)
  }

  /** is_root_valid_for_client: one window over all trees of the client. */
  predicate RootValidForClient(s: Store, clientId: string, root: Hash, limit: nat)
  {
    var rows := ClientRoots(s, clientId);
    && ClientTrees(s, clientId) != {}
    && exists k :: 0 <= k < |rows| && rows[k].rootHash == root && rows[k].id >= Cutoff(rows, limit)
  }

  /** The root occurs among the last `limit` rows. */
  ghost predicate AmongLast(rows: seq<RootRow>, root: Hash, limit: nat)
  {
    exists k :: 0 <= k < |rows| && k + limit >= |rows| && rows[k].rootHash == root
  }

  ghost predicate Increasing(rows: seq<RootRow>)
  {
    forall i, j {:trigger rows[i], rows[j]} | 0 <= i < j < |rows| :: rows[i].id < rows[j].id
  }

  lemma {:induction false} RootsInSource(rows: seq<RootRow>, ids: set<string>, k: nat) returns (i: nat)
    requires k < |RootsIn(rows, ids)|
    ensures i < |rows| && rows[i] == RootsIn(rows, ids)[k] && rows[i].treeId in ids
  {
    var n := |rows| - 1;
    if k == |RootsIn(rows[..n], ids)| {
      i := n;
    } else {
      i := RootsInSource(rows[..n], ids, k);
    }
  }

  lemma {:induction false} RootsInIncreasing(rows: seq<RootRow>, ids: set<string>)
    requires Increasing(rows)
    ensures Increasing(RootsIn(rows, ids))
  {
    if rows == [] {
    } else {
      var n := |rows| - 1;
      var below := RootsIn(rows[..n], ids);
      RootsInIncreasing(rows[..n], ids);
      forall i, j {:trigger RootsIn(rows, ids)[i], RootsIn(rows, ids)[j]} | 0 <= i < j < |RootsIn(rows, ids)|
        ensures RootsIn(rows, ids)[i].id < RootsIn(rows, ids)[j].id
      {
        if j == |below| {
          var m := RootsInSource(rows[..n], ids, i);
        }
      }
    }
  }

  lemma {:induction false} MinIdIsFirst(rows: seq<RootRow>)
    requires rows != [] && Increasing(rows)
    ensures MinId(rows) == rows[0].id
  {
    if |rows| <= 1 {
    } else {
      MinIdIsFirst(rows[..|rows| - 1]);
    }
  }

  lemma InvIncreasing(c: Config, s: Store)
    requires Inv(c, s)
    ensures Increasing(s.roots)
  {
    forall i, j | 0 <= i < j < |s.roots| ensures s.roots[i].id < s.roots[j].id {
      assert RootRowOk(s, i) && RootRowOk(s, j);
    }
  }

  /**
   The SQL window is exact: with a window of at least one row a root is accepted exactly when it
   is among the last `limit` roots of the client's trees taken together.
   */
  lemma WindowExact(c: Config, s: Store, clientId: string, root: Hash, limit: nat)
    requires Inv(c, s) && limit >= 1
    ensures RootValidForClient(s, clientId, root, limit) <==> AmongLast(ClientRoots(s, clientId), root, limit)
  {
    var rows := ClientRoots(s, clientId);
    InvIncreasing(c, s);
    hide Inv;
    RootsInIncreasing(s.roots, ClientTrees(s, clientId));
    if rows != [] {
      var i := RootsInSource(s.roots, ClientTrees(s, clientId), 0);
      CutoffIsExact(rows, limit);
    }
  }

  /** How many rows after row i belong to these trees. */
  function Newer(rows: seq<RootRow>, ids: set<string>, i: nat): nat
    decreases |rows| - i
  {
    if i + 1 >= |rows| then 0 else Newer(rows, ids, i + 1) + if rows[i + 1].treeId in ids then 1 else 0
  }

  /** Selecting from the first i + 1 rows gives the beginning of the whole selection. */
  lemma {:induction false} SelectedBefore(rows: seq<RootRow>, ids: set<string>, i: nat)
    requires i < |rows|
    ensures RootsIn(rows[..i + 1], ids) <= RootsIn(rows, ids)
    ensures |RootsIn(rows, ids)| == |RootsIn(rows[..i + 1], ids)| + Newer(rows, ids, i)
    decreases |rows| - i
  {
    if i + 1 == |rows| {
      assert rows[..i + 1] == rows;
    } else {
      SelectedBefore(rows, ids, i + 1);
      assert rows[..i + 2] == rows[..i + 1] + [rows[i + 1]];
      RootsInAppend(rows[..i + 1], rows[i + 1], ids);
    }
  }

  /** A selected row stands in the selection before as many rows as follow it and are selected. */
  lemma PlaceOf(rows: seq<RootRow>, ids: set<string>, i: nat)
    requires i < |rows| && rows[i].treeId in ids
    ensures var (all, k) := (RootsIn(rows, ids), |RootsIn(rows[..i], ids)|);
      k < |all| && all[k] == rows[i] && |all| == k + 1 + Newer(rows, ids, i)
  {
    hide RootsIn;
    SelectedBefore(rows, ids, i);
    assert rows[..i + 1] == rows[..i] + [rows[i]];
    RootsInAppend(rows[..i], rows[i], ids);
  }

  lemma {:induction false} PlaceFrom(rows: seq<RootRow>, ids: set<string>, k: nat) returns (i: nat)
    requires k < |RootsIn(rows, ids)|
    ensures i < |rows| && rows[i].treeId in ids && rows[i] == RootsIn(rows, ids)[k]
    ensures |RootsIn(rows, ids)| == k + 1 + Newer(rows, ids, i)
  {
    var n := |rows| - 1;
    if k == |RootsIn(rows[..n], ids)| {
      i := n;
    } else {
      i := PlaceFrom(rows[..n], ids, k);
      PlaceOf(rows, ids, i);
      PlaceOf(rows[..n], ids, i);
      assert rows[..n][..i] == rows[..i];
    }
  }

  /** A row of the root table belongs to the client: its tree is there and names it. */
  ghost predicate Owned(s: Store, row: RootRow, clientId: string)
  {
    row.treeId in s.trees && s.trees[row.treeId].clientId == clientId
  }

  /** Row i has this root, is the client's, and fewer than `limit` rows of the client's were added after it. */
  ghost predicate Recent(s: Store, i: nat, clientId: string, root: Hash, limit: nat)
    requires i < |s.roots|
  {
    && s.roots[i].rootHash == root && Owned(s, s.roots[i], clientId)
    && Newer(s.roots, ClientTrees(s, clientId), i) < limit
  }

  /**
   The window in terms of the root table alone: a root is accepted exactly if some row of the client's has it
   and fewer than `limit` rows of the client's, in whatever tree, were added after that row.
   */
  lemma AcceptedMeans(c: Config, s: Store, clientId: string, root: Hash, limit: nat)
    requires Inv(c, s) && limit >= 1
    ensures RootValidForClient(s, clientId, root, limit) <==>
      exists i :: 0 <= i < |s.roots| && Recent(s, i, clientId, root, limit)
  {
    hide Inv, RootsIn, Newer, RootValidForClient;
    var ids, rows := ClientTrees(s, clientId), ClientRoots(s, clientId);
    WindowExact(c, s, clientId, root, limit);
    if AmongLast(rows, root, limit) {
      var k :| 0 <= k < |rows| && k + limit >= |rows| && rows[k].rootHash == root;
      var i := PlaceFrom(s.roots, ids, k);
      assert Recent(s, i, clientId, root, limit);
    }
    if i :| 0 <= i < |s.roots| && Recent(s, i, clientId, root, limit) {
      PlaceOf(s.roots, ids, i);
      assert rows[|RootsIn(s.roots[..i], ids)|].rootHash == root;
    }
  }

  /** The ids that reach the cutoff are those of the last `limit` rows. */
  lemma CutoffIsExact(rows: seq<RootRow>, limit: nat)
    requires Increasing(rows) && rows != [] && limit >= 1
    ensures forall k {:trigger rows[k]} | 0 <= k < |rows| :: rows[k].id >= Cutoff(rows, limit) <==> k + limit >= |rows|
  {
    var m := if |rows| <= limit then 0 else |rows| - limit;
    assert LastRows(rows, limit) == rows[m..];
    MinIdIsFirst(rows[m..]);
  }

  /** A window of zero rows is no window: the cutoff falls back to 0 and every recorded root is accepted. */
  lemma ZeroWindowAcceptsEveryRoot(s: Store, clientId: string, root: Hash)
    ensures RootValidForClient(s, clientId, root, 0) <==>
      exists k :: 0 <= k < |ClientRoots(s, clientId)| && ClientRoots(s, clientId)[k].rootHash == root
  {
    var rows := ClientRoots(s, clientId);
    assert LastRows(rows, 0) == [];
    if rows != [] {
      var i := RootsInSource(s.roots, ClientTrees(s, clientId), 0);
    }
  }

  // ---------------------------------------------------------------------------------------
  // Against the per-tree window
  // ---------------------------------------------------------------------------------------

  ghost predicate HasRoot(rows: seq<RootRow>, root: Hash)
  {
    exists k :: 0 <= k < |rows| && rows[k].rootHash == root
  }

  lemma HasRootSplit(front: seq<RootRow>, last: RootRow, root: Hash)
    ensures HasRoot(front + [last], root) <==> HasRoot(front, root) || last.rootHash == root
  {
    var rows := front + [last];
    assert rows[|front|] == last;
    if HasRoot(front, root) {
      var k :| 0 <= k < |front| && front[k].rootHash == root;
      assert rows[k].rootHash == root;
    }
  }

  lemma {:induction false} NewestMember(rows: seq<RootRow>, root: Hash)
    ensures root in Newest(rows) <==> HasRoot(rows, root)
  {
    if rows == [] {
    } else {
      var front, last := rows[..|rows| - 1], rows[|rows| - 1];
      NewestMember(front, root);
      HasRootSplit(front, last, root);
      hide HasRoot;
      assert rows == front + [last];
    }
  }

  lemma PerTreeWindow(s: Store, t: string, root: Hash, limit: nat)
    ensures RootValid(s, t, root, limit) <==> AmongLast(RootsIn(s.roots, {t}), root, limit)
  {
    var rows := RootsIn(s.roots, {t});
    var m := if |rows| <= limit then 0 else |rows| - limit;
    var last := LastRows(rows, limit);
    assert last == rows[m..];
    NewestMember(last, root);
    if AmongLast(rows, root, limit) {
      var k :| 0 <= k < |rows| && k + limit >= |rows| && rows[k].rootHash == root;
      assert last[k - m].rootHash == root;
    }
  }

  /**
   get_valid_roots in order: entry k is the reference root k leaves ago, and the list ends with the window or
   with the empty tree's root.
   */
  lemma ValidRootsNewestFirst(c: Config, s: Store, t: string, limit: nat, k: nat)
    requires Inv(c, s) && t in s.trees
    ensures var (leaves, valid) := (LeafHashes(s.leaves, t), ValidRoots(s, t, limit));
      && |valid| == Min(limit, |leaves| + 1)
      && (k < |valid| ==> valid[k] == TreeRoot(c.h, c.depth, leaves[..|leaves| - k]))
  {
    hide TreeRoot, LeafHashes, RootsIn, Newest, LastRows;
    var rows := RootsIn(s.roots, {t});
    assert RootsOk(c, s, t);
    NewestRows(rows, limit, k);
  }

  lemma NewestRows(rows: seq<RootRow>, limit: nat, k: nat)
    ensures var valid := Newest(LastRows(rows, limit));
      |valid| == Min(limit, |rows|) && (k < |valid| ==> valid[k] == rows[|rows| - 1 - k].rootHash)
  {
    hide Newest;
    NewestAt(LastRows(rows, limit), k);
  }

  /** Selecting one tree after selecting several that include it. */
  lemma {:induction false} RootsInTwice(rows: seq<RootRow>, ids: set<string>, t: string)
    requires t in ids
    ensures RootsIn(RootsIn(rows, ids), {t}) == RootsIn(rows, {t})
  {
    if rows == [] {
    } else {
      var n := |rows| - 1;
      RootsInTwice(rows[..n], ids, t);
      if rows[n].treeId in ids {
        RootsInAppend(RootsIn(rows[..n], ids), rows[n], {t});
      } else {
        assert RootsIn(rows, ids) == RootsIn(rows[..n], ids) && RootsIn(rows, {t}) == RootsIn(rows[..n], {t});
      }
    }
  }

  /** A row that is `d` rows from the end stays at most that far from the end of its own tree's rows. */
  lemma {:induction false} CloserToEnd(rows: seq<RootRow>, k: nat) returns (m: nat)
    requires k < |rows|
    ensures var own := RootsIn(rows, {rows[k].treeId});
      m < |own| && own[m] == rows[k] && |own| - m <= |rows| - k
  {
    var n, t := |rows| - 1, rows[k].treeId;
    if k == n {
      m := |RootsIn(rows[..n], {t})|;
    } else {
      m := CloserToEnd(rows[..n], k);
    }
  }

  /** Acceptance for a client implies that some tree of the client accepts the root by itself. */
  lemma AcceptedBySomeTree(c: Config, s: Store, clientId: string, root: Hash, limit: nat) returns (t: string)
    requires Inv(c, s) && limit >= 1 && RootValidForClient(s, clientId, root, limit)
    ensures t in ClientTrees(s, clientId) && RootValid(s, t, root, limit)
  {
    var ids, rows := ClientTrees(s, clientId), ClientRoots(s, clientId);
    WindowExact(c, s, clientId, root, limit);
    var k :| 0 <= k < |rows| && k + limit >= |rows| && rows[k].rootHash == root;
    var i := RootsInSource(s.roots, ids, k);
    t := rows[k].treeId;
    var m := CloserToEnd(rows, k);
    RootsInTwice(s.roots, ids, t);
    assert AmongLast(RootsIn(s.roots, {t}), root, limit);
    PerTreeWindow(s, t, root, limit);
  }

  /** For a client with one tree the two windows are the same. */
  lemma SingleTreeWindow(c: Config, s: Store, clientId: string, t: string, root: Hash, limit: nat)
    requires Inv(c, s) && limit >= 1 && ClientTrees(s, clientId) == {t}
    ensures RootValidForClient(s, clientId, root, limit) <==> RootValid(s, t, root, limit)
  {
    WindowExact(c, s, clientId, root, limit);
    PerTreeWindow(s, t, root, limit);
  }

  /**
   For a client with one tree, the accepted roots are exactly the reference roots of the last
   `limit` recorded prefixes of its leaves.
   */
  lemma AcceptedIsRecentPrefix(c: Config, s: Store, clientId: string, t: string, root: Hash, limit: nat)
    requires Inv(c, s) && limit >= 1 && ClientTrees(s, clientId) == {t}
    ensures RootValidForClient(s, clientId, root, limit) <==>
      exists k: nat {:trigger LeafHashes(s.leaves, t)[..k]} ::
        && k <= |LeafHashes(s.leaves, t)| < k + limit
        && root == TreeRoot(c.h, c.depth, LeafHashes(s.leaves, t)[..k])
  {
    var rows, leaves := ClientRoots(s, clientId), LeafHashes(s.leaves, t);
    WindowExact(c, s, clientId, root, limit);
    assert t in ClientTrees(s, clientId) && RootsOk(c, s, t);
    RecentPrefixes(c, rows, leaves, root, limit);
  }

  lemma RecentPrefixes(c: Config, rows: seq<RootRow>, leaves: seq<Hash>, root: Hash, limit: nat)
    requires limit >= 1 && |rows| == |leaves| + 1
    requires forall k {:trigger rows[k]} | 0 <= k < |rows| :: rows[k].rootHash == TreeRoot(c.h, c.depth, leaves[..k])
    ensures AmongLast(rows, root, limit) <==>
      exists k: nat {:trigger leaves[..k]} ::
        k <= |leaves| < k + limit && root == TreeRoot(c.h, c.depth, leaves[..k])
  {
    hide TreeRoot;
    if AmongLast(rows, root, limit) {
      var k :| 0 <= k < |rows| && k + limit >= |rows| && rows[k].rootHash == root;
      assert root == TreeRoot(c.h, c.depth, leaves[..k]);
    }
    if k: nat :| k <= |leaves| < k + limit && root == TreeRoot(c.h, c.depth, leaves[..k]) {
      assert rows[k].rootHash == root;
    }
  }

  // ---------------------------------------------------------------------------------------
  // Other clients, and the client's own new roots
  // ---------------------------------------------------------------------------------------

  /** Every tree is stored under the name made of its client and purpose. */
  ghost predicate NamesOk(s: Store)
  {
    forall t | t in s.trees :: t == TreeId(s.trees[t].clientId, s.trees[t].purpose)
  }

  /** Only the tree with this request's name is touched, and only its roots are added to. */
  ghost predicate TouchesOnly(s: Store, s': Store, req: Request)
  {
    var t := TreeId(req.clientId, req.purpose);
    && s.roots <= s'.roots
    && (forall k {:trigger s'.roots[k]} | |s.roots| <= k < |s'.roots| :: s'.roots[k].treeId == t)
    && s.trees.Keys <= s'.trees.Keys <= s.trees.Keys + {t}
    && (forall u {:trigger s'.trees[u]} | u in s'.trees ::
          if u in s.trees then s'.trees[u].clientId == s.trees[u].clientId && s'.trees[u].purpose == s.trees[u].purpose
          else s'.trees[u].clientId == req.clientId && s'.trees[u].purpose == req.purpose)
  }

  lemma AppendTouchesOnly(c: Config, s: Store, stored: string, req: Request)
    requires TreeId(req.clientId, req.purpose) in s.trees
    ensures TouchesOnly(s, Append(c, s, TreeId(req.clientId, req.purpose), stored, req.eventId, req.pubkey).0, req)
  {
  }

  lemma CreateTouchesOnly(c: Config, s: Store, req: Request)
    ensures TouchesOnly(s, s, req) && TouchesOnly(s, GetOrCreate(c, s, req.clientId, req.purpose), req)
    ensures TreeId(req.clientId, req.purpose) in GetOrCreate(c, s, req.clientId, req.purpose).trees
  {
  }

  lemma TouchesOnlyTransitive(s: Store, s1: Store, s2: Store, req: Request)
    requires TouchesOnly(s, s1, req) && TouchesOnly(s1, s2, req)
    ensures TouchesOnly(s, s2, req)
  {
  }

  lemma CommitTouchesOnly(c: Config, s: Store, req: Request)
    ensures TouchesOnly(s, Commit(c, s, req).0, req)
  {
    var s1 := GetOrCreate(c, s, req.clientId, req.purpose);
    CreateTouchesOnly(c, s, req);
    hide TouchesOnly, Append, GetOrCreate, HexBytes, EventUsed, CommitmentExists;
    AppendTouchesOnly(c, s1, Stored(req.route, req.commitment), req);
    var s2 := Append(c, s1, TreeId(req.clientId, req.purpose), Stored(req.route, req.commitment), req.eventId,
      req.pubkey).0;
    TouchesOnlyTransitive(s, s1, s2, req);
  }

  lemma CommitKeepsNames(c: Config, s: Store, req: Request)
    requires NamesOk(s)
    ensures NamesOk(Commit(c, s, req).0)
  {
    hide Commit;
    CommitTouchesOnly(c, s, req);
  }

  lemma {:induction false} RunKeepsNames(c: Config, reqs: seq<Request>)
    ensures NamesOk(Run(c, reqs))
  {
    if reqs == [] {
    } else {
      RunKeepsNames(c, reqs[..|reqs| - 1]);
      CommitKeepsNames(c, Run(c, reqs[..|reqs| - 1]), reqs[|reqs| - 1]);
    }
  }

  /** The root handed out by an enrolment is accepted for the tree's client right away. */
  lemma FreshRootAccepted(c: Config, s: Store, req: Request, limit: nat)
    requires Inv(c, s) && limit >= 1 && Commit(c, s, req).1.Enrolled?
    ensures var (s', out) := Commit(c, s, req);
      out.treeId in s'.trees && RootValidForClient(s', s'.trees[out.treeId].clientId, out.root, limit)
  {
    var (s', out) := Commit(c, s, req);
    CommitPublishes(c, s, req);
    NewestRowAccepted(c, s', out.treeId, limit);
  }

  /** An enrolment leaves its root as the newest row of the root table. */
  lemma CommitPublishes(c: Config, s: Store, req: Request)
    requires Inv(c, s) && Commit(c, s, req).1.Enrolled?
    ensures var (s', out) := Commit(c, s, req);
      && Inv(c, s') && out.treeId in s'.trees && s'.roots != []
      && s'.roots[|s'.roots| - 1].treeId == out.treeId && s'.roots[|s'.roots| - 1].rootHash == out.root
  {
    CommitKeeps(c, s, req);
  }

  lemma NewestRowAccepted(c: Config, s: Store, treeId: string, limit: nat)
    requires Inv(c, s) && limit >= 1 && treeId in s.trees && s.roots != [] && s.roots[|s.roots| - 1].treeId == treeId
    ensures RootValidForClient(s, s.trees[treeId].clientId, s.roots[|s.roots| - 1].rootHash, limit)
  {
    hide Inv;
    var clientId, n := s.trees[treeId].clientId, |s.roots| - 1;
    var ids, last := ClientTrees(s, clientId), s.roots[n];
    assert treeId in ids;
    assert s.roots == s.roots[..n] + [last];
    RootsInAppend(s.roots[..n], last, ids);
    var rows := ClientRoots(s, clientId);
    assert rows[|rows| - 1] == last;
    assert AmongLast(rows, last.rootHash, limit);
    WindowExact(c, s, clientId, last.rootHash, limit);
  }
}
