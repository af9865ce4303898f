/**
 The four tables that enrolment writes and login reads, as values, with the queries over them.
 Row ids are handed out in insertion order and rows are never deleted.
 */
module Tables {
  import opened MerkleSpec

  datatype LeafRow = LeafRow(id: nat, treeId: string, leafIndex: nat, commitment: string, eventId: string,
    pubkey: string)
  datatype RootRow = RootRow(id: nat, treeId: string, rootHash: Hash, leafIndex: int)
  datatype TreeRow = TreeRow(clientId: string, purpose: string, depth: nat, nextLeafIndex: nat, state: seq<Hash>)
  datatype WitnessRow = WitnessRow(treeId: string, siblings: seq<Hash>, pathBits: seq<nat>, leafIndex: nat,
    rootHash: Hash)

  datatype Store = Store(
    leaves: seq<LeafRow>,
    roots: seq<RootRow>,
    trees: map<string, TreeRow>,
    witnesses: map<nat, WitnessRow>)

  const EMPTY: Store := Store([], [], map[], map[])

  // ---------------------------------------------------------------------------------------
  // Leaves
  // ---------------------------------------------------------------------------------------

  /** Python's `replace("0x", "")`: drops every occurrence, left to right, without rescanning. */
  function Strip0x(s: string): string
  {
    if |s| >= 2 && s[0] == '0' && s[1] == 'x' then Strip0x(s[2..])
    else if s == "" then ""
    else [s[0]] + Strip0x(s[1..])
  }

  /** "0x" starts at position k. */
  ghost predicate MarkAt(s: string, k: nat) { k + 1 < |s| && s[k] == '0' && s[k + 1] == 'x' }

  /** Text without 0x stays as it is. */
  lemma {:induction false} StripNone(s: string)
    requires forall k: nat {:trigger MarkAt(s, k)} :: !MarkAt(s, k)
    ensures Strip0x(s) == s
    decreases |s|
  {
    if s == "" {
    } else {
      assert !MarkAt(s, 0);
      forall k: nat {:trigger MarkAt(s[1..], k)} ensures !MarkAt(s[1..], k) {
        assert !MarkAt(s, k + 1);
      }
      StripNone(s[1..]);
    }
  }

  /** The first 0x is dropped, and the text goes on right after it. */
  lemma {:induction false} StripFirst(a: string, b: string)
    requires forall k: nat {:trigger MarkAt(a, k)} :: !MarkAt(a, k)
    ensures Strip0x(a + "0x" + b) == a + Strip0x(b)
    decreases |a|
  {
    var s := a + "0x" + b;
    if a == "" {
      assert s[2..] == b;
    } else {
      assert s[1..] == a[1..] + "0x" + b && s[0] == a[0];
      assert !MarkAt(a, 0) && !MarkAt(s, 0);
      forall k: nat {:trigger MarkAt(a[1..], k)} ensures !MarkAt(a[1..], k) {
        assert !MarkAt(a, k + 1);
      }
      StripFirst(a[1..], b);
    }
  }

  /** The hash that a stored commitment contributed to its tree. */
  function HashOf(row: LeafRow): Hash { Hex(Strip0x(row.commitment)) }

  /** The leaves of one tree, in insertion order. */
  function LeafHashes(rows: seq<LeafRow>, treeId: string): seq<Hash>
  {
    if rows == [] then []
    else
      var row := rows[|rows| - 1];
      LeafHashes(rows[..|rows| - 1], treeId) + if row.treeId == treeId then [HashOf(row)] else []
  }

  lemma LeafHashesAppend(rows: seq<LeafRow>, row: LeafRow, treeId: string)
    ensures LeafHashes(rows + [row], treeId)
         == LeafHashes(rows, treeId) + if row.treeId == treeId then [HashOf(row)] else []
  {
    assert (rows + [row])[..|rows|] == rows;
  }

  /** Earlier rows contribute a prefix of a tree's leaves. */
  lemma {:induction false} LeafHashesPrefix(rows: seq<LeafRow>, n: nat, treeId: string)
    requires n <= |rows|
    ensures LeafHashes(rows[..n], treeId) <= LeafHashes(rows, treeId)
    decreases |rows| - n
  {
    if n < |rows| {
      LeafHashesPrefix(rows, n + 1, treeId);
      assert rows[..n + 1] == rows[..n] + [rows[n]];
      LeafHashesAppend(rows[..n], rows[n], treeId);
    } else {
      assert rows[..n] == rows;
    }
  }

  predicate EventUsed(s: Store, eventId: string)
  {
    exists i :: 0 <= i < |s.leaves| && s.leaves[i].eventId == eventId
  }

  predicate CommitmentExists(s: Store, treeId: string, commitment: string)
  {
    exists i :: 0 <= i < |s.leaves| && s.leaves[i].treeId == treeId && s.leaves[i].commitment == commitment
  }

  /** The two UNIQUE constraints of the leaf table. */
  predicate LeafConflict(s: Store, treeId: string, leafIndex: nat, commitment: string)
  {
    exists i :: 0 <= i < |s.leaves| && s.leaves[i].treeId == treeId
      && (s.leaves[i].leafIndex == leafIndex || s.leaves[i].commitment == commitment)
  }

  // ---------------------------------------------------------------------------------------
  // Roots
  // ---------------------------------------------------------------------------------------

  /** SELECT over the root table: the rows of a set of trees, in id order. */
  function RootsIn(rows: seq<RootRow>, ids: set<string>): seq<RootRow>
  {
    if rows == [] then []
    else
      var row := rows[|rows| - 1];
      RootsIn(rows[..|rows| - 1], ids) + if row.treeId in ids then [row] else []
  }

  lemma RootsInAppend(rows: seq<RootRow>, row: RootRow, ids: set<string>)
    ensures RootsIn(rows + [row], ids) == RootsIn(rows, ids) + if row.treeId in ids then [row] else []
  {
    assert (rows + [row])[..|rows|] == rows;
  }

  /** ORDER BY id DESC LIMIT n, put back into ascending order. */
  function LastRows(rows: seq<RootRow>, limit: nat): (last: seq<RootRow>)
    ensures |last| <= limit
  {
    if |rows| <= limit then rows else rows[|rows| - limit..]
  }

  function Newest(rows: seq<RootRow>): seq<Hash>
  {
    if rows == [] then [] else [rows[|rows| - 1].rootHash] + Newest(rows[..|rows| - 1])
  }

  lemma {:induction false} NewestAt(rows: seq<RootRow>, k: nat)
    ensures |Newest(rows)| == |rows|
    ensures k < |rows| ==> Newest(rows)[k] == rows[|rows| - 1 - k].rootHash
  {
    if rows == [] {
    } else {
      NewestAt(rows[..|rows| - 1], if k > 0 then k - 1 else 0);
    }
  }

  /** get_valid_roots: the last `limit` roots of one tree, newest first. */
  function ValidRoots(s: Store, treeId: string, limit: nat): seq<Hash>
  {
    Newest(LastRows(RootsIn(s.roots, {treeId}), limit))
  }

  // ---------------------------------------------------------------------------------------
  // Single-row writes
  // ---------------------------------------------------------------------------------------

  function WithRoot(s: Store, treeId: string, rootHash: Hash, leafIndex: int): Store
  {
    s.(roots := s.roots + [RootRow(|s.roots| + 1, treeId, rootHash, leafIndex)])
  }

  function WithLeaf(s: Store, treeId: string, leafIndex: nat, commitment: string, eventId: string,
    pubkey: string): Store
  {
    s.(leaves := s.leaves + [LeafRow(|s.leaves| + 1, treeId, leafIndex, commitment, eventId, pubkey)])
  }

  /** INSERT OR IGNORE of a tree with an all-zero frontier. */
  function WithTree(h: Hasher, s: Store, treeId: string, clientId: string, purpose: string, depth: nat): Store
  {
    if treeId in s.trees then s
    else s.(trees := s.trees[treeId := TreeRow(clientId, purpose, depth, 0, Repeat(h.zero, depth))])
  }

  function WithTreeState(s: Store, treeId: string, next: nat, state: seq<Hash>): Store
    requires treeId in s.trees
  {
    s.(trees := s.trees[treeId := s.trees[treeId].(nextLeafIndex := next, state := state)])
  }

  function WithWitness(s: Store, leafId: nat, w: WitnessRow): Store
  {
    s.(witnesses := s.witnesses[leafId := w])
  }
}
