/**
 The two enrolment routes as one-step functions on the tables, and the invariant that every run
 of them keeps.  Signature and NIP-05 checks enter as one boolean of the request.
 */
module Enrolment {
  import opened Bits
  import opened MerkleSpec
  import opened IncrementalTree
  import opened Tables

  /** The fixed hash and the fixed depth of all trees. */
  datatype Config = Config(h: Hasher, depth: nat)

  datatype Route = Membership | Enroll

  datatype Request = Request(
    route: Route, checksPass: bool,
    clientId: string, purpose: string, commitment: string, eventId: string, pubkey: string)

  datatype Outcome =
    | Enrolled(treeId: string, leafIndex: nat, root: Hash, siblings: seq<Hash>, pathBits: seq<nat>)
    | Rejected(reason: Reason)

  datatype Reason = ChecksFailed | BadCommitment | EventReplayed | AlreadyEnrolled | TreeFull | IntegrityError

  function TreeId(clientId: string, purpose: string): string { clientId + "-" + purpose }

  // ---------------------------------------------------------------------------------------
  // Commitment format
  // ---------------------------------------------------------------------------------------

  predicate IsHexDigit(c: char) { '0' <= c <= '9' || 'a' <= c <= 'f' || 'A' <= c <= 'F' }

  predicate IsSpace(c: char) { c in {' ', '\t', '\n', '\r', 11 as char, 12 as char} }

  /** Number of bytes that `bytes.fromhex` reads, or -1; blanks between bytes are skipped. */
  function HexBytes(s: string): int
  {
    if s == "" then 0
    else if IsSpace(s[0]) then HexBytes(s[1..])
    else if |s| >= 2 && IsHexDigit(s[0]) && IsHexDigit(s[1]) then
      var rest := HexBytes(s[2..]);
      if rest < 0 then -1 else rest + 1
    else -1
  }

  function Lower(s: string): (t: string)
    ensures |t| == |s|
  {
    if s == "" then ""
    else [if 'A' <= s[0] <= 'Z' then s[0] + 32 as char else s[0]] + Lower(s[1..])
  }

  /** What a route stores for a raw commitment: the membership route normalises it first. */
  function Stored(route: Route, raw: string): string
  {
    if route.Membership? then Lower(Strip0x(raw)) else raw
  }

  /** A commitment that reads as hex has no 0x left to strip. */
  lemma {:induction false} HexHasNoPrefix(s: string)
    requires HexBytes(s) >= 0
    ensures Strip0x(s) == s
    decreases |s|
  {
    if s == "" {
    } else {
      if IsSpace(s[0]) {
        HexHasNoPrefix(s[1..]);
      } else {
        HexHasNoPrefix(s[2..]);
        assert s[1..] == [s[1]] + s[2..];
        NoPrefixAcross(s);
      }
    }
  }

  lemma NoPrefixAcross(s: string)
    requires |s| >= 2 && IsHexDigit(s[0]) && IsHexDigit(s[1]) && HexBytes(s[2..]) >= 0
    requires Strip0x(s[2..]) == s[2..]
    ensures Strip0x(s) == s
  {
    var t := s[1..];
    assert t[1..] == s[2..];
    assert |t| >= 2 ==> t[1] == s[2] && t[1] != 'x';
    assert Strip0x(t) == [t[0]] + Strip0x(t[1..]) == t;
  }

  // ---------------------------------------------------------------------------------------
  // One step
  // ---------------------------------------------------------------------------------------

  /** get_or_create_tree: a new tree comes with the zero root in its history. */
  function GetOrCreate(c: Config, s: Store, clientId: string, purpose: string): Store
  {
    var treeId := TreeId(clientId, purpose);
    if treeId in s.trees then s
    else WithRoot(WithTree(c.h, s, treeId, clientId, purpose, c.depth), treeId, c.h.zero, -1)
  }

  /** insert_leaf: the tree's next state and the root row; the leaf row comes later. */
  function InsertLeaf(c: Config, s: Store, treeId: string, leaf: Hash): Store
    requires treeId in s.trees
  {
    var tree := s.trees[treeId];
    var n, state := tree.nextLeafIndex, tree.state;
    WithRoot(WithTreeState(s, treeId, n + 1, NextState(c.h, state, n, leaf, |state|)),
             treeId, NewRoot(c.h, state, n, leaf), n)
  }

  /** The part both routes share: insert the leaf, store its row, save its witness. */
  function Append(c: Config, s: Store, treeId: string, stored: string, eventId: string,
    pubkey: string): (r: (Store, Outcome))
    requires treeId in s.trees
  {
    var tree := s.trees[treeId];
    var n, leaf := tree.nextLeafIndex, Hex(Strip0x(stored));
    if n >= Pow2(|tree.state|) then (s, Rejected(TreeFull))
    else
      var s1 := InsertLeaf(c, s, treeId, leaf);
      if LeafConflict(s1, treeId, n, stored) then (s1, Rejected(IntegrityError))
      else
        var root := NewRoot(c.h, tree.state, n, leaf);
        var siblings, bits := Siblings(c.h, tree.state, n, |tree.state|), PathBits(n, c.depth);
        var s2 := WithLeaf(s1, treeId, n, stored, eventId, pubkey);
        (WithWitness(s2, |s2.leaves|, WitnessRow(treeId, siblings, bits, n, root)),
         Enrolled(treeId, n, root, siblings, bits))
  }

  /** enroll_commit of the membership route: the tree exists before replays are looked for. */
  function CommitMembership(c: Config, s: Store, req: Request): (Store, Outcome)
  {
    var stored, treeId := Stored(Membership, req.commitment), TreeId(req.clientId, req.purpose);
    if !req.checksPass then (s, Rejected(ChecksFailed))
    else if HexBytes(stored) != 32 then (s, Rejected(BadCommitment))
    else
      var s1 := GetOrCreate(c, s, req.clientId, req.purpose);
      if EventUsed(s1, req.eventId) then (s1, Rejected(EventReplayed))
      else if CommitmentExists(s1, treeId, stored) then (s1, Rejected(AlreadyEnrolled))
      else Append(c, s1, treeId, stored, req.eventId, req.pubkey)
  }

  /** enroll_commit of the three-gate route: replays are looked for first, the raw text is stored. */
  function CommitEnroll(c: Config, s: Store, req: Request): (Store, Outcome)
  {
    var treeId := TreeId(req.clientId, req.purpose);
    if !req.checksPass then (s, Rejected(ChecksFailed))
    else if EventUsed(s, req.eventId) then (s, Rejected(EventReplayed))
    else if HexBytes(Strip0x(req.commitment)) != 32 then (s, Rejected(BadCommitment))
    else if CommitmentExists(s, treeId, req.commitment) then (s, Rejected(AlreadyEnrolled))
    else
      var s1 := GetOrCreate(c, s, req.clientId, req.purpose);
      Append(c, s1, treeId, req.commitment, req.eventId, req.pubkey)
  }

  function Commit(c: Config, s: Store, req: Request): (Store, Outcome)
  {
    if req.route.Membership? then CommitMembership(c, s, req) else CommitEnroll(c, s, req)
  }

  /** The tables after a sequence of requests, oldest first, on an empty database. */
  function Run(c: Config, reqs: seq<Request>): Store
  {
    if reqs == [] then EMPTY else Commit(c, Run(c, reqs[..|reqs| - 1]), reqs[|reqs| - 1]).0
  }

  // ---------------------------------------------------------------------------------------
  // The invariant
  // ---------------------------------------------------------------------------------------

  /** A tree's counter counts its stored leaves and its frontier is right for them. */
  ghost predicate TreeOk(c: Config, s: Store, t: string)
    requires t in s.trees
  {
    var tree, leaves := s.trees[t], LeafHashes(s.leaves, t);
    && tree.depth == c.depth == |tree.state|
    && tree.nextLeafIndex == |leaves|
    && FrontierOk(c.h, tree.state, leaves)
  }

  /** Root row k of a tree is the reference root of its first k leaves. */
  ghost predicate RootsOk(c: Config, s: Store, t: string)
  {
    var rows, leaves := RootsIn(s.roots, {t}), LeafHashes(s.leaves, t);
    && |rows| == |leaves| + 1
    && forall k {:trigger rows[k]} | 0 <= k <= |leaves| ::
         rows[k].rootHash == TreeRoot(c.h, c.depth, leaves[..k]) && rows[k].leafIndex == k - 1
  }

  /** A leaf row's index is the number of earlier leaves of its tree. */
  ghost predicate LeafRowOk(s: Store, i: nat)
    requires i < |s.leaves|
  {
    var row := s.leaves[i];
    row.id == i + 1 && row.treeId in s.trees && row.leafIndex == |LeafHashes(s.leaves[..i], row.treeId)|
  }

  /** The saved witness of a leaf climbs from it to the reference root at the time of insertion. */
  ghost predicate WitnessOk(c: Config, s: Store, i: nat)
    requires i < |s.leaves|
  {
    var row := s.leaves[i];
    && i + 1 in s.witnesses
    && var w := s.witnesses[i + 1];
       && w.treeId == row.treeId && w.leafIndex == row.leafIndex
       && |w.siblings| == c.depth && w.pathBits == PathBits(row.leafIndex, c.depth)
       && Fold(c.h, HashOf(row), w.siblings, w.pathBits, c.depth) == w.rootHash
       && w.rootHash == TreeRoot(c.h, c.depth, LeafHashes(s.leaves[..i + 1], row.treeId))
  }

  ghost predicate EventsDistinct(s: Store)
  {
    forall i, j {:trigger s.leaves[i], s.leaves[j]} | 0 <= i < j < |s.leaves| ::
      s.leaves[i].eventId != s.leaves[j].eventId
  }

  ghost predicate CommitmentsDistinct(s: Store)
  {
    forall i, j {:trigger s.leaves[i], s.leaves[j]} | 0 <= i < j < |s.leaves| ::
      s.leaves[i].treeId == s.leaves[j].treeId ==> s.leaves[i].commitment != s.leaves[j].commitment
  }

  ghost predicate RootRowOk(s: Store, i: nat)
    requires i < |s.roots|
  {
    s.roots[i].id == i + 1 && s.roots[i].treeId in s.trees
  }

  ghost predicate Inv(c: Config, s: Store)
  {
    && (forall t {:trigger TreeOk(c, s, t)} {:trigger RootsOk(c, s, t)} | t in s.trees ::
          TreeOk(c, s, t) && RootsOk(c, s, t))
    && (forall i {:trigger LeafRowOk(s, i)} | 0 <= i < |s.leaves| :: LeafRowOk(s, i))
    && (forall i {:trigger RootRowOk(s, i)} | 0 <= i < |s.roots| :: RootRowOk(s, i))
    && (forall i {:trigger WitnessOk(c, s, i)} | 0 <= i < |s.leaves| :: WitnessOk(c, s, i))
    && EventsDistinct(s) && CommitmentsDistinct(s)
  }

  lemma EmptyInv(c: Config)
    ensures Inv(c, EMPTY)
  {
  }

  lemma {:induction false} UnknownTreeHasNoLeaves(rows: seq<LeafRow>, t: string)
    requires forall i {:trigger rows[i]} | 0 <= i < |rows| :: rows[i].treeId != t
    ensures LeafHashes(rows, t) == []
  {
    if rows == [] {
    } else {
      UnknownTreeHasNoLeaves(rows[..|rows| - 1], t);
    }
  }

  lemma {:induction false} UnknownTreeHasNoRoots(rows: seq<RootRow>, t: string)
    requires forall i {:trigger rows[i]} | 0 <= i < |rows| :: rows[i].treeId != t
    ensures RootsIn(rows, {t}) == []
  {
    if rows == [] {
    } else {
      UnknownTreeHasNoRoots(rows[..|rows| - 1], t);
    }
  }

  lemma GetOrCreateKeeps(c: Config, s: Store, clientId: string, purpose: string)
    requires Inv(c, s)
    ensures Inv(c, GetOrCreate(c, s, clientId, purpose))
  {
    var t, s' := TreeId(clientId, purpose), GetOrCreate(c, s, clientId, purpose);
    if t !in s.trees {
      var row := RootRow(|s.roots| + 1, t, c.h.zero, -1);
      assert s'.roots == s.roots + [row] && s'.leaves == s.leaves;
      forall u {:trigger TreeOk(c, s', u)} {:trigger RootsOk(c, s', u)} | u in s'.trees
        ensures TreeOk(c, s', u) && RootsOk(c, s', u) {
        RootsInAppend(s.roots, row, {u});
        if u == t {
          NewTreeOk(c, s, s', t);
        } else {
          assert TreeOk(c, s, u) && RootsOk(c, s, u);
          assert RootsIn(s'.roots, {u}) == RootsIn(s.roots, {u});
        }
      }
      forall i | 0 <= i < |s.leaves| ensures LeafRowOk(s', i) && WitnessOk(c, s', i) {
        assert LeafRowOk(s, i) && WitnessOk(c, s, i);
      }
      forall i | 0 <= i < |s'.roots| ensures RootRowOk(s', i) {
        assert i < |s.roots| ==> RootRowOk(s, i);
      }
    }
  }

  lemma NewTreeOk(c: Config, s: Store, s': Store, t: string)
    requires Inv(c, s) && t !in s.trees && t in s'.trees
    requires s'.leaves == s.leaves && s'.roots == s.roots + [RootRow(|s.roots| + 1, t, c.h.zero, -1)]
    requires s'.trees[t].depth == c.depth == |s'.trees[t].state| && s'.trees[t].nextLeafIndex == 0
    ensures TreeOk(c, s', t) && RootsOk(c, s', t)
  {
    forall i | 0 <= i < |s.leaves| ensures s.leaves[i].treeId != t { assert LeafRowOk(s, i); }
    forall i | 0 <= i < |s.roots| ensures s.roots[i].treeId != t { assert RootRowOk(s, i); }
    UnknownTreeHasNoLeaves(s.leaves, t);
    UnknownTreeHasNoRoots(s.roots, t);
    RootsInAppend(s.roots, RootRow(|s.roots| + 1, t, c.h.zero, -1), {t});
    EmptyFrontier(c.h, s'.trees[t].state);
  }

  /** The index of a stored leaf is below its tree's counter. */
  lemma LeafIndexBelow(c: Config, s: Store, i: nat)
    requires Inv(c, s) && i < |s.leaves|
    ensures s.leaves[i].treeId in s.trees && s.leaves[i].leafIndex < s.trees[s.leaves[i].treeId].nextLeafIndex
  {
    var t := s.leaves[i].treeId;
    assert LeafRowOk(s, i);
    assert TreeOk(c, s, t);
    assert s.leaves[..i + 1] == s.leaves[..i] + [s.leaves[i]];
    LeafHashesAppend(s.leaves[..i], s.leaves[i], t);
    LeafHashesPrefix(s.leaves, i + 1, t);
  }

  /** The table's UNIQUE constraints never fire: the checks before the insertion already cover them. */
  lemma NoConflict(c: Config, s: Store, t: string, stored: string, leaf: Hash)
    requires Inv(c, s) && t in s.trees && !CommitmentExists(s, t, stored)
    ensures !LeafConflict(InsertLeaf(c, s, t, leaf), t, s.trees[t].nextLeafIndex, stored)
  {
    forall i | 0 <= i < |s.leaves| && s.leaves[i].treeId == t
      ensures s.leaves[i].leafIndex != s.trees[t].nextLeafIndex
    {
      LeafIndexBelow(c, s, i);
    }
  }

  /** The tables after a successful append. */
  ghost predicate Appended(c: Config, s: Store, s': Store, t: string, row: LeafRow, leaf: Hash)
    requires t in s.trees
  {
    var n, state := s.trees[t].nextLeafIndex, s.trees[t].state;
    var root := NewRoot(c.h, state, n, leaf);
    && leaf == HashOf(row) && row.treeId == t && row.leafIndex == n && row.id == |s.leaves| + 1
    && s'.leaves == s.leaves + [row]
    && s'.roots == s.roots + [RootRow(|s.roots| + 1, t, root, n)]
    && s'.trees == s.trees[t := s.trees[t].(nextLeafIndex := n + 1, state := NextState(c.h, state, n, leaf, |state|))]
    && s'.witnesses == s.witnesses[|s.leaves| + 1 :=
         WitnessRow(t, Siblings(c.h, state, n, |state|), PathBits(n, c.depth), n, root)]
  }

  lemma AppendKeepsTree(c: Config, s: Store, s': Store, t: string, row: LeafRow, leaf: Hash)
    requires Inv(c, s) && t in s.trees && s.trees[t].nextLeafIndex < Pow2(c.depth)
    requires Appended(c, s, s', t, row, leaf)
    ensures TreeOk(c, s', t) && RootsOk(c, s', t)
  {
    assert TreeOk(c, s, t) && RootsOk(c, s, t);
    var leaves, rows := LeafHashes(s.leaves, t), RootsIn(s.roots, {t});
    var rootRow := s'.roots[|s.roots|];
    LeafHashesAppend(s.leaves, row, t);
    RootsInAppend(s.roots, rootRow, {t});
    InsertRefines(c.h, s.trees[t].state, leaves, leaf);
    var leaves', rows' := leaves + [leaf], rows + [rootRow];
    forall k {:trigger rows'[k]} | 0 <= k <= |leaves'|
      ensures rows'[k].rootHash == TreeRoot(c.h, c.depth, leaves'[..k]) && rows'[k].leafIndex == k - 1
    {
      if k <= |leaves| {
        assert leaves'[..k] == leaves[..k] && rows'[k] == rows[k];
      } else {
        assert leaves'[..k] == leaves';
      }
    }
  }

  lemma AppendKeepsOtherTree(c: Config, s: Store, s': Store, t: string, row: LeafRow, leaf: Hash, u: string)
    requires Inv(c, s) && t in s.trees && u in s.trees && u != t
    requires Appended(c, s, s', t, row, leaf)
    ensures TreeOk(c, s', u) && RootsOk(c, s', u)
  {
    assert TreeOk(c, s, u) && RootsOk(c, s, u);
    LeafHashesAppend(s.leaves, row, u);
    RootsInAppend(s.roots, s'.roots[|s.roots|], {u});
    assert LeafHashes(s'.leaves, u) == LeafHashes(s.leaves, u);
    assert RootsIn(s'.roots, {u}) == RootsIn(s.roots, {u});
  }

  /** The row that is added: its index and its witness. */
  lemma NewRowOk(c: Config, s: Store, s': Store, t: string, row: LeafRow, leaf: Hash)
    requires Inv(c, s) && t in s.trees && s.trees[t].nextLeafIndex < Pow2(c.depth)
    requires Appended(c, s, s', t, row, leaf)
    ensures LeafRowOk(s', |s.leaves|) && WitnessOk(c, s', |s.leaves|)
  {
    assert TreeOk(c, s, t);
    var state := s.trees[t].state;
    assert s'.leaves[..|s.leaves|] == s.leaves;
    assert s'.leaves[..|s.leaves| + 1] == s'.leaves;
    LeafHashesAppend(s.leaves, row, t);
    InsertRefines(c.h, state, LeafHashes(s.leaves, t), leaf);
    WitnessFolds(c.h, state, row.leafIndex, leaf, c.depth);
  }

  lemma OldRowOk(c: Config, s: Store, s': Store, t: string, row: LeafRow, leaf: Hash, i: nat)
    requires Inv(c, s) && t in s.trees && i < |s.leaves|
    requires Appended(c, s, s', t, row, leaf)
    ensures LeafRowOk(s', i) && WitnessOk(c, s', i)
  {
    assert LeafRowOk(s, i) && WitnessOk(c, s, i);
    assert s'.leaves[..i] == s.leaves[..i];
    assert s'.leaves[..i + 1] == s.leaves[..i + 1];
  }

  lemma AppendedKeeps(c: Config, s: Store, s': Store, t: string, row: LeafRow, leaf: Hash)
    requires Inv(c, s) && t in s.trees && s.trees[t].nextLeafIndex < Pow2(c.depth)
    requires Appended(c, s, s', t, row, leaf)
    requires !EventUsed(s, row.eventId) && !CommitmentExists(s, t, row.commitment)
    ensures Inv(c, s')
  {
    forall u {:trigger TreeOk(c, s', u)} {:trigger RootsOk(c, s', u)} | u in s'.trees
        ensures TreeOk(c, s', u) && RootsOk(c, s', u) {
      if u == t {
        AppendKeepsTree(c, s, s', t, row, leaf);
      } else {
        AppendKeepsOtherTree(c, s, s', t, row, leaf, u);
      }
    }
    forall i | 0 <= i < |s'.leaves| ensures LeafRowOk(s', i) && WitnessOk(c, s', i) {
      if i < |s.leaves| {
        OldRowOk(c, s, s', t, row, leaf, i);
      } else {
        NewRowOk(c, s, s', t, row, leaf);
      }
    }
    forall i | 0 <= i < |s'.roots| ensures RootRowOk(s', i) {
      assert i < |s.roots| ==> RootRowOk(s, i);
    }
  }

  /** Under the invariant the shared part refuses only a full tree, and otherwise keeps the invariant. */
  lemma AppendKeeps(c: Config, s: Store, t: string, stored: string, eventId: string, pubkey: string)
    requires Inv(c, s) && t in s.trees
    requires !EventUsed(s, eventId) && !CommitmentExists(s, t, stored)
    ensures var (s', out) := Append(c, s, t, stored, eventId, pubkey);
      && Inv(c, s')
      && (if s.trees[t].nextLeafIndex == Pow2(c.depth) then out == Rejected(TreeFull) && s' == s else out.Enrolled?)
  {
    assert TreeOk(c, s, t);
    var leaf := Hex(Strip0x(stored));
    var n := s.trees[t].nextLeafIndex;
    var s' := Append(c, s, t, stored, eventId, pubkey).0;
    if n < Pow2(c.depth) {
      NoConflict(c, s, t, stored, leaf);
      AppendedKeeps(c, s, s', t, LeafRow(|s.leaves| + 1, t, n, stored, eventId, pubkey), leaf);
    }
  }

  /** Every request, on either route and with any outcome, keeps the invariant. */
  lemma CommitKeeps(c: Config, s: Store, req: Request)
    requires Inv(c, s)
    ensures Inv(c, Commit(c, s, req).0)
    ensures Commit(c, s, req).1 != Rejected(IntegrityError)
  {
    var t, s1 := TreeId(req.clientId, req.purpose), GetOrCreate(c, s, req.clientId, req.purpose);
    var stored := Stored(req.route, req.commitment);
    GetOrCreateKeeps(c, s, req.clientId, req.purpose);
    if !EventUsed(s1, req.eventId) && !CommitmentExists(s1, t, stored) {
      AppendKeeps(c, s1, t, stored, req.eventId, req.pubkey);
    }
  }

  /** Safety over whole runs: the invariant holds after every sequence of requests. */
  lemma {:induction false} RunKeeps(c: Config, reqs: seq<Request>)
    ensures Inv(c, Run(c, reqs))
  {
    if reqs == [] {
      EmptyInv(c);
    } else {
      RunKeeps(c, reqs[..|reqs| - 1]);
      CommitKeeps(c, Run(c, reqs[..|reqs| - 1]), reqs[|reqs| - 1]);
    }
  }
}
