/**
 The service's mutable database: the tables as fields, the routes as methods that update them.
 Each method is tied to the one-step function of the same name on table values.
 */
module Database {
  import opened Bits
  import opened MerkleSpec
  import IncrementalTree
  import opened Tables
  import Enrolment
  import RequestOutcome
  import LoginWindow
  import Npub
  import opened Wrappers

  datatype Inserted = Inserted(root: Hash, leafIndex: nat, siblings: seq<Hash>)

  datatype LoginRow = LoginRow(id: nat, npub: string, clientId: string, merkleRoot: string, verifiedAt: int)

  datatype WitnessResponse = WitnessResponse(treeId: string, saved: WitnessRow, currentRoot: Hash,
    validRoots: seq<Hash>)

  datatype LoginOutcome = LoggedIn | InvalidFormat | StaleRoot | KeysMissing

  predicate IsHex64(s: string)
  {
    |s| == 64 && forall i :: 0 <= i < |s| ==> '0' <= s[i] <= '9' || 'a' <= s[i] <= 'f'
  }

  /** Both formats: 64 characters that read as hex and are already as the reader would write them. */
  lemma IsHex64Means(s: string)
    ensures IsHex64(s) <==> |s| == 64 && Npub.FromHex(s).Some? && Npub.Canonical(s) == s
  {
    hide Npub.FromHex, Npub.Canonical;
    if |s| == 64 && Npub.LowerHex(s) {
      Npub.LowerHexReads(s);
    }
    if Npub.FromHex(s).Some? {
      Npub.CanonicalFixed(s);
    }
    assert |s| == 64 ==> (IsHex64(s) <==> Npub.LowerHex(s));
  }

  class MembershipDb {
    const c: Enrolment.Config
    var leaves: seq<LeafRow>
    var roots: seq<RootRow>
    var trees: map<string, TreeRow>
    var witnesses: map<nat, WitnessRow>
    var logins: seq<LoginRow>

    ghost function View(): Store
      reads this
    {
      Store(leaves, roots, trees, witnesses)
    }

    ghost predicate Valid()
      reads this
    {
      Enrolment.Inv(c, View())
    }

    constructor (c: Enrolment.Config)
      ensures Valid() && this.c == c && View() == EMPTY && logins == []
    {
      this.c := c;
      leaves, roots, trees, witnesses, logins := [], [], map[], map[], [];
    }

    method AddMerkleRoot(treeId: string, rootHash: Hash, leafIndex: int)
      modifies this`roots
      ensures View() == WithRoot(old(View()), treeId, rootHash, leafIndex)
    {
      roots := roots + [RootRow(|roots| + 1, treeId, rootHash, leafIndex)];
    }

    method CreateMerkleTree(treeId: string, clientId: string, purpose: string, depth: nat)
      modifies this`trees
      ensures View() == WithTree(c.h, old(View()), treeId, clientId, purpose, depth)
    {
      if treeId !in trees {
        trees := trees[treeId := TreeRow(clientId, purpose, depth, 0, Repeat(c.h.zero, depth))];
      }
    }

    method GetOrCreateTree(clientId: string, purpose: string) returns (treeId: string)
      modifies this`trees, this`roots
      ensures treeId == Enrolment.TreeId(clientId, purpose) && treeId in trees
      ensures View() == Enrolment.GetOrCreate(c, old(View()), clientId, purpose)
    {
      treeId := Enrolment.TreeId(clientId, purpose);
      if treeId !in trees {
        CreateMerkleTree(treeId, clientId, purpose, c.depth);
        AddMerkleRoot(treeId, c.h.zero, -1);
      }
    }

    /** The insertion loop: climbs from the new leaf, collecting siblings and the new frontier. */
    method InsertLeaf(treeId: string, leaf: Hash) returns (r: Result<Inserted>)
      requires treeId in trees ==> |trees[treeId].state| == trees[treeId].depth
      modifies this`trees, this`roots
      ensures treeId !in old(trees) || old(trees)[treeId].nextLeafIndex >= Pow2(old(trees)[treeId].depth) ==>
        r.Err? && View() == old(View())
      ensures treeId in old(trees) && old(trees)[treeId].nextLeafIndex < Pow2(old(trees)[treeId].depth) ==>
        var n, state := old(trees)[treeId].nextLeafIndex, old(trees)[treeId].state;
        && r == Ok(Inserted(IncrementalTree.NewRoot(c.h, state, n, leaf), n,
          IncrementalTree.Siblings(c.h, state, n, |state|)))
        && View() == Enrolment.InsertLeaf(c, old(View()), treeId, leaf)
    {
      if treeId !in trees {
        return Err("Tree not found");
      }
      var depth, leafIndex, state := trees[treeId].depth, trees[treeId].nextLeafIndex, trees[treeId].state;
      if leafIndex >= Pow2(depth) {
        return Err("Tree is full");
      }
      var siblings: seq<Hash> := [];
      var idx := leafIndex;
      var currentHash := leaf;
      var newState := state;
      for level := 0 to depth
        invariant idx == Shr(leafIndex, level)
        invariant currentHash == IncrementalTree.Running(c.h, state, leafIndex, leaf, level)
        invariant siblings == IncrementalTree.Siblings(c.h, state, leafIndex, level)
        invariant newState == IncrementalTree.NextState(c.h, state, leafIndex, leaf, level)
      {
        if idx % 2 == 1 {
          var sibling := state[level];
          siblings := siblings + [sibling];
          currentHash := c.h.pair(sibling, currentHash);
        } else {
          siblings := siblings + [c.h.zero];
          newState := newState[level := currentHash];
          currentHash := c.h.pair(currentHash, c.h.zero);
        }
        idx := idx / 2;
      }
      trees := trees[treeId := trees[treeId].(nextLeafIndex := leafIndex + 1, state := newState)];
      AddMerkleRoot(treeId, currentHash, leafIndex);
      return Ok(Inserted(currentHash, leafIndex, siblings));
    }

    /** INSERT into the leaf table; a violated UNIQUE constraint is an error. */
    method AddMerkleLeaf(treeId: string, leafIndex: nat, commitment: string, eventId: string, pubkey: string)
      returns (r: Result<nat>)
      modifies this`leaves
      ensures LeafConflict(old(View()), treeId, leafIndex, commitment) ==> r.Err? && View() == old(View())
      ensures !LeafConflict(old(View()), treeId, leafIndex, commitment) ==>
        r == Ok(|leaves|) && View() == WithLeaf(old(View()), treeId, leafIndex, commitment, eventId, pubkey)
    {
      var conflict := false;
      for i := 0 to |leaves|
        invariant conflict <==>
          (exists k :: 0 <= k < i && leaves[k].treeId == treeId
            && (leaves[k].leafIndex == leafIndex || leaves[k].commitment == commitment))
      {
        conflict := conflict || (leaves[i].treeId == treeId
          && (leaves[i].leafIndex == leafIndex || leaves[i].commitment == commitment));
      }
      if conflict {
        return Err("UNIQUE constraint failed");
      }
      leaves := leaves + [LeafRow(|leaves| + 1, treeId, leafIndex, commitment, eventId, pubkey)];
      return Ok(|leaves|);
    }

    /** The tail that both routes share, from the insertion to the saved witness. */
    method AppendLeaf(treeId: string, stored: string, leaf: Hash, eventId: string, pubkey: string)
      returns (out: Enrolment.Outcome)
      requires treeId in trees && |trees[treeId].state| == trees[treeId].depth && leaf == Hex(Strip0x(stored))
      modifies this`leaves, this`roots, this`trees, this`witnesses
      ensures (View(), out) == Enrolment.Append(c, old(View()), treeId, stored, eventId, pubkey)
    {
      var r := InsertLeaf(treeId, leaf);
      if r.Err? {
        return Enrolment.Rejected(Enrolment.TreeFull);
      }
      var Inserted(newRoot, leafIndex, siblings) := r.value;
      var pathBits: seq<nat> := [];
      var idx := leafIndex;
      for l := 0 to c.depth
        invariant idx == Shr(leafIndex, l) && pathBits == PathBits(leafIndex, l)
      {
        pathBits := pathBits + [idx % 2];
        idx := idx / 2;
      }
      var leafId := AddMerkleLeaf(treeId, leafIndex, stored, eventId, pubkey);
      if leafId.Err? {
        return Enrolment.Rejected(Enrolment.IntegrityError);
      }
      witnesses := witnesses[leafId.value := WitnessRow(treeId, siblings, pathBits, leafIndex, newRoot)];
      return Enrolment.Enrolled(treeId, leafIndex, newRoot, siblings, pathBits);
    }

    /** POST /v1/membership/enroll/commit */
    method EnrollCommitMembership(req: Enrolment.Request) returns (out: Enrolment.Outcome)
      requires Valid() && req.route.Membership?
      modifies this`leaves, this`roots, this`trees, this`witnesses
      ensures Valid() && (View(), out) == Enrolment.Commit(c, old(View()), req)
      ensures match RequestOutcome.Fault(c, old(View()), req)
        case Some(fault) => out == Enrolment.Rejected(fault) && RequestOutcome.OnlyCreates(c, old(View()), View(), req)
        case None => out.Enrolled? && RequestOutcome.Answers(c, old(View()), View(), req, out)
    {
      Enrolment.CommitKeeps(c, View(), req);
      RequestOutcome.OutcomeIs(c, View(), req);
      hide RequestOutcome.Fault, RequestOutcome.OnlyCreates, RequestOutcome.Answers;
      if !req.checksPass {
        return Enrolment.Rejected(Enrolment.ChecksFailed);
      }
      var commitment := Enrolment.Lower(Strip0x(req.commitment));
      if Enrolment.HexBytes(commitment) != 32 {
        return Enrolment.Rejected(Enrolment.BadCommitment);
      }
      Enrolment.GetOrCreateKeeps(c, View(), req.clientId, req.purpose);
      var treeId := GetOrCreateTree(req.clientId, req.purpose);
      if EventUsed(Store(leaves, roots, trees, witnesses), req.eventId) {
        return Enrolment.Rejected(Enrolment.EventReplayed);
      }
      if CommitmentExists(Store(leaves, roots, trees, witnesses), treeId, commitment) {
        return Enrolment.Rejected(Enrolment.AlreadyEnrolled);
      }
      Enrolment.HexHasNoPrefix(commitment);
      assert Enrolment.TreeOk(c, View(), treeId);
      out := AppendLeaf(treeId, commitment, Hex(commitment), req.eventId, req.pubkey);
    }

    /** POST /v1/membership/enroll/commit of the three-gate flow */
    method EnrollCommitThreeGate(req: Enrolment.Request) returns (out: Enrolment.Outcome)
      requires Valid() && req.route.Enroll?
      modifies this`leaves, this`roots, this`trees, this`witnesses
      ensures Valid() && (View(), out) == Enrolment.Commit(c, old(View()), req)
      ensures match RequestOutcome.Fault(c, old(View()), req)
        case Some(fault) => out == Enrolment.Rejected(fault) && RequestOutcome.OnlyCreates(c, old(View()), View(), req)
        case None => out.Enrolled? && RequestOutcome.Answers(c, old(View()), View(), req, out)
    {
      Enrolment.CommitKeeps(c, View(), req);
      RequestOutcome.OutcomeIs(c, View(), req);
      hide RequestOutcome.Fault, RequestOutcome.OnlyCreates, RequestOutcome.Answers;
      if !req.checksPass {
        return Enrolment.Rejected(Enrolment.ChecksFailed);
      }
      if EventUsed(Store(leaves, roots, trees, witnesses), req.eventId) {
        return Enrolment.Rejected(Enrolment.EventReplayed);
      }
      if Enrolment.HexBytes(Strip0x(req.commitment)) != 32 {
        return Enrolment.Rejected(Enrolment.BadCommitment);
      }
      if CommitmentExists(Store(leaves, roots, trees, witnesses), Enrolment.TreeId(req.clientId, req.purpose),
        req.commitment) {
        return Enrolment.Rejected(Enrolment.AlreadyEnrolled);
      }
      Enrolment.GetOrCreateKeeps(c, View(), req.clientId, req.purpose);
      var treeId := GetOrCreateTree(req.clientId, req.purpose);
      assert Enrolment.TreeOk(c, View(), treeId);
      out := AppendLeaf(treeId, req.commitment, Hex(Strip0x(req.commitment)), req.eventId, req.pubkey);
    }

    /**
     The witness is the row saved for the leaf with this commitment, of that leaf's index and path, and its
     root is the tree's root row recorded for that index.
     */
    ghost predicate SavedFor(treeId: string, commitment: string, w: WitnessRow)
      reads this
    {
      exists i {:trigger leaves[i]} :: 0 <= i < |leaves|
        && leaves[i].treeId == treeId && leaves[i].commitment == commitment
        && i + 1 in witnesses && witnesses[i + 1] == w
        && w.leafIndex == leaves[i].leafIndex && w.pathBits == PathBits(w.leafIndex, c.depth)
        && var rows := RootsIn(roots, {treeId});
           w.leafIndex + 1 < |rows| && rows[w.leafIndex + 1].rootHash == w.rootHash
           && rows[w.leafIndex + 1].leafIndex == w.leafIndex
    }

    lemma SavedIs(i: nat)
      requires Valid() && i < |leaves|
      ensures leaves[i].id in witnesses
      ensures SavedFor(leaves[i].treeId, leaves[i].commitment, witnesses[leaves[i].id])
    {
      var s, row, t := View(), leaves[i], leaves[i].treeId;
      assert Enrolment.LeafRowOk(s, i) && Enrolment.WitnessOk(c, s, i) && Enrolment.RootsOk(c, s, t);
      assert leaves[..i + 1] == leaves[..i] + [row];
      LeafHashesAppend(leaves[..i], row, t);
      LeafHashesPrefix(leaves, i + 1, t);
      assert LeafHashes(leaves, t)[..row.leafIndex + 1] == LeafHashes(leaves[..i + 1], t);
    }

    /** The stored witness of an enrolled commitment, as it was saved at insertion. */
    method GetWitnessByCommitment(treeId: string, commitment: string) returns (r: Option<WitnessRow>)
      requires Valid()
      ensures r.Some? <==> CommitmentExists(View(), treeId, commitment)
      ensures r.Some? ==> SavedFor(treeId, commitment, r.value)
      ensures r.Some? ==>
        && r.value.treeId == treeId && |r.value.siblings| == |r.value.pathBits| == c.depth
        && Fold(c.h, Hex(Strip0x(commitment)), r.value.siblings, r.value.pathBits, c.depth) == r.value.rootHash
    {
      for i := 0 to |leaves|
        invariant forall k {:trigger leaves[k]} | 0 <= k < i ::
          !(leaves[k].treeId == treeId && leaves[k].commitment == commitment)
      {
        if leaves[i].treeId == treeId && leaves[i].commitment == commitment {
          assert Enrolment.LeafRowOk(View(), i) && Enrolment.WitnessOk(c, View(), i);
          SavedIs(i);
          return Some(witnesses[leaves[i].id]);
        }
      }
      return None;
    }

    /** The newest root of a tree. */
    method GetCurrentRoot(treeId: string) returns (r: Option<Hash>)
      requires Valid()
      ensures r == if treeId in trees then Some(TreeRoot(c.h, c.depth, LeafHashes(leaves, treeId))) else None
    {
      var rows := RootsIn(roots, {treeId});
      if treeId !in trees {
        forall i {:trigger roots[i]} | 0 <= i < |roots| ensures roots[i].treeId != treeId {
          assert Enrolment.RootRowOk(View(), i);
        }
        Enrolment.UnknownTreeHasNoRoots(roots, treeId);
      }
      if rows == [] {
        assert treeId in trees ==> Enrolment.RootsOk(c, View(), treeId);
        return None;
      }
      assert Enrolment.TreeOk(c, View(), treeId) && Enrolment.RootsOk(c, View(), treeId);
      assert LeafHashes(leaves, treeId)[..|rows| - 1] == LeafHashes(leaves, treeId);
      return Some(rows[|rows| - 1].rootHash);
    }

    /** GET /v1/membership/witness: the witness as saved, beside the current root and the window. */
    method GetMembershipWitness(clientId: string, rawCommitment: string, treeIdGiven: string, window: nat)
      returns (r: Result<WitnessResponse>)
      requires Valid()
      ensures var treeId := if treeIdGiven == "" then clientId + "-allowlist" else treeIdGiven;
        var commitment := Enrolment.Lower(Strip0x(rawCommitment));
        && (r.Ok? <==>
          treeId in trees && trees[treeId].clientId == clientId && CommitmentExists(View(), treeId, commitment))
        && (r.Ok? ==>
             && r.value.treeId == treeId && r.value.validRoots == ValidRoots(View(), treeId, window)
             && r.value.currentRoot == TreeRoot(c.h, c.depth, LeafHashes(leaves, treeId))
             && SavedFor(treeId, commitment, r.value.saved)
             && var w := r.value.saved;
                && |w.siblings| == |w.pathBits| == c.depth
                && Fold(c.h, Hex(Strip0x(commitment)), w.siblings, w.pathBits, c.depth) == w.rootHash)
    {
      hide Enrolment.Lower, Strip0x, Fold;
      var commitment := Enrolment.Lower(Strip0x(rawCommitment));
      var treeId := if treeIdGiven == "" then clientId + "-allowlist" else treeIdGiven;
      if treeId !in trees {
        return Err("tree not found");
      }
      if trees[treeId].clientId != clientId {
        return Err("tree belongs to different client");
      }
      var saved := GetWitnessByCommitment(treeId, commitment);
      if saved.None? {
        return Err("witness not found");
      }
      var currentRoot := GetCurrentRoot(treeId);
      var validRoots := ValidRoots(Store(leaves, roots, trees, witnesses), treeId, window);
      return Ok(WitnessResponse(treeId, saved.value, currentRoot.value, validRoots));
    }

    /** POST /v1/login/verify: the root window decides; every accepted attempt is logged under its npub. */
    method VerifyLogin(clientId: string, merkleRoot: string, npubHex: string, window: nat, now: int, keysReady: bool)
      returns (out: LoginOutcome)
      requires Valid() && window >= 1
      modifies this`logins
      ensures Valid()
      ensures var root := Enrolment.Lower(merkleRoot);
        && (out == InvalidFormat <==> !IsHex64(root) || !IsHex64(Enrolment.Lower(npubHex)))
        && (out == StaleRoot || out == InvalidFormat ==> logins == old(logins))
        && (out == LoggedIn || out == KeysMissing ==>
             && LoginWindow.AmongLast(LoginWindow.ClientRoots(View(), clientId), Hex(root), window)
             && |logins| == |old(logins)| + 1 && logins[..|old(logins)|] == old(logins)
             && Npub.Decoded(logins[|old(logins)|].npub) == Some(Enrolment.Lower(npubHex))
             && Npub.ChecksumOk("npub", logins[|old(logins)|].npub)
             && logins[|old(logins)|] == LoginRow(|logins|, logins[|old(logins)|].npub, clientId, root, now))
        && (out == StaleRoot ==> !LoginWindow.AmongLast(LoginWindow.ClientRoots(View(), clientId), Hex(root), window))
        && (out == LoggedIn ==> keysReady) && (out == KeysMissing ==> !keysReady)
    {
      hide Npub.Decoded, Npub.FromHex, Npub.Encode, Npub.ChecksumOk, Npub.SymbolsOf;
      hide Enrolment.Lower, LoginWindow.AmongLast;
      var root, hex := Enrolment.Lower(merkleRoot), Enrolment.Lower(npubHex);
      if !IsHex64(root) {
        return InvalidFormat;
      }
      if !IsHex64(hex) {
        return InvalidFormat;
      }
      Npub.LowerHexConverts(hex);
      var npub := Npub.ConvertPubkey(hex);
      LoginWindow.WindowExact(c, View(), clientId, Hex(root), window);
      if !LoginWindow.RootValidForClient(Store(leaves, roots, trees, witnesses), clientId, Hex(root), window) {
        return StaleRoot;
      }
      logins := logins + [LoginRow(|logins| + 1, npub.value, clientId, root, now)];
      if !keysReady {
        return KeysMissing;
      }
      return LoggedIn;
    }
  }
}
