/**
 The incremental insertion of the two enrolment routes: what one call computes from the stored
 frontier, and why that agrees with the reference tree.
 */
module IncrementalTree {
  import opened Bits
  import opened MerkleSpec

  /** The running hash after `level` rounds of the insertion loop for the leaf with index n. */
  function Running(h: Hasher, state: seq<Hash>, n: nat, leaf: Hash, level: nat): Hash
    requires level <= |state|
  {
    if level == 0 then leaf
    else
      var below := Running(h, state, n, leaf, level - 1);
      if Shr(n, level - 1) % 2 == 1 then h.pair(state[level - 1], below) else h.pair(below, h.zero)
  }

  /** The sibling used in round l: the stored frontier entry, or zero. */
  function SiblingAt(h: Hasher, state: seq<Hash>, n: nat, l: nat): Hash
    requires l < |state|
  {
    if Shr(n, l) % 2 == 1 then state[l] else h.zero
  }

  /** The siblings collected in the first `level` rounds: the new leaf's witness. */
  function Siblings(h: Hasher, state: seq<Hash>, n: nat, level: nat): (siblings: seq<Hash>)
    requires level <= |state|
    ensures |siblings| == level
  {
    if level == 0 then [] else Siblings(h, state, n, level - 1) + [SiblingAt(h, state, n, level - 1)]
  }

  lemma {:induction false} SiblingsEntry(h: Hasher, state: seq<Hash>, n: nat, level: nat, l: nat)
    requires l < level <= |state|
    ensures Siblings(h, state, n, level)[l] == SiblingAt(h, state, n, l)
  {
    if l >= level - 1 {
    } else {
      SiblingsEntry(h, state, n, level - 1, l);
    }
  }

  /** The frontier after `level` rounds: entries at zero bits of n are overwritten. */
  function NextState(h: Hasher, state: seq<Hash>, n: nat, leaf: Hash, level: nat): (next: seq<Hash>)
    requires level <= |state|
    ensures |next| == |state|
  {
    if level == 0 then state
    else
      var below := NextState(h, state, n, leaf, level - 1);
      if Shr(n, level - 1) % 2 == 1 then below else below[level - 1 := Running(h, state, n, leaf, level - 1)]
  }

  /** Entry l of the new frontier: kept at a one bit of n, the running hash at a zero bit. */
  lemma {:induction false} NextStateEntry(h: Hasher, state: seq<Hash>, n: nat, leaf: Hash, level: nat, l: nat)
    requires level <= |state| && l < |state|
    ensures NextState(h, state, n, leaf, level)[l]
         == if l < level && Shr(n, l) % 2 == 0 then Running(h, state, n, leaf, l) else state[l]
  {
    if level == 0 {
    } else {
      NextStateEntry(h, state, n, leaf, level - 1, l);
    }
  }

  /** The root returned by the insertion. */
  function NewRoot(h: Hasher, state: seq<Hash>, n: nat, leaf: Hash): Hash
  {
    Running(h, state, n, leaf, |state|)
  }

  /**
   The frontier invariant: wherever the leaf count has a one bit, the frontier holds the root of
   the completed left sibling subtree of that level.
   */
  ghost predicate FrontierOk(h: Hasher, state: seq<Hash>, leaves: seq<Hash>)
  {
    && |leaves| <= Pow2(|state|)
    && forall l {:trigger state[l]} | 0 <= l < |state| && Shr(|leaves|, l) % 2 == 1 ::
         state[l] == Subtree(h, leaves, l, Shr(|leaves|, l) - 1)
  }

  /** After each round the running hash is the reference node above the new leaf. */
  lemma {:induction false} RunningIsSubtree(h: Hasher, state: seq<Hash>, leaves: seq<Hash>, leaf: Hash, level: nat)
    requires FrontierOk(h, state, leaves) && level <= |state|
    ensures Running(h, state, |leaves|, leaf, level)
         == Subtree(h, leaves + [leaf], level, Shr(|leaves|, level))
  {
    var n, all := |leaves|, leaves + [leaf];
    if level == 0 {
      assert Start(n, 0) == n;
    } else {
      RunningIsSubtree(h, state, leaves, leaf, level - 1);
      ParentStep(h, all, n, level);
      var i := Shr(n, level - 1);
      ShrBounds(n, level - 1);
      if i % 2 == 1 {
        SubtreeStable(h, leaves, [leaf], level - 1, i - 1);
      } else {
        assert Start(i + 1, level - 1) >= |all|;
      }
    }
  }

  /** A frontier entry that is in use after the insertion holds the root of its left sibling subtree. */
  lemma NextStateAt(h: Hasher, state: seq<Hash>, leaves: seq<Hash>, leaf: Hash, l: nat)
    requires FrontierOk(h, state, leaves) && l < |state|
    requires Shr(|leaves| + 1, l) % 2 == 1
    ensures NextState(h, state, |leaves|, leaf, |state|)[l] == Subtree(h, leaves + [leaf], l, Shr(|leaves| + 1, l) - 1)
  {
    var n := |leaves|;
    NextStateEntry(h, state, n, leaf, |state|, l);
    ShrSucc(n, l);
    if Shr(n, l) == Shr(n + 1, l) {
      ShrBounds(n, l);
      SubtreeStable(h, leaves, [leaf], l, Shr(n, l) - 1);
    } else {
      RunningIsSubtree(h, state, leaves, leaf, l);
    }
  }

  /** One insertion returns the reference root over all leaves so far and keeps the frontier invariant. */
  lemma InsertRefines(h: Hasher, state: seq<Hash>, leaves: seq<Hash>, leaf: Hash)
    requires FrontierOk(h, state, leaves) && |leaves| < Pow2(|state|)
    ensures NewRoot(h, state, |leaves|, leaf) == TreeRoot(h, |state|, leaves + [leaf])
    ensures FrontierOk(h, NextState(h, state, |leaves|, leaf, |state|), leaves + [leaf])
  {
    var next, all := NextState(h, state, |leaves|, leaf, |state|), leaves + [leaf];
    forall l {:trigger next[l]} | 0 <= l < |state| && Shr(|all|, l) % 2 == 1
      ensures next[l] == Subtree(h, all, l, Shr(|all|, l) - 1)
    {
      NextStateAt(h, state, leaves, leaf, l);
    }
    assert NewRoot(h, state, |leaves|, leaf) == TreeRoot(h, |state|, leaves + [leaf]) by {
      RunningIsSubtree(h, state, leaves, leaf, |state|);
      ShrZero(|leaves|, |state|);
      SubtreeIsRoot(h, leaves + [leaf], |state|);
    }
  }

  /** The returned siblings and path bits climb from the new leaf to the new root. */
  lemma {:induction false} WitnessFolds(h: Hasher, state: seq<Hash>, n: nat, leaf: Hash, level: nat)
    requires level <= |state|
    ensures Fold(h, leaf, Siblings(h, state, n, |state|), PathBits(n, |state|), level)
      == Running(h, state, n, leaf, level)
  {
    if level == 0 {
    } else {
      SiblingsEntry(h, state, n, |state|, level - 1);
      PathBitsEntry(n, |state|, level - 1);
      WitnessFolds(h, state, n, leaf, level - 1);
    }
  }

  /** With no leaves no frontier entry is in use, so any frontier will do. */
  lemma EmptyFrontier(h: Hasher, state: seq<Hash>)
    ensures FrontierOk(h, state, []) && TreeRoot(h, |state|, []) == h.zero
  {
    forall l: nat ensures Shr(0, l) == 0 { ShrZero(0, l); }
  }

  /** The frontier after inserting a whole sequence of leaves into a new tree. */
  function Frontier(h: Hasher, depth: nat, leaves: seq<Hash>): (state: seq<Hash>)
    ensures |state| == depth
  {
    if leaves == [] then Repeat(h.zero, depth)
    else
      var n := |leaves| - 1;
      NextState(h, Frontier(h, depth, leaves[..n]), n, leaves[n], depth)
  }

  /**
   Every depth, every sequence of at most 2^depth leaves: the root returned for the last leaf is
   the reference root over all of them.
   */
  lemma {:induction false} IncrementalRefinesFullTree(h: Hasher, depth: nat, leaves: seq<Hash>)
    requires |leaves| <= Pow2(depth)
    ensures FrontierOk(h, Frontier(h, depth, leaves), leaves)
    ensures leaves != [] ==>
      var n := |leaves| - 1;
      NewRoot(h, Frontier(h, depth, leaves[..n]), n, leaves[n]) == TreeRoot(h, depth, leaves)
  {
    if leaves == [] {
      EmptyFrontier(h, Repeat(h.zero, depth));
    } else {
      var n := |leaves| - 1;
      IncrementalRefinesFullTree(h, depth, leaves[..n]);
      assert leaves[..n] + [leaves[n]] == leaves;
      InsertRefines(h, Frontier(h, depth, leaves[..n]), leaves[..n], leaves[n]);
    }
  }
}
