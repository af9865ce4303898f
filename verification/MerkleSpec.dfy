/**
 The tree the service is meant to maintain, defined on whole leaf sequences, with no
 incremental state: an empty subtree is the zero hash at every level, and any other inner node
 hashes the roots of its two halves.  The hash is a parameter throughout.
 */
module MerkleSpec {
  import opened Bits
  import opened Wrappers

  /** A node value: a string of hex digits. */
  datatype Hash = Hex(digits: string)
  /**
   How inner nodes are made: the pair hash, and the value that stands for an empty subtree.  The
   service uses 64 zero digits for the latter, at every level.
   */
  datatype Hasher = Hasher(pair: (Hash, Hash) -> Hash, zero: Hash)

  function Repeat(x: Hash, k: nat): (s: seq<Hash>)
    ensures |s| == k
  {
    if k == 0 then [] else Repeat(x, k - 1) + [x]
  }

  lemma {:induction false} RepeatAt(x: Hash, k: nat, i: nat)
    requires i < k
    ensures Repeat(x, k)[i] == x
  {
    if i >= k - 1 {
    } else {
      RepeatAt(x, k - 1, i);
    }
  }

  /**
   Reference value of the subtree of height `depth` whose leftmost leaf is number `lo`: the zero hash when
   there is no such leaf, otherwise the leaf itself or the hash of the two halves.
   */
  function TreeAt(h: Hasher, leaves: seq<Hash>, depth: nat, lo: nat): Hash
  {
    if lo >= |leaves| then h.zero
    else if depth == 0 then leaves[lo]
    else h.pair(TreeAt(h, leaves, depth - 1, lo), TreeAt(h, leaves, depth - 1, lo + Pow2(depth - 1)))
  }

  /** Reference root of a tree of the given depth over its leaves, left to right. */
  function TreeRoot(h: Hasher, depth: nat, leaves: seq<Hash>): Hash
  {
    TreeAt(h, leaves, depth, 0)
  }

  /** The reference value of node `i` of level `level`. */
  function Subtree(h: Hasher, leaves: seq<Hash>, level: nat, i: nat): Hash
  {
    TreeAt(h, leaves, level, Start(i, level))
  }

  lemma SubtreeIsRoot(h: Hasher, leaves: seq<Hash>, depth: nat)
    ensures Subtree(h, leaves, depth, 0) == TreeRoot(h, depth, leaves)
  {
    StartZero(depth);
  }

  /** A node with leaves below it is the hash of its two children; one without is the zero hash at any level. */
  lemma SubtreeUnfold(h: Hasher, leaves: seq<Hash>, level: nat, i: nat)
    ensures Start(i, level) >= |leaves| ==> Subtree(h, leaves, level, i) == h.zero
    ensures level > 0 && Start(i, level) < |leaves| ==>
      Subtree(h, leaves, level, i)
      == h.pair(Subtree(h, leaves, level - 1, 2 * i), Subtree(h, leaves, level - 1, 2 * i + 1))
  {
    if level > 0 {
      StartSucc(2 * i, level - 1);
    }
  }

  /** Appending leaves keeps every completed subtree as it was. */
  lemma {:induction false} TreeAtStable(h: Hasher, leaves: seq<Hash>, more: seq<Hash>, depth: nat, lo: nat)
    requires lo + Pow2(depth) <= |leaves|
    ensures TreeAt(h, leaves + more, depth, lo) == TreeAt(h, leaves, depth, lo)
  {
    if depth == 0 {
    } else {
      TreeAtStable(h, leaves, more, depth - 1, lo);
      TreeAtStable(h, leaves, more, depth - 1, lo + Pow2(depth - 1));
    }
  }

  lemma SubtreeStable(h: Hasher, leaves: seq<Hash>, more: seq<Hash>, level: nat, i: nat)
    requires Start(i + 1, level) <= |leaves|
    ensures Subtree(h, leaves + more, level, i) == Subtree(h, leaves, level, i)
  {
    StartSucc(i, level);
    TreeAtStable(h, leaves, more, level, Start(i, level));
  }

  // ---------------------------------------------------------------------------------------
  // Authentication paths
  // ---------------------------------------------------------------------------------------

  /** The server's path bits: bit 1 says that the running hash is the right child. */
  function PathBits(index: nat, depth: nat): (bits: seq<nat>)
    ensures |bits| == depth
  {
    if depth == 0 then [] else PathBits(index, depth - 1) + [Shr(index, depth - 1) % 2]
  }

  lemma {:induction false} PathBitsEntry(index: nat, depth: nat, l: nat)
    requires l < depth
    ensures PathBits(index, depth)[l] == Shr(index, l) % 2
  {
    if l >= depth - 1 {
    } else {
      PathBitsEntry(index, depth - 1, l);
    }
  }

  /** One hashing step up a path. */
  function Up(h: Hasher, current: Hash, sibling: Hash, bit: nat): Hash
  {
    if bit == 1 then h.pair(sibling, current) else h.pair(current, sibling)
  }

  /** The value reached after climbing `level` levels from `x` along a path. */
  function Fold(h: Hasher, x: Hash, siblings: seq<Hash>, bits: seq<nat>, level: nat): Hash
    requires level <= |siblings| && level <= |bits|
  {
    if level == 0 then x
    else Up(h, Fold(h, x, siblings, bits, level - 1), siblings[level - 1], bits[level - 1])
  }

  /** The index of a node's sibling. */
  function Beside(i: nat): nat { if i % 2 == 1 then i - 1 else i + 1 }

  /** The sibling of node Shr(k, l) in the reference tree, for every level l. */
  function TruePath(h: Hasher, leaves: seq<Hash>, k: nat, depth: nat): (path: seq<Hash>)
    ensures |path| == depth
  {
    if depth == 0 then []
    else TruePath(h, leaves, k, depth - 1) + [Subtree(h, leaves, depth - 1, Beside(Shr(k, depth - 1)))]
  }

  lemma {:induction false} TruePathEntry(h: Hasher, leaves: seq<Hash>, k: nat, depth: nat, l: nat)
    requires l < depth
    ensures TruePath(h, leaves, k, depth)[l] == Subtree(h, leaves, l, Beside(Shr(k, l)))
  {
    if l >= depth - 1 {
    } else {
      TruePathEntry(h, leaves, k, depth - 1, l);
    }
  }

  /** Node Shr(k, l) is the parent of node Shr(k, l - 1) and is hashed from it and its sibling. */
  lemma ParentStep(h: Hasher, leaves: seq<Hash>, k: nat, level: nat)
    requires k < |leaves| && level > 0
    ensures var i := Shr(k, level - 1);
      Subtree(h, leaves, level, Shr(k, level))
      == Up(h, Subtree(h, leaves, level - 1, i),
            Subtree(h, leaves, level - 1, Beside(i)), i % 2)
  {
    ShrBounds(k, level);
    SubtreeUnfold(h, leaves, level, Shr(k, level));
  }

  /** Climbing the true path of leaf k passes through the reference nodes above it. */
  lemma {:induction false} TruePathFolds(h: Hasher, leaves: seq<Hash>, k: nat, depth: nat, level: nat)
    requires k < |leaves| && level <= depth
    ensures Fold(h, leaves[k], TruePath(h, leaves, k, depth), PathBits(k, depth), level)
         == Subtree(h, leaves, level, Shr(k, level))
  {
    if level == 0 {
      assert Start(k, 0) == k;
    } else {
      TruePathFolds(h, leaves, k, depth, level - 1);
      TruePathEntry(h, leaves, k, depth, level - 1);
      PathBitsEntry(k, depth, level - 1);
      ParentStep(h, leaves, k, level);
    }
  }

  // ---------------------------------------------------------------------------------------
  // What an opening binds
  // ---------------------------------------------------------------------------------------

  /** Two different inputs, as far as `read` can tell, whose hashes `read` cannot tell apart. */
  ghost predicate Collision(h: Hasher, read: Hash -> Hash, a: Hash, b: Hash, c: Hash, d: Hash)
  {
    (read(a) != read(c) || read(b) != read(d)) && read(h.pair(a, b)) == read(h.pair(c, d))
  }

  /**
   Any sibling list that climbs from x to the root along leaf k's path either starts from a
   value that reads like leaf k, or yields a collision, which this lemma hands back.
   */
  lemma {:induction false} OpeningBinds(h: Hasher, read: Hash -> Hash, leaves: seq<Hash>, k: nat,
                                        x: Hash, siblings: seq<Hash>, depth: nat, level: nat)
    returns (a: Hash, b: Hash, c: Hash, d: Hash)
    requires k < |leaves| && level <= depth == |siblings|
    requires read(Fold(h, x, siblings, PathBits(k, depth), level))
          == read(Subtree(h, leaves, level, Shr(k, level)))
    ensures read(x) == read(leaves[k]) || Collision(h, read, a, b, c, d)
  {
    a, b, c, d := h.zero, h.zero, h.zero, h.zero;
    if level == 0 {
      assert Start(k, 0) == k;
    } else {
      ParentStep(h, leaves, k, level);
      PathBitsEntry(k, depth, level - 1);
      var bits := PathBits(k, depth);
      var i := Shr(k, level - 1);
      var cur, sib := Fold(h, x, siblings, bits, level - 1), siblings[level - 1];
      var node := Subtree(h, leaves, level - 1, i);
      var other := Subtree(h, leaves, level - 1, Beside(i));
      if read(cur) == read(node) {
        a, b, c, d := OpeningBinds(h, read, leaves, k, x, siblings, depth, level - 1);
      } else if i % 2 == 1 {
        a, b, c, d := sib, cur, other, node;
      } else {
        a, b, c, d := cur, sib, node, other;
      }
    }
  }

  /** `h` looks at its arguments only through `read`. */
  ghost predicate ReadsThrough(h: Hasher, read: Hash -> Hash)
  {
    forall a, b, c, d {:trigger h.pair(a, b), h.pair(c, d)} :: read(a) == read(c) && read(b) == read(d) ==>
      h.pair(a, b) == h.pair(c, d)
  }

  /**
   The binding is no stronger than that: when the hash reads its arguments through `read`,
   every x that reads like leaf k opens at index k with the true path.
   */
  lemma {:induction false} ReadAlikeOpens(h: Hasher, read: Hash -> Hash, leaves: seq<Hash>, k: nat,
                                          x: Hash, depth: nat, level: nat)
    requires ReadsThrough(h, read)
    requires k < |leaves| && 0 < level <= depth
    requires read(x) == read(leaves[k])
    ensures Fold(h, x, TruePath(h, leaves, k, depth), PathBits(k, depth), level)
         == Subtree(h, leaves, level, Shr(k, level))
  {
    var path, bits := TruePath(h, leaves, k, depth), PathBits(k, depth);
    ParentStep(h, leaves, k, level);
    TruePathEntry(h, leaves, k, depth, level - 1);
    PathBitsEntry(k, depth, level - 1);
    assert Start(k, 0) == k;
    if level == 1 {
      assert Fold(h, x, path, bits, 0) == x;
    } else {
      ReadAlikeOpens(h, read, leaves, k, x, depth, level - 1);
    }
  }

  // ---------------------------------------------------------------------------------------
  // The pair hash of the service
  // ---------------------------------------------------------------------------------------

  /** The part of a hash string that hash_pair hands to the hash: its first eight digits. */
  function FirstEight(x: Hash): Hash { if |x.digits| <= 8 then x else Hex(x.digits[..8]) }

  /**
   hash_pair: an external hash of the first eight digits of each side, and another hash of both strings
   in full where the external one fails.
   */
  function HashPair(external: (Hash, Hash) -> Option<Hash>, whole: (Hash, Hash) -> Hash, left: Hash, right: Hash): Hash
  {
    match external(FirstEight(left), FirstEight(right))
    case Some(digest) => digest
    case None => whole(left, right)
  }

  /**
   The external hash is given the first eight digits of the left side, then those of the right side; where it
   fails, the other hash is given both strings whole.
   */
  lemma HashPairReads(external: (Hash, Hash) -> Option<Hash>, whole: (Hash, Hash) -> Hash,
                      l: string, restL: string, r: string, restR: string)
    requires |l| == 8 || (|l| < 8 && restL == "")
    requires |r| == 8 || (|r| < 8 && restR == "")
    ensures var hash, digest := HashPair(external, whole, Hex(l + restL), Hex(r + restR)), external(Hex(l), Hex(r));
      if digest.Some? then hash == digest.value else hash == whole(Hex(l + restL), Hex(r + restR))
  {
    assert l + restL == l || (l + restL)[..8] == l;
    assert r + restR == r || (r + restR)[..8] == r;
  }

  /** Where the external hash never fails, hash_pair reads eight digits of each side and no more. */
  lemma HashPairReadsEight(external: (Hash, Hash) -> Option<Hash>, whole: (Hash, Hash) -> Hash, zero: Hash)
    requires forall a, b :: external(a, b).Some?
    ensures ReadsThrough(Hasher((l: Hash, r: Hash) => HashPair(external, whole, l, r), zero), FirstEight)
  {
    var h := Hasher((l: Hash, r: Hash) => HashPair(external, whole, l, r), zero);
    forall a, b, c, d {:trigger h.pair(a, b), h.pair(c, d)} | FirstEight(a) == FirstEight(c)
      && FirstEight(b) == FirstEight(d)
      ensures h.pair(a, b) == h.pair(c, d)
    {
      assert external(FirstEight(a), FirstEight(b)).Some?;
    }
  }

  /**
   What an opening under hash_pair proves about leaf k: any value with the same first eight digits opens
   there, and an opened value with other first eight digits comes with a collision of what is read.
   */
  lemma OpeningProvesEightDigits(h: Hasher, leaves: seq<Hash>, k: nat, x: Hash, siblings: seq<Hash>, depth: nat)
    returns (a: Hash, b: Hash, c: Hash, d: Hash)
    requires ReadsThrough(h, FirstEight) && k < |leaves| <= Pow2(depth) && depth > 0 && |siblings| == depth
    ensures FirstEight(x) == FirstEight(leaves[k]) ==>
      Fold(h, x, TruePath(h, leaves, k, depth), PathBits(k, depth), depth) == TreeRoot(h, depth, leaves)
    ensures Fold(h, x, siblings, PathBits(k, depth), depth) == TreeRoot(h, depth, leaves) ==>
      (FirstEight(x) == FirstEight(leaves[k]) || Collision(h, FirstEight, a, b, c, d))
  {
    ShrZero(k, depth);
    SubtreeIsRoot(h, leaves, depth);
    a, b, c, d := h.zero, h.zero, h.zero, h.zero;
    if FirstEight(x) == FirstEight(leaves[k]) {
      ReadAlikeOpens(h, FirstEight, leaves, k, x, depth, depth);
    } else if Fold(h, x, siblings, PathBits(k, depth), depth) == TreeRoot(h, depth, leaves) {
      a, b, c, d := OpeningBinds(h, FirstEight, leaves, k, x, siblings, depth, depth);
    }
  }
}
