/**
 The enterprise batch builder (tools/sbm-tree): pads the leaves to 2^depth, builds every layer,
 and reads authentication paths off the layers.  It is compared here with the reference tree and
 with the server's incremental tree.
 */
module BatchTree {
  import opened Bits
  import opened MerkleSpec
  import opened Wrappers

  /** The leaves followed by zero leaves up to the full width. */
  function Padded(h: Hasher, leaves: seq<Hash>, depth: nat): (p: seq<Hash>)
    requires |leaves| <= Pow2(depth)
    ensures |p| == Pow2(depth) && p[..|leaves|] == leaves
  {
    leaves + Repeat(h.zero, Pow2(depth) - |leaves|)
  }

  /** `layer` holds the reference nodes of level l, left to right. */
  ghost predicate LayerOk(h: Hasher, padded: seq<Hash>, layer: seq<Hash>, l: nat)
  {
    forall i {:trigger layer[i]} | 0 <= i < |layer| :: layer[i] == Subtree(h, padded, l, i)
  }

  lemma {:induction false} StartOfPow2(m: nat, k: nat)
    ensures Start(Pow2(m), k) == Pow2(m + k)
    decreases k
  {
    if k == 0 {
    } else {
      assert 2 * Pow2(m) == Pow2(m + 1);
      StartOfPow2(m + 1, k - 1);
    }
  }

  /** In a tree without gaps every node below the root level has two children. */
  lemma FullUnfold(h: Hasher, padded: seq<Hash>, depth: nat, l: nat, i: nat)
    requires |padded| == Pow2(depth) && l < depth && i < Pow2(depth - l - 1)
    ensures Subtree(h, padded, l + 1, i)
         == h.pair(Subtree(h, padded, l, 2 * i), Subtree(h, padded, l, 2 * i + 1))
  {
    StartOfPow2(depth - l - 1, l + 1);
    StartMono(i + 1, Pow2(depth - l - 1), l + 1);
    StartSucc(i, l + 1);
    SubtreeUnfold(h, padded, l + 1, i);
  }

  datatype PathSibling = PathSibling(hash: Hash, isRight: bool)

  /** The sibling list that belongs to leaf k: true hashes, sides from the index bits. */
  ghost predicate PathOk(h: Hasher, padded: seq<Hash>, depth: nat, k: nat, path: seq<PathSibling>)
  {
    && |path| <= depth
    && forall l {:trigger path[l]} | 0 <= l < |path| ::
         && path[l].hash == Subtree(h, padded, l, Beside(Shr(k, l)))
         && (path[l].isRight <==> Shr(k, l) % 2 == 0)
  }

  /** Climbing from a leaf along a sibling list, as the path's own `compute_root` does. */
  function Climb(h: Hasher, leaf: Hash, path: seq<PathSibling>, level: nat): Hash
    requires level <= |path|
  {
    if level == 0 then leaf
    else
      var s := path[level - 1];
      Up(h, Climb(h, leaf, path, level - 1), s.hash, if s.isRight then 0 else 1)
  }

  /** Climbing a correct path from leaf k passes through the reference nodes above it. */
  lemma {:induction false} ClimbIsSubtree(h: Hasher, padded: seq<Hash>, depth: nat, k: nat,
                                          path: seq<PathSibling>, level: nat)
    requires k < |padded| && PathOk(h, padded, depth, k, path) && level <= |path|
    ensures Climb(h, padded[k], path, level) == Subtree(h, padded, level, Shr(k, level))
  {
    if level == 0 {
      assert Start(k, 0) == k;
    } else {
      ClimbIsSubtree(h, padded, depth, k, path, level - 1);
      ParentStep(h, padded, k, level);
      assert path[level - 1].hash == Subtree(h, padded, level - 1, Beside(Shr(k, level - 1)));
    }
  }

  method ComputeRoot(h: Hasher, leaf: Hash, path: seq<PathSibling>) returns (current: Hash)
    ensures current == Climb(h, leaf, path, |path|)
  {
    current := leaf;
    for l := 0 to |path|
      invariant current == Climb(h, leaf, path, l)
    {
      var sibling := path[l];
      if sibling.isRight {
        current := h.pair(current, sibling.hash);
      } else {
        current := h.pair(sibling.hash, current);
      }
    }
  }

  /** One pass over a layer: the layer above it. */
  method HashLayer(h: Hasher, prev: seq<Hash>, ghost padded: seq<Hash>, ghost depth: nat, ghost l: nat)
    returns (next: seq<Hash>)
    requires |padded| == Pow2(depth) && l < depth && |prev| == Pow2(depth - l)
    requires LayerOk(h, padded, prev, l)
    ensures |next| == Pow2(depth - l - 1) && LayerOk(h, padded, next, l + 1)
  {
    next := [];
    var i := 0;
    while i < |prev|
      invariant 0 <= i <= |prev| && i == 2 * |next|
      invariant LayerOk(h, padded, next, l + 1)
    {
      FullUnfold(h, padded, depth, l, |next|);
      next := next + [h.pair(prev[i], prev[i + 1])];
      i := i + 2;
    }
  }

  class MerkleTree {
    const h: Hasher
    const leaves: seq<Hash>
    const depth: nat
    var layers: seq<seq<Hash>>
    var root: Hash

    /** Layer l is level l of the reference tree over the padded leaves, up to the root. */
    ghost predicate Valid()
      reads this
    {
      && 0 < |leaves| <= Pow2(depth)
      && |layers| == depth + 1
      && (forall l {:trigger layers[l]} | 0 <= l <= depth ::
            |layers[l]| == Pow2(depth - l) && LayerOk(h, Padded(h, leaves, depth), layers[l], l))
      && root == TreeRoot(h, depth, Padded(h, leaves, depth))
    }

    constructor (h: Hasher, leaves: seq<Hash>, depth: nat)
      requires 0 < |leaves| <= Pow2(depth)
      ensures Valid() && this.h == h && this.leaves == leaves && this.depth == depth
    {
      this.h, this.leaves, this.depth := h, leaves, depth;
      layers, root := [], h.zero;
      new;
      var padded := Padded(h, leaves, depth);
      forall i | 0 <= i < |padded| ensures padded[i] == Subtree(h, padded, 0, i) {
        assert Start(i, 0) == i;
      }
      layers := [padded];
      while |layers[|layers| - 1]| > 1
        invariant 1 <= |layers| <= depth + 1
        invariant forall l {:trigger layers[l]} | 0 <= l < |layers| ::
          |layers[l]| == Pow2(depth - l) && LayerOk(h, padded, layers[l], l)
        decreases depth + 1 - |layers|
      {
        var next := HashLayer(h, layers[|layers| - 1], padded, depth, |layers| - 1);
        layers := layers + [next];
      }
      assert |layers| == depth + 1;
      root := layers[|layers| - 1][0];
      SubtreeIsRoot(h, padded, depth);
    }

    /** The path of an enrolled leaf; any other index is refused. */
    method GetPath(leafIndex: int) returns (r: Result<seq<PathSibling>>)
      requires Valid()
      ensures r.Ok? <==> 0 <= leafIndex < |leaves|
      ensures r.Ok? ==> |r.value| == depth && PathOk(h, Padded(h, leaves, depth), depth, leafIndex, r.value)
    {
      if leafIndex < 0 || leafIndex >= |leaves| {
        return Err("Invalid leaf index");
      }
      var siblings: seq<PathSibling> := [];
      var idx: nat := leafIndex;
      for l := 0 to depth
        invariant |siblings| == l && idx == Shr(leafIndex, l)
        invariant PathOk(h, Padded(h, leaves, depth), depth, leafIndex, siblings)
      {
        NodeInLayer(leafIndex, depth, l);
        var layer := layers[l];
        if idx % 2 == 0 {
          siblings := siblings + [PathSibling(layer[idx + 1], true)];
        } else {
          siblings := siblings + [PathSibling(layer[idx - 1], false)];
        }
        idx := idx / 2;
      }
      return Ok(siblings);
    }

    /** The builder's check of every path it writes out: it never finds a mismatch. */
    method VerifyPaths() returns (ok: bool)
      requires Valid()
      ensures ok
    {
      ok := true;
      for i := 0 to |leaves|
        invariant ok
      {
        var path := GetPath(i);
        var computed := ComputeRoot(h, leaves[i], path.value);
        var padded := Padded(h, leaves, depth);
        assert padded[i] == padded[..|leaves|][i];
        ClimbIsSubtree(h, padded, depth, i, path.value, depth);
        ShrZero(i, depth);
        SubtreeIsRoot(h, padded, depth);
        ok := ok && computed == root;
      }
    }
  }

  /** Building a tree; no leaves, or more than fit, is refused. */
  method Build(h: Hasher, leaves: seq<Hash>, depth: nat) returns (r: Result<MerkleTree>)
    ensures r.Ok? <==> 0 < |leaves| <= Pow2(depth)
    ensures r.Ok? ==> r.value.Valid() && r.value.h == h && r.value.leaves == leaves && r.value.depth == depth
  {
    if leaves == [] {
      return Err("Cannot build empty tree");
    }
    if |leaves| > Pow2(depth) {
      return Err("Too many leaves");
    }
    var tree := new MerkleTree(h, leaves, depth);
    return Ok(tree);
  }

  /** Both children of a node on a leaf's path lie inside their layer. */
  lemma {:induction false} NodeInLayer(k: nat, depth: nat, l: nat)
    requires k < Pow2(depth) && l < depth
    ensures Shr(k, l) < Pow2(depth - l) && Beside(Shr(k, l)) < Pow2(depth - l)
  {
    var half := Pow2(depth - l - 1);
    assert Pow2(depth - l) == 2 * half;
    if l == 0 {
      assert Shr(k, 0) == k;
    } else {
      NodeInLayer(k, depth, l - 1);
      assert Pow2(depth - l + 1) == 2 * Pow2(depth - l);
      assert Shr(k, l) == Shr(k, l - 1) / 2;
    }
    hide Pow2, Shr;
    BesideBelow(Shr(k, l), half);
  }

  lemma BesideBelow(i: nat, half: nat)
    requires i < 2 * half
    ensures Beside(i) < 2 * half
  {
  }

  /** The bits the builder writes (1: sibling on the right) are the complement of the server's. */
  lemma BatchBitsComplementServerBits(h: Hasher, padded: seq<Hash>, depth: nat, k: nat, path: seq<PathSibling>, l: nat)
    requires PathOk(h, padded, depth, k, path) && l < |path| == depth
    ensures (if path[l].isRight then 1 else 0) + PathBits(k, depth)[l] == 1
  {
    PathBitsEntry(k, depth, l);
  }

  // ---------------------------------------------------------------------------------------
  // Batch root against incremental root
  // ---------------------------------------------------------------------------------------

  /** What the batch builder computes for a subtree of height l that holds only padding. */
  function ZeroAt(h: Hasher, l: nat): Hash
  {
    if l == 0 then h.zero else h.pair(ZeroAt(h, l - 1), ZeroAt(h, l - 1))
  }

  ghost predicate ZeroKept(h: Hasher, l: nat) { ZeroAt(h, l) == h.zero }

  /**
   The padding is harmless for n leaves: at each zero bit of n - 1, where the last leaf's path has
   an empty right sibling, hashing the padding gives the zero hash back.
   */
  ghost predicate PaddingHarmless(h: Hasher, n: nat, depth: nat)
    requires n > 0
  {
    forall l {:trigger ZeroKept(h, l)} | 0 <= l < depth && Shr(n - 1, l) % 2 == 0 :: ZeroKept(h, l)
  }

  lemma {:induction false} PaddingSubtree(h: Hasher, leaves: seq<Hash>, depth: nat, l: nat, lo: nat)
    requires |leaves| <= lo && lo + Pow2(l) <= Pow2(depth)
    ensures TreeAt(h, Padded(h, leaves, depth), l, lo) == ZeroAt(h, l)
  {
    if l == 0 {
      RepeatAt(h.zero, Pow2(depth) - |leaves|, lo - |leaves|);
    } else {
      PaddingSubtree(h, leaves, depth, l - 1, lo);
      PaddingSubtree(h, leaves, depth, l - 1, lo + Pow2(l - 1));
    }
  }

  /** The two trees' siblings along the last leaf's path: equal on the left, zero against padding on the right. */
  lemma SiblingsOfLastPath(h: Hasher, leaves: seq<Hash>, depth: nat, l: nat)
    requires 0 < |leaves| <= Pow2(depth) && l < depth
    ensures var i := Shr(|leaves| - 1, l);
      var sparse := Subtree(h, leaves, l, Beside(i));
      var full := Subtree(h, Padded(h, leaves, depth), l, Beside(i));
      if i % 2 == 1 then sparse == full else sparse == h.zero && full == ZeroAt(h, l)
  {
    var k := |leaves| - 1;
    var i := Shr(k, l);
    ShrBounds(k, l);
    NodeInLayer(k, depth, l);
    if i % 2 == 1 {
      SubtreeStable(h, leaves, Repeat(h.zero, Pow2(depth) - |leaves|), l, i - 1);
    } else {
      StartOfPow2(depth - l, l);
      StartSucc(i + 1, l);
      StartMono(i + 2, Pow2(depth - l), l);
      PaddingSubtree(h, leaves, depth, l, Start(i + 1, l));
    }
  }

  lemma {:induction false} HarmlessPaddingAgrees(h: Hasher, leaves: seq<Hash>, depth: nat, level: nat)
    requires 0 < |leaves| <= Pow2(depth) && level <= depth
    requires PaddingHarmless(h, |leaves|, depth)
    ensures var k := |leaves| - 1;
      Subtree(h, leaves, level, Shr(k, level)) == Subtree(h, Padded(h, leaves, depth), level, Shr(k, level))
  {
    var k, padded := |leaves| - 1, Padded(h, leaves, depth);
    if level == 0 {
      assert Start(k, 0) == k && padded[..|leaves|][k] == leaves[k];
    } else {
      HarmlessPaddingAgrees(h, leaves, depth, level - 1);
      SiblingsOfLastPath(h, leaves, depth, level - 1);
      ParentStep(h, leaves, k, level);
      ParentStep(h, padded, k, level);
      assert Shr(k, level - 1) % 2 == 0 ==> ZeroKept(h, level - 1);
    }
  }

  lemma {:induction false} AgreementNeedsHarmlessPadding(h: Hasher, leaves: seq<Hash>, depth: nat, level: nat)
    returns (a: Hash, b: Hash, c: Hash, d: Hash)
    requires 0 < |leaves| <= Pow2(depth) && level <= depth
    requires var k := |leaves| - 1;
      Subtree(h, leaves, level, Shr(k, level)) == Subtree(h, Padded(h, leaves, depth), level, Shr(k, level))
    ensures PaddingHarmless(h, |leaves|, level) || ((a != c || b != d) && h.pair(a, b) == h.pair(c, d))
  {
    var k, padded := |leaves| - 1, Padded(h, leaves, depth);
    a, b, c, d := h.zero, h.zero, h.zero, h.zero;
    if level == 0 {
    } else {
      SiblingsOfLastPath(h, leaves, depth, level - 1);
      ParentStep(h, leaves, k, level);
      ParentStep(h, padded, k, level);
      var i := Shr(k, level - 1);
      var x, y := Subtree(h, leaves, level - 1, i), Subtree(h, padded, level - 1, i);
      var s, t := Subtree(h, leaves, level - 1, Beside(i)), Subtree(h, padded, level - 1, Beside(i));
      if x == y && s == t {
        a, b, c, d := AgreementNeedsHarmlessPadding(h, leaves, depth, level - 1);
      } else if i % 2 == 1 {
        a, b, c, d := s, x, t, y;
      } else {
        a, b, c, d := x, s, y, t;
      }
    }
  }

  /**
   Batch root and incremental root of the same leaves agree exactly when the padding is harmless,
   unless the agreement exhibits two inputs of the pair hash with the same output.
   */
  lemma BatchAgreesIffPaddingHarmless(h: Hasher, leaves: seq<Hash>, depth: nat)
    returns (a: Hash, b: Hash, c: Hash, d: Hash)
    requires 0 < |leaves| <= Pow2(depth)
    ensures PaddingHarmless(h, |leaves|, depth)
      ==> TreeRoot(h, depth, leaves) == TreeRoot(h, depth, Padded(h, leaves, depth))
    ensures TreeRoot(h, depth, leaves) == TreeRoot(h, depth, Padded(h, leaves, depth)) ==>
      (PaddingHarmless(h, |leaves|, depth) || ((a != c || b != d) && h.pair(a, b) == h.pair(c, d)))
  {
    ShrZero(|leaves| - 1, depth);
    SubtreeIsRoot(h, leaves, depth);
    SubtreeIsRoot(h, Padded(h, leaves, depth), depth);
    a, b, c, d := h.zero, h.zero, h.zero, h.zero;
    if PaddingHarmless(h, |leaves|, depth) {
      HarmlessPaddingAgrees(h, leaves, depth, depth);
    } else if TreeRoot(h, depth, leaves) == TreeRoot(h, depth, Padded(h, leaves, depth)) {
      a, b, c, d := AgreementNeedsHarmlessPadding(h, leaves, depth, depth);
    }
  }

  lemma {:induction false} ZeroFixed(h: Hasher, l: nat)
    requires h.pair(h.zero, h.zero) == h.zero
    ensures ZeroAt(h, l) == h.zero
  {
    if l == 0 {
    } else {
      ZeroFixed(h, l - 1);
    }
  }

  /** Two callers' conditions under which the padding is harmless: a zero-preserving hash, or a full tree. */
  lemma WhenPaddingIsHarmless(h: Hasher, n: nat, depth: nat)
    requires n > 0
    requires h.pair(h.zero, h.zero) == h.zero || n == Pow2(depth)
    ensures PaddingHarmless(h, n, depth)
  {
    forall l {:trigger ZeroKept(h, l)} | 0 <= l < depth && Shr(n - 1, l) % 2 == 0 ensures ZeroKept(h, l) {
      if h.pair(h.zero, h.zero) == h.zero {
        ZeroFixed(h, l);
      } else {
        ShrAllOnes(depth, l);
        assert false;
      }
    }
  }
}
