/**
 The Poseidon2 permutation of width 16 over a prime field: the array code against round functions on
 values, and their injectivity.
 */
module Poseidon {
  import opened Modular
  import opened Euclid
  import opened Fermat
  import opened FieldOrder

  const FULL_ROUNDS_BEGIN: nat := 4
  const PARTIAL_ROUNDS: nat := 14

  /** Sixteen reduced residues. */
  ghost predicate State(p: int, s: seq<int>)
  {
    |s| == 16 && forall i {:trigger s[i]} :: 0 <= i < 16 ==> 0 <= s[i] < p
  }

  // ---------------------------------------------------------------------------------------
  // The layers as functions
  // ---------------------------------------------------------------------------------------

  function Sbox(p: int, x: int): (y: int)
    requires p > 0
    ensures 0 <= y < p
  {
    var x2 := x * x % p;
    var x4 := x2 * x2 % p;
    x4 * x % p
  }

  function AddConstants(p: int, s: seq<int>, rc: seq<int>): (t: seq<int>)
    requires p > 0 && |s| == |rc| == 16
    ensures State(p, t)
  {
    seq(16, i requires 0 <= i < 16 => (s[i] + rc[i]) % p)
  }

  function SboxAll(p: int, s: seq<int>): (t: seq<int>)
    requires p > 0 && |s| == 16
    ensures State(p, t)
  {
    seq(16, i requires 0 <= i < 16 => Sbox(p, s[i]))
  }

  /** Entry (i, j) of circ(2, 3, 1, 1). */
  function M4(i: nat, j: nat): int
    requires i < 4 && j < 4
  {
    if i == j then 2 else if j == i + 1 || (i == 3 && j == 0) then 3 else 1
  }

  /** Entry (i, j) of the external matrix: four copies of M4 down the diagonal. */
  function Mds(i: nat, j: nat): int
  {
    if i / 4 == j / 4 then M4(i % 4, j % 4) else 0
  }

  /** Row i of M4 applied to four values. */
  function Mix(i: nat, a: int, b: int, c: int, d: int): int
    requires i < 4
  {
    M4(i, 0) * a + M4(i, 1) * b + M4(i, 2) * c + M4(i, 3) * d
  }

  function External(p: int, s: seq<int>): (t: seq<int>)
    requires p > 0 && |s| == 16
    ensures State(p, t)
  {
    seq(16, i requires 0 <= i < 16 => var b := i / 4 * 4; Mix(i % 4, s[b], s[b + 1], s[b + 2], s[b + 3]) % p)
  }

  function Total(s: seq<int>, k: nat): int
    requires k <= |s|
  {
    if k == 0 then 0 else Total(s, k - 1) + s[k - 1]
  }

  function Scaled(p: int, s: seq<int>, sum: int): (t: seq<int>)
    requires p > 0 && |s| == 16
    ensures State(p, t)
  {
    seq(16, i requires 0 <= i < 16 => (s[i] * (i + 1) + sum) % p)
  }

  function Internal(p: int, s: seq<int>): (t: seq<int>)
    requires p > 0 && |s| == 16
    ensures State(p, t)
  {
    Scaled(p, s, Total(s, 16))
  }

  function FullRound(p: int, s: seq<int>, rc: seq<int>): (t: seq<int>)
    requires p > 0 && |s| == |rc| == 16
    ensures State(p, t)
  {
    External(p, SboxAll(p, AddConstants(p, s, rc)))
  }

  function PartialRound(p: int, s: seq<int>, rc: seq<int>): (t: seq<int>)
    requires p > 0 && |s| == |rc| == 16
    ensures State(p, t)
  {
    var a := AddConstants(p, s, rc);
    Internal(p, a[0 := Sbox(p, a[0])])
  }

  ghost predicate Constants(rcs: seq<seq<int>>)
  {
    |rcs| == 22 && forall k {:trigger rcs[k]} :: 0 <= k < 22 ==> |rcs[k]| == 16
  }

  /** The state after k rounds: four full, fourteen partial, four full. */
  function Rounds(p: int, s: seq<int>, rcs: seq<seq<int>>, k: nat): (t: seq<int>)
    requires p > 0 && State(p, s) && Constants(rcs) && k <= 22
    ensures State(p, t)
  {
    if k == 0 then s
    else
      var prev := Rounds(p, s, rcs, k - 1);
      if 4 < k <= 18 then PartialRound(p, prev, rcs[k - 1]) else FullRound(p, prev, rcs[k - 1])
  }

  function Permutation(p: int, s: seq<int>, rcs: seq<seq<int>>): (t: seq<int>)
    requires p > 0 && State(p, s) && Constants(rcs)
    ensures State(p, t)
  {
    Rounds(p, s, rcs, 22)
  }

  // ---------------------------------------------------------------------------------------
  // The array code
  // ---------------------------------------------------------------------------------------

  lemma RowsAreM4(m4: seq<seq<int>>)
    requires m4 == [[2, 3, 1, 1], [1, 2, 3, 1], [1, 1, 2, 3], [3, 1, 1, 2]]
    ensures |m4| == 4 && forall i {:trigger m4[i]} :: 0 <= i < 4 ==> |m4[i]| == 4
    ensures forall i, j {:trigger m4[i][j]} :: 0 <= i < 4 && 0 <= j < 4 ==> m4[i][j] == M4(i, j)
  {
  }

  method MdsMatrix() returns (matrix: array2<int>)
    ensures fresh(matrix) && matrix.Length0 == 16 && matrix.Length1 == 16
    ensures forall i, j {:trigger matrix[i, j]} :: 0 <= i < 16 && 0 <= j < 16 ==> matrix[i, j] == Mds(i, j)
  {
    hide M4;
    var m4 := [[2, 3, 1, 1], [1, 2, 3, 1], [1, 1, 2, 3], [3, 1, 1, 2]];
    RowsAreM4(m4);
    matrix := new int[16, 16]((i, j) => 0);
    for block := 0 to 4
      invariant forall i, j {:trigger matrix[i, j]} :: 0 <= i < 16 && 0 <= j < 16 ==>
        matrix[i, j] == if i < 4 * block then Mds(i, j) else 0
    {
      for i := 0 to 4
        invariant forall a, j {:trigger matrix[a, j]} :: 0 <= a < 16 && 0 <= j < 16 ==>
          matrix[a, j] == if a < 4 * block + i then Mds(a, j) else 0
      {
        for j := 0 to 4
          invariant forall a, b {:trigger matrix[a, b]} :: 0 <= a < 16 && 0 <= b < 16 ==>
            matrix[a, b] == if a < 4 * block + i || (a == 4 * block + i && b < 4 * block + j) then Mds(a, b) else 0
        {
          matrix[block * 4 + i, block * 4 + j] := m4[i][j];
        }
      }
    }
  }

  /** Sum of the products along row i, first k columns. */
  function RowSum(i: nat, s: seq<int>, k: nat): int
    requires k <= |s|
  {
    if k == 0 then 0 else RowSum(i, s, k - 1) + Mds(i, k - 1) * s[k - 1]
  }

  /** `acc += m * x` in the field */
  function MulAdd(p: int, acc: int, m: int, x: int): int
    requires p > 0
  {
    (acc + m * x) % p
  }

  lemma RowStep(p: int, i: nat, s: seq<int>, j: nat)
    requires p > 0 && j < |s|
    ensures MulAdd(p, RowSum(i, s, j) % p, Mds(i, j), s[j]) == RowSum(i, s, j + 1) % p
  {
    hide Mds;
    AddReduced(p, RowSum(i, s, j), Mds(i, j) * s[j]);
  }

  ghost predicate RowsDone(p: int, s: seq<int>, r: array<int>, n: nat)
    requires p > 0 && |s| == 16
    reads r
  {
    r.Length == 16 && forall a {:trigger r[a]} :: 0 <= a < 16 && a < n ==> r[a] == RowSum(a, s, 16) % p
  }

  method ExternalRow(p: int, matrix: array2<int>, state: array<int>, i: nat, result: array<int>)
    requires p > 0 && i < 16 && state.Length == result.Length == 16 && state != result
    requires matrix.Length0 == 16 && matrix.Length1 == 16
    requires forall j {:trigger matrix[i, j]} :: 0 <= j < 16 ==> matrix[i, j] == Mds(i, j)
    requires result[i] == 0
    modifies result
    ensures result[i] == RowSum(i, state[..], 16) % p
    ensures forall a {:trigger result[a]} :: 0 <= a < 16 && a != i ==> result[a] == old(result[a])
  {
    hide Mds, MulAdd;
    ghost var s := state[..];
    ModZero(p);
    for j := 0 to 16
      invariant state[..] == s && result[i] == RowSum(i, s, j) % p
      invariant forall a {:trigger result[a]} :: 0 <= a < 16 && a != i ==> result[a] == old(result[a])
    {
      RowStep(p, i, s, j);
      result[i] := MulAdd(p, result[i], matrix[i, j], state[j]);
    }
  }

  method ExternalMatrixMult(p: int, state: array<int>)
    requires p > 0 && state.Length == 16
    modifies state
    ensures state[..] == External(p, old(state[..]))
  {
    hide Mds, External, RowSum;
    var matrix := MdsMatrix();
    ghost var s := state[..];
    var result := new int[16](i => 0);
    for i := 0 to 16
      invariant state[..] == s && RowsDone(p, s, result, i)
      invariant forall a {:trigger result[a]} :: i <= a < 16 ==> result[a] == 0
      invariant forall a, j {:trigger matrix[a, j]} :: 0 <= a < 16 && 0 <= j < 16 ==> matrix[a, j] == Mds(a, j)
    {
      ExternalRow(p, matrix, state, i, result);
    }
    forall i | 0 <= i < 16 {
      state[i] := result[i];
    }
    forall i | 0 <= i < 16 ensures state[..][i] == External(p, s)[i] {
      ExternalEntry(p, s, i);
    }
  }

  lemma ModZero(p: int)
    requires p > 0
    ensures 0 % p == 0
  {
  }

  lemma AddReduced(p: int, a: int, b: int)
    requires p > 0
    ensures (a % p + b) % p == (a + b) % p
  {
    CongMod(p, a);
    CongAdd(p, a % p, a, b, b);
  }

  /** A row of the block matrix meets only its own block. */
  lemma {:induction false} RowSumIs(i: nat, s: seq<int>, k: nat)
    requires i < 16 && |s| == 16 && k <= 16
    ensures var b := i / 4 * 4;
            RowSum(i, s, k) == (if k > b then M4(i % 4, 0) * s[b] else 0)
              + (if k > b + 1 then M4(i % 4, 1) * s[b + 1] else 0)
                               + (if k > b + 2 then M4(i % 4, 2) * s[b + 2] else 0)
                                 + (if k > b + 3 then M4(i % 4, 3) * s[b + 3] else 0)
  {
    hide M4;
    if k == 0 {
    } else {
      RowSumIs(i, s, k - 1);
      assert 0 * s[k - 1] == 0;
    }
  }

  lemma ExternalEntry(p: int, s: seq<int>, i: nat)
    requires p > 0 && |s| == 16 && i < 16
    ensures External(p, s)[i] == RowSum(i, s, 16) % p
  {
    RowSumIs(i, s, 16);
    hide M4, RowSum;
  }

  method InternalMatrixMult(p: int, state: array<int>)
    requires p > 0 && state.Length == 16
    modifies state
    ensures state[..] == Internal(p, old(state[..]))
  {
    hide Internal, MulAdd, TotalMod;
    ghost var s := state[..];
    var sum := 0;
    TotalStart(p, s);
    for i := 0 to 16
      invariant state[..] == s && sum == TotalMod(p, s, i)
    {
      TotalStep(p, s, i);
      sum := MulAdd(p, sum, 1, state[i]);
    }
    for i := 0 to 16
      invariant forall a {:trigger state[a]} :: 0 <= a < 16 ==> state[a] == if a < i then Internal(p, s)[a] else s[a]
    {
      InternalEntry(p, s, i);
      state[i] := MulAdd(p, sum, state[i], i + 1);
    }
  }

  function TotalMod(p: int, s: seq<int>, k: nat): int
    requires p > 0 && k <= |s|
  {
    Total(s, k) % p
  }

  lemma InternalEntry(p: int, s: seq<int>, i: nat)
    requires p > 0 && |s| == 16 && i < 16
    ensures MulAdd(p, TotalMod(p, s, 16), s[i], i + 1) == Internal(p, s)[i] == (s[i] * (i + 1) + Total(s, 16)) % p
  {
    hide Total, MulAdd, Scaled;
    SwappedSum(p, Total(s, 16), s[i], i + 1);
    ScaledEntry(p, s, Total(s, 16), i);
  }

  lemma ScaledEntry(p: int, s: seq<int>, sum: int, i: nat)
    requires p > 0 && |s| == 16 && i < 16
    ensures Scaled(p, s, sum)[i] == (s[i] * (i + 1) + sum) % p
  {
  }

  lemma SwappedSum(p: int, t: int, x: int, k: int)
    requires p > 0
    ensures MulAdd(p, t % p, x, k) == (x * k + t) % p
  {
    AddReduced(p, t, x * k);
  }

  lemma TotalStart(p: int, s: seq<int>)
    requires p > 0
    ensures TotalMod(p, s, 0) == 0
  {
    ModZero(p);
  }

  lemma TotalStep(p: int, s: seq<int>, k: nat)
    requires p > 0 && k < |s|
    ensures MulAdd(p, TotalMod(p, s, k), 1, s[k]) == TotalMod(p, s, k + 1)
  {
    AddReduced(p, Total(s, k), s[k]);
  }

  method AddRoundConstants(p: int, state: array<int>, rc: seq<int>)
    requires p > 0 && state.Length == |rc| == 16
    modifies state
    ensures state[..] == AddConstants(p, old(state[..]), rc)
  {
    ghost var s := state[..];
    for i := 0 to 16
      invariant forall a {:trigger state[a]} :: 0 <= a < 16 ==> state[a] == if a < i then (s[a] + rc[a]) % p else s[a]
    {
      state[i] := (state[i] + rc[i]) % p;
    }
  }

  /** `full_round` */
  method FullRoundInPlace(p: int, state: array<int>, rc: seq<int>)
    requires p > 0 && state.Length == |rc| == 16
    modifies state
    ensures state[..] == FullRound(p, old(state[..]), rc) && FullLaw(p, old(state[..]), rc, state[..])
  {
    FullRoundLaw(p, state[..], rc);
    hide Sbox, External, AddConstants, FullLaw;
    AddRoundConstants(p, state, rc);
    ghost var a := state[..];
    for i := 0 to 16
      invariant forall j {:trigger state[j]} :: 0 <= j < 16 ==> state[j] == if j < i then Sbox(p, a[j]) else a[j]
    {
      state[i] := Sbox(p, state[i]);
    }
    assert state[..] == SboxAll(p, a);
    ExternalMatrixMult(p, state);
  }

  /** `partial_round` */
  method PartialRoundInPlace(p: int, state: array<int>, rc: seq<int>)
    requires p > 0 && state.Length == |rc| == 16
    modifies state
    ensures state[..] == PartialRound(p, old(state[..]), rc) && PartialLaw(p, old(state[..]), rc, state[..])
  {
    PartialRoundLaw(p, state[..], rc);
    hide Sbox, Internal, AddConstants, PartialLaw;
    AddRoundConstants(p, state, rc);
    ghost var a := state[..];
    state[0] := Sbox(p, state[0]);
    assert state[..] == a[0 := Sbox(p, a[0])];
    InternalMatrixMult(p, state);
  }

  /** `poseidon2_permutation`, the round constants given. */
  method Permute(p: int, state: array<int>, rcs: seq<seq<int>>)
    requires p > 0 && state.Length == 16 && State(p, state[..]) && Constants(rcs)
    modifies state
    ensures state[..] == Permutation(p, old(state[..]), rcs) && Linked(p, old(state[..]), rcs, state[..])
  {
    hide FullRound, PartialRound, Linked, FullLaw, PartialLaw;
    ghost var s := state[..];
    PermutationIsChain(p, s, rcs, Permutation(p, s, rcs));
    var round := 0;
    for k := 0 to FULL_ROUNDS_BEGIN
      invariant round == k && state[..] == Rounds(p, s, rcs, round)
    {
      FullRoundInPlace(p, state, rcs[round]);
      round := round + 1;
    }
    for k := 0 to PARTIAL_ROUNDS
      invariant round == 4 + k && state[..] == Rounds(p, s, rcs, round)
    {
      PartialRoundInPlace(p, state, rcs[round]);
      round := round + 1;
    }
    for k := 0 to FULL_ROUNDS_BEGIN
      invariant round == 18 + k && state[..] == Rounds(p, s, rcs, round)
    {
      FullRoundInPlace(p, state, rcs[round]);
      round := round + 1;
    }
  }

  // ---------------------------------------------------------------------------------------
  // What a round and the schedule compute
  // ---------------------------------------------------------------------------------------

  /** The external matrix is circulant in each block: its first row, turned by one place a row. */
  lemma MdsIsCirculant(i: nat, j: nat)
    requires i < 16 && j < 16
    ensures Mds(i, j) == if i / 4 == j / 4 then [2, 3, 1, 1][(j - i) % 4] else 0
  {
    if i / 4 == j / 4 {
      SameBlock(i % 4, j % 4);
      assert j - i == j % 4 - i % 4;
    }
  }

  lemma SameBlock(i: nat, j: nat)
    requires i < 4 && j < 4
    ensures M4(i, j) == [2, 3, 1, 1][(j - i) % 4]
  {
  }

  /** Row i of the external matrix against fifth powers of the first k entries, constants added; no reduction. */
  function FullSum(s: seq<int>, rc: seq<int>, i: nat, k: nat): int
    requires k <= |s| && k <= |rc|
  {
    if k == 0 then 0 else FullSum(s, rc, i, k - 1) + Mds(i, k - 1) * Pow(s[k - 1] + rc[k - 1], 5)
  }

  /** Entry j before the internal matrix: only the first one is raised to the fifth power. */
  function PartialEntry(s: seq<int>, rc: seq<int>, j: nat): int
    requires j < |s| && j < |rc|
  {
    if j == 0 then Pow(s[0] + rc[0], 5) else s[j] + rc[j]
  }

  function PartialSum(s: seq<int>, rc: seq<int>, k: nat): int
    requires k <= |s| && k <= |rc|
  {
    if k == 0 then 0 else PartialSum(s, rc, k - 1) + PartialEntry(s, rc, k - 1)
  }

  /** t is what a full round makes of s. */
  ghost predicate FullLaw(p: int, s: seq<int>, rc: seq<int>, t: seq<int>)
    requires p > 0 && |s| == |rc| == |t| == 16
  {
    forall i {:trigger t[i]} :: 0 <= i < 16 ==> Cong(p, t[i], FullSum(s, rc, i, 16))
  }

  /** t is what a partial round makes of s. */
  ghost predicate PartialLaw(p: int, s: seq<int>, rc: seq<int>, t: seq<int>)
    requires p > 0 && |s| == |rc| == |t| == 16
  {
    forall i {:trigger t[i]} :: 0 <= i < 16 ==>
      Cong(p, t[i], (i + 1) * PartialEntry(s, rc, i) + PartialSum(s, rc, 16))
  }

  lemma SboxOfSum(p: int, s: seq<int>, rc: seq<int>, j: nat)
    requires p > 0 && |s| == |rc| == 16 && j < 16
    ensures Cong(p, Sbox(p, AddConstants(p, s, rc)[j]), Pow(s[j] + rc[j], 5))
  {
    var x := s[j] + rc[j];
    assert AddConstants(p, s, rc)[j] == x % p;
    hide Sbox, Pow;
    SboxIsFifthPower(p, x % p);
    CongMod(p, x);
    CongPow(p, x % p, x, 5);
    CongTransitive(p, Sbox(p, x % p), Pow(x % p, 5), Pow(x, 5));
  }

  lemma {:induction false} FullSumIs(p: int, s: seq<int>, rc: seq<int>, i: nat, k: nat)
    requires p > 0 && |s| == |rc| == 16 && k <= 16
    ensures Cong(p, RowSum(i, SboxAll(p, AddConstants(p, s, rc)), k), FullSum(s, rc, i, k))
  {
    var u := SboxAll(p, AddConstants(p, s, rc));
    hide Mds, Pow, Sbox, Cong, AddConstants;
    if k == 0 {
      CongIntro(p, 0, 0, 0);
    } else {
      FullSumIs(p, s, rc, i, k - 1);
      SboxOfSum(p, s, rc, k - 1);
      assert u[k - 1] == Sbox(p, AddConstants(p, s, rc)[k - 1]);
      hide SboxAll;
      CongScale(p, Mds(i, k - 1), u[k - 1], Pow(s[k - 1] + rc[k - 1], 5));
      CongAdd(p, RowSum(i, u, k - 1), FullSum(s, rc, i, k - 1),
        Mds(i, k - 1) * u[k - 1], Mds(i, k - 1) * Pow(s[k - 1] + rc[k - 1], 5));
    }
  }

  /** A full round: every entry raised to the fifth power after its constant is added, then the external matrix. */
  lemma FullRoundLaw(p: int, s: seq<int>, rc: seq<int>)
    requires p > 0 && |s| == |rc| == 16
    ensures FullLaw(p, s, rc, FullRound(p, s, rc))
  {
    var u := SboxAll(p, AddConstants(p, s, rc));
    hide SboxAll, AddConstants, External, RowSum, FullSum;
    forall i | 0 <= i < 16 ensures Cong(p, FullRound(p, s, rc)[i], FullSum(s, rc, i, 16)) {
      ExternalEntry(p, u, i);
      FullSumIs(p, s, rc, i, 16);
      CongMod(p, RowSum(i, u, 16));
    }
  }

  /** The state between the S-box and the internal matrix. */
  function Raised(p: int, s: seq<int>, rc: seq<int>): (u: seq<int>)
    requires p > 0 && |s| == |rc| == 16
    ensures |u| == 16
  {
    var a := AddConstants(p, s, rc);
    a[0 := Sbox(p, a[0])]
  }

  lemma RaisedEntry(p: int, s: seq<int>, rc: seq<int>, j: nat)
    requires p > 0 && |s| == |rc| == 16 && j < 16
    ensures Cong(p, Raised(p, s, rc)[j], PartialEntry(s, rc, j))
  {
    if j == 0 {
      hide AddConstants, Sbox, Pow, Cong;
      SboxOfSum(p, s, rc, 0);
    } else {
      hide Sbox;
      CongMod(p, s[j] + rc[j]);
    }
  }

  lemma {:induction false} PartialSumIs(p: int, s: seq<int>, rc: seq<int>, k: nat)
    requires p > 0 && |s| == |rc| == 16 && k <= 16
    ensures Cong(p, Total(Raised(p, s, rc), k), PartialSum(s, rc, k))
  {
    hide Raised, PartialEntry, Cong;
    if k == 0 {
      CongIntro(p, 0, 0, 0);
    } else {
      PartialSumIs(p, s, rc, k - 1);
      RaisedEntry(p, s, rc, k - 1);
      CongAdd(p, Total(Raised(p, s, rc), k - 1), PartialSum(s, rc, k - 1),
        Raised(p, s, rc)[k - 1], PartialEntry(s, rc, k - 1));
    }
  }

  /** A partial round: the first entry alone raised, then i + 1 times each entry plus the sum of all. */
  lemma PartialRoundLaw(p: int, s: seq<int>, rc: seq<int>)
    requires p > 0 && |s| == |rc| == 16
    ensures PartialLaw(p, s, rc, PartialRound(p, s, rc))
  {
    var u, t := Raised(p, s, rc), PartialRound(p, s, rc);
    assert t == Internal(p, u);
    hide Raised, AddConstants, Internal, Total, PartialSum, PartialEntry, MulAdd, PartialRound, Cong;
    PartialSumIs(p, s, rc, 16);
    forall i | 0 <= i < 16 ensures Cong(p, t[i], (i + 1) * PartialEntry(s, rc, i) + PartialSum(s, rc, 16)) {
      InternalEntry(p, u, i);
      RaisedEntry(p, s, rc, i);
      CongScale(p, i + 1, u[i], PartialEntry(s, rc, i));
      CongAdd(p, (i + 1) * u[i], (i + 1) * PartialEntry(s, rc, i), Total(u, 16), PartialSum(s, rc, 16));
      CongMod(p, u[i] * (i + 1) + Total(u, 16));
      CongTransitive(p, t[i], (i + 1) * u[i] + Total(u, 16), (i + 1) * PartialEntry(s, rc, i) + PartialSum(s, rc, 16));
    }
  }

  /** 23 states, each made from the one before by its round: full for the first and the last four. */
  ghost predicate Chain(p: int, states: seq<seq<int>>, rcs: seq<seq<int>>)
    requires p > 0 && Constants(rcs)
  {
    && |states| == 23
    && (forall k {:trigger states[k]} :: 0 <= k < 23 ==> State(p, states[k]))
    && forall k {:trigger rcs[k]} :: 0 <= k < 22 ==> RoundLaw(p, k, states[k], rcs[k], states[k + 1])
  }

  ghost predicate RoundLaw(p: int, k: nat, s: seq<int>, rc: seq<int>, t: seq<int>)
    requires p > 0 && |s| == |rc| == |t| == 16
  {
    if k < 4 || k >= 18 then FullLaw(p, s, rc, t) else PartialLaw(p, s, rc, t)
  }

  ghost predicate Linked(p: int, s: seq<int>, rcs: seq<seq<int>>, t: seq<int>)
    requires p > 0 && Constants(rcs)
  {
    exists states {:trigger Chain(p, states, rcs)} :: Chain(p, states, rcs) && states[0] == s && states[22] == t
  }

  lemma {:induction false} RoundsFollow(p: int, states: seq<seq<int>>, rcs: seq<seq<int>>, k: nat)
    requires p > 0 && Constants(rcs) && Chain(p, states, rcs) && k <= 22
    ensures states[k] == Rounds(p, states[0], rcs, k)
  {
    hide FullRound, PartialRound, FullLaw, PartialLaw;
    if k == 0 {
    } else {
      RoundsFollow(p, states, rcs, k - 1);
      assert RoundLaw(p, k - 1, states[k - 1], rcs[k - 1], states[k]);
      LawDetermines(p, states[k - 1], rcs[k - 1], states[k]);
    }
  }

  /** Reduced entries leave no choice. */
  lemma LawDetermines(p: int, s: seq<int>, rc: seq<int>, t: seq<int>)
    requires p > 0 && |s| == |rc| == 16 && State(p, t)
    ensures FullLaw(p, s, rc, t) ==> t == FullRound(p, s, rc)
    ensures PartialLaw(p, s, rc, t) ==> t == PartialRound(p, s, rc)
  {
    FullRoundLaw(p, s, rc);
    PartialRoundLaw(p, s, rc);
    hide FullRound, PartialRound, FullSum, PartialSum, PartialEntry;
    if FullLaw(p, s, rc, t) {
      SameResidues(p, t, FullRound(p, s, rc));
    }
    if PartialLaw(p, s, rc, t) {
      SameResidues(p, t, PartialRound(p, s, rc));
    }
  }

  lemma SameResidues(p: int, t: seq<int>, u: seq<int>)
    requires p > 0 && State(p, t) && State(p, u)
    requires forall i {:trigger t[i]} {:trigger u[i]} :: 0 <= i < 16 ==> Cong(p, t[i], u[i])
    ensures t == u
  {
    forall i | 0 <= i < 16 ensures t[i] == u[i] {
      Reduced(p, t[i], u[i]);
    }
  }

  /** The permutation of s is the end of the one chain of 22 rounds that starts at s. */
  lemma PermutationIsChain(p: int, s: seq<int>, rcs: seq<seq<int>>, t: seq<int>)
    requires p > 0 && State(p, s) && Constants(rcs)
    ensures t == Permutation(p, s, rcs) <==> Linked(p, s, rcs, t)
  {
    hide FullRound, PartialRound;
    if t == Permutation(p, s, rcs) {
      var states := seq(23, k requires 0 <= k < 23 => Rounds(p, s, rcs, k));
      forall k {:trigger rcs[k]} | 0 <= k < 22 ensures RoundLaw(p, k, states[k], rcs[k], states[k + 1]) {
        FullRoundLaw(p, states[k], rcs[k]);
        PartialRoundLaw(p, states[k], rcs[k]);
      }
      assert Chain(p, states, rcs) && states[0] == s && states[22] == t;
    }
    if Linked(p, s, rcs, t) {
      var states :| Chain(p, states, rcs) && states[0] == s && states[22] == t;
      RoundsFollow(p, states, rcs, 22);
    }
  }

  // ---------------------------------------------------------------------------------------
  // Injectivity
  // ---------------------------------------------------------------------------------------

  /**
   What the proof needs of the field: a prime for which fifth powers are injective, that divides neither
   the determinant of M4 nor that of the internal matrix, which is 3157279 up to factors below 17.
   */
  ghost predicate GoodPrime(p: int)
  {
    Prime(p) && p > 16 && (p - 1) % 5 != 0 && !Cong(p, 3157279, 0)
  }

  const BN254_R: int := ORDER

  /** The scalar field of BN254, whose order is proved prime, is such a field. */
  lemma Bn254IsGood()
    ensures GoodPrime(BN254_R)
  {
    FieldOrderIsPrime();
    hide Prime;
  }

  lemma Reduced(p: int, a: int, b: int)
    requires 0 <= a < p && 0 <= b < p && Cong(p, a, b)
    ensures a == b
  {
    ModUnique(p, a, 0, a);
    ModUnique(p, b, 0, b);
  }

  lemma SboxIsFifthPower(p: int, x: int)
    requires p > 0
    ensures Cong(p, Sbox(p, x), Pow(x, 5))
  {
    var x2 := x * x % p;
    var x4 := x2 * x2 % p;
    CongMod(p, x * x);
    CongMod(p, x2 * x2);
    CongMod(p, x4 * x);
    CongMul(p, x2, x * x, x2, x * x);
    CongMul(p, x4, (x * x) * (x * x), x, x);
    FifthPower(x);
  }

  lemma FifthPower(x: int)
    ensures Pow(x, 5) == (x * x) * (x * x) * x
  {
    PowAdd(x, 2, 2);
    PowAdd(x, 4, 1);
    PowFirst(x);
    PowAdd(x, 1, 1);
  }

  lemma SboxInjective(p: int, x: int, y: int)
    requires GoodPrime(p) && 0 <= x < p && 0 <= y < p && Sbox(p, x) == Sbox(p, y)
    ensures x == y
  {
    hide Sbox, Prime, Pow;
    SboxIsFifthPower(p, x);
    SboxIsFifthPower(p, y);
    FifthPowerInjective(p, x, y);
    Reduced(p, x, y);
  }

  lemma AddConstantsInjective(p: int, s: seq<int>, t: seq<int>, rc: seq<int>)
    requires p > 0 && State(p, s) && State(p, t) && |rc| == 16 && AddConstants(p, s, rc) == AddConstants(p, t, rc)
    ensures s == t
  {
    forall i | 0 <= i < 16 ensures s[i] == t[i] {
      assert AddConstants(p, s, rc)[i] == (s[i] + rc[i]) % p && AddConstants(p, t, rc)[i] == (t[i] + rc[i]) % p;
      CongAdd(p, s[i] + rc[i], t[i] + rc[i], -rc[i], -rc[i]);
      Reduced(p, s[i], t[i]);
    }
  }

  lemma SboxAllInjective(p: int, s: seq<int>, t: seq<int>)
    requires GoodPrime(p) && State(p, s) && State(p, t) && SboxAll(p, s) == SboxAll(p, t)
    ensures s == t
  {
    hide Sbox, Prime;
    forall i | 0 <= i < 16 ensures s[i] == t[i] {
      assert SboxAll(p, s)[i] == Sbox(p, s[i]) && SboxAll(p, t)[i] == Sbox(p, t[i]);
      SboxInjective(p, s[i], t[i]);
    }
  }

  /** A factor that the prime does not divide can be cancelled. */
  lemma CancelFactor(p: int, c: int, a: int, b: int)
    requires Prime(p) && !Cong(p, c, 0) && Cong(p, c * a, c * b)
    ensures Cong(p, a, b)
  {
    var inv := PrimeInverse(p, c);
    CongCancel(p, c, inv, a, b);
  }

  lemma NotZero35(p: int)
    requires Prime(p) && p > 16
    ensures !Cong(p, 35, 0)
  {
    if Cong(p, 35, 0) {
      PrimeProduct(p, 5, 7);
      NotMultiple(p, 5);
      NotMultiple(p, 7);
    }
  }

  /** The rows of M4 recombine to 35 times each value. */
  lemma Unmix(a: int, b: int, c: int, d: int)
    ensures var y0, y1, y2, y3 := Mix(0, a, b, c, d), Mix(1, a, b, c, d), Mix(2, a, b, c, d), Mix(3, a, b, c, d);
            && 35 * a == -4 * y0 + 3 * y1 - 11 * y2 + 17 * y3
            && 35 * b == 17 * y0 - 4 * y1 + 3 * y2 - 11 * y3
            && 35 * c == -11 * y0 + 17 * y1 - 4 * y2 + 3 * y3
            && 35 * d == 3 * y0 - 11 * y1 + 17 * y2 - 4 * y3
  {
  }

  lemma CongCombination(p: int, k0: int, k1: int, k2: int, k3: int,
                        y0: int, y1: int, y2: int, y3: int, z0: int, z1: int, z2: int, z3: int)
    requires p > 0 && Cong(p, y0, z0) && Cong(p, y1, z1) && Cong(p, y2, z2) && Cong(p, y3, z3)
    ensures Cong(p, k0 * y0 + k1 * y1 + k2 * y2 + k3 * y3, k0 * z0 + k1 * z1 + k2 * z2 + k3 * z3)
  {
    hide Cong;
    CongScale(p, k0, y0, z0);
    CongScale(p, k1, y1, z1);
    CongScale(p, k2, y2, z2);
    CongScale(p, k3, y3, z3);
    CongAdd(p, k0 * y0, k0 * z0, k1 * y1, k1 * z1);
    CongAdd(p, k0 * y0 + k1 * y1, k0 * z0 + k1 * z1, k2 * y2, k2 * z2);
    CongAdd(p, k0 * y0 + k1 * y1 + k2 * y2, k0 * z0 + k1 * z1 + k2 * z2, k3 * y3, k3 * z3);
  }

  /** One block of the external layer is injective. */
  lemma MixInjective(p: int, a: int, b: int, c: int, d: int, a': int, b': int, c': int, d': int)
    requires Prime(p) && p > 16
    requires Cong(p, Mix(0, a, b, c, d), Mix(0, a', b', c', d')) && Cong(p, Mix(1, a, b, c, d), Mix(1, a', b', c', d'))
    requires Cong(p, Mix(2, a, b, c, d), Mix(2, a', b', c', d')) && Cong(p, Mix(3, a, b, c, d), Mix(3, a', b', c', d'))
    ensures Cong(p, a, a') && Cong(p, b, b') && Cong(p, c, c') && Cong(p, d, d')
  {
    Unmix(a, b, c, d);
    Unmix(a', b', c', d');
    NotZero35(p);
    assert p > 0;
    hide Cong, Prime, Mix;
    var y0, y1, y2, y3 := Mix(0, a, b, c, d), Mix(1, a, b, c, d), Mix(2, a, b, c, d), Mix(3, a, b, c, d);
    var z0, z1, z2, z3 :=
      Mix(0, a', b', c', d'), Mix(1, a', b', c', d'), Mix(2, a', b', c', d'), Mix(3, a', b', c', d');
    Recover(p, -4, 3, -11, 17, y0, y1, y2, y3, z0, z1, z2, z3, a, a');
    Recover(p, 17, -4, 3, -11, y0, y1, y2, y3, z0, z1, z2, z3, b, b');
    Recover(p, -11, 17, -4, 3, y0, y1, y2, y3, z0, z1, z2, z3, c, c');
    Recover(p, 3, -11, 17, -4, y0, y1, y2, y3, z0, z1, z2, z3, d, d');
  }

  lemma Recover(p: int, k0: int, k1: int, k2: int, k3: int, y0: int, y1: int, y2: int, y3: int,
                z0: int, z1: int, z2: int, z3: int, a: int, a': int)
    requires Prime(p) && !Cong(p, 35, 0)
    requires Cong(p, y0, z0) && Cong(p, y1, z1) && Cong(p, y2, z2) && Cong(p, y3, z3)
    requires 35 * a == k0 * y0 + k1 * y1 + k2 * y2 + k3 * y3 && 35 * a' == k0 * z0 + k1 * z1 + k2 * z2 + k3 * z3
    ensures Cong(p, a, a')
  {
    assert p > 0;
    hide Prime, Cong;
    CongCombination(p, k0, k1, k2, k3, y0, y1, y2, y3, z0, z1, z2, z3);
    CancelFactor(p, 35, a, a');
  }

  lemma ExternalInjective(p: int, s: seq<int>, t: seq<int>)
    requires Prime(p) && p > 16 && State(p, s) && State(p, t) && External(p, s) == External(p, t)
    ensures s == t
  {
    forall k | 0 <= k < 4
      ensures s[4 * k] == t[4 * k] && s[4 * k + 1] == t[4 * k + 1] && s[4 * k + 2] == t[4 * k + 2]
        && s[4 * k + 3] == t[4 * k + 3]
    {
      BlockInjective(p, s, t, k);
    }
    forall i | 0 <= i < 16 ensures s[i] == t[i] {
      assert i == 4 * (i / 4) + i % 4;
    }
  }

  lemma BlockRow(p: int, s: seq<int>, t: seq<int>, b: nat, i: nat)
    requires p > 0 && |s| == |t| == 16 && External(p, s) == External(p, t) && b % 4 == 0 && b < 16 && i < 4
    ensures Cong(p, Mix(i, s[b], s[b + 1], s[b + 2], s[b + 3]), Mix(i, t[b], t[b + 1], t[b + 2], t[b + 3]))
  {
    hide Mix;
    assert (b + i) / 4 * 4 == b && (b + i) % 4 == i;
    assert External(p, s)[b + i] == Mix(i, s[b], s[b + 1], s[b + 2], s[b + 3]) % p;
    assert External(p, t)[b + i] == Mix(i, t[b], t[b + 1], t[b + 2], t[b + 3]) % p;
  }

  lemma BlockInjective(p: int, s: seq<int>, t: seq<int>, k: nat)
    requires Prime(p) && p > 16 && State(p, s) && State(p, t) && External(p, s) == External(p, t) && k < 4
    ensures s[4 * k] == t[4 * k] && s[4 * k + 1] == t[4 * k + 1] && s[4 * k + 2] == t[4 * k + 2]
      && s[4 * k + 3] == t[4 * k + 3]
  {
    hide Prime, Mix, External;
    var b := 4 * k;
    BlockRow(p, s, t, b, 0);
    BlockRow(p, s, t, b, 1);
    BlockRow(p, s, t, b, 2);
    BlockRow(p, s, t, b, 3);
    MixInjective(p, s[b], s[b + 1], s[b + 2], s[b + 3], t[b], t[b + 1], t[b + 2], t[b + 3]);
    Reduced(p, s[b], t[b]);
    Reduced(p, s[b + 1], t[b + 1]);
    Reduced(p, s[b + 2], t[b + 2]);
    Reduced(p, s[b + 3], t[b + 3]);
  }

  /** 720720 is a multiple of every diagonal entry; sum of the quotients. */
  function Weights(k: nat): nat
  {
    if k == 0 then 0 else Weights(k - 1) + 720720 / k
  }

  lemma WeightsTotal()
    ensures Weights(16) == 2436559
  {
    assert Weights(4) == 1501500;
    assert Weights(8) == Weights(4) + 720720 / 5 + 720720 / 6 + 720720 / 7 + 720720 / 8;
    assert Weights(12) == Weights(8) + 720720 / 9 + 720720 / 10 + 720720 / 11 + 720720 / 12;
    assert Weights(16) == Weights(12) + 720720 / 13 + 720720 / 14 + 720720 / 15 + 720720 / 16;
  }

  lemma DiagonalDivides(k: nat)
    requires 1 <= k <= 16
    ensures 720720 / k * k == 720720
  {
  }

  /** Equal images: each difference, scaled by its diagonal entry, balances the difference of the sums. */
  ghost predicate Balanced(p: int, s: seq<int>, t: seq<int>, delta: int)
    requires p > 0 && |s| == |t| == 16
  {
    forall i {:trigger s[i]} :: 0 <= i < 16 ==> Cong(p, (s[i] - t[i]) * (i + 1), -delta)
  }

  lemma {:induction false} SumBalanced(p: int, s: seq<int>, t: seq<int>, delta: int, k: nat)
    requires p > 0 && |s| == |t| == 16 && Balanced(p, s, t, delta) && k <= 16
    ensures Cong(p, 720720 * (Total(s, k) - Total(t, k)), -(Weights(k) * delta))
  {
    hide Cong;
    if k == 0 {
      assert 720720 * (Total(s, 0) - Total(t, 0)) == 0 && -(Weights(0) * delta) == 0;
      CongIntro(p, 0, 0, 0);
    } else {
      SumBalanced(p, s, t, delta, k - 1);
      var d, w := s[k - 1] - t[k - 1], 720720 / k;
      CongScale(p, w, d * k, -delta);
      DiagonalDivides(k);
      CongAdd(p, 720720 * (Total(s, k - 1) - Total(t, k - 1)), -(Weights(k - 1) * delta), w * (d * k), w * -delta);
      Collect(Total(s, k - 1) - Total(t, k - 1), d, w, k, Weights(k - 1), delta);
    }
  }

  lemma Collect(x: int, d: int, w: int, k: int, v: int, delta: int)
    requires w * k == 720720
    ensures 720720 * x + w * (d * k) == 720720 * (x + d)
    ensures -(v * delta) + w * -delta == -((v + w) * delta)
  {
    assert w * (d * k) == w * k * d;
  }

  lemma ScaledBalanced(p: int, s: seq<int>, t: seq<int>)
    requires p > 0 && |s| == |t| == 16 && Internal(p, s) == Internal(p, t)
    ensures Balanced(p, s, t, Total(s, 16) - Total(t, 16))
  {
    hide Total, Cong, Internal, MulAdd;
    var u, v := Total(s, 16), Total(t, 16);
    forall i | 0 <= i < 16 ensures Cong(p, (s[i] - t[i]) * (i + 1), -(u - v)) {
      InternalEntry(p, s, i);
      InternalEntry(p, t, i);
      EqualEntries(p, s[i], t[i], i + 1, u, v);
    }
  }

  lemma EqualEntries(p: int, a: int, b: int, k: int, u: int, v: int)
    requires p > 0 && (a * k + u) % p == (b * k + v) % p
    ensures Cong(p, (a - b) * k, -(u - v))
  {
    var x, y := a * k, b * k;
    assert (a - b) * k == x - y;
    CongSub(p, x + u, y + v, y + u, y + u);
  }

  /** The internal layer is injective. */
  lemma InternalInjective(p: int, s: seq<int>, t: seq<int>)
    requires GoodPrime(p) && State(p, s) && State(p, t) && Internal(p, s) == Internal(p, t)
    ensures s == t
  {
    hide Total, Prime, Cong, Internal;
    var delta := Total(s, 16) - Total(t, 16);
    ScaledBalanced(p, s, t);
    SumBalanced(p, s, t, delta, 16);
    WeightsTotal();
    DeltaZero(p, delta);
    forall i | 0 <= i < 16 ensures s[i] == t[i] {
      CongNeg(p, delta, 0);
      NotMultiple(p, i + 1);
      DifferenceZero(p, s[i], t[i], i + 1, delta);
    }
  }

  lemma DeltaZero(p: int, delta: int)
    requires GoodPrime(p) && Cong(p, 720720 * delta, -(2436559 * delta))
    ensures Cong(p, delta, 0)
  {
    hide Prime;
    CongAdd(p, 720720 * delta, -(2436559 * delta), 2436559 * delta, 2436559 * delta);
    PrimeProduct(p, 3157279, delta);
  }

  lemma DifferenceZero(p: int, a: int, b: int, k: int, delta: int)
    requires Prime(p) && !Cong(p, k, 0) && 0 <= a < p && 0 <= b < p
    requires Cong(p, (a - b) * k, -delta) && Cong(p, delta, 0)
    ensures a == b
  {
    hide Prime;
    CongNeg(p, delta, 0);
    assert Cong(p, (a - b) * k, 0);
    PrimeProduct(p, a - b, k);
    CongAdd(p, a - b, 0, b, b);
    Reduced(p, a, b);
  }

  lemma RoundInjective(p: int, s: seq<int>, t: seq<int>, rc: seq<int>)
    requires GoodPrime(p) && State(p, s) && State(p, t) && |rc| == 16
    ensures FullRound(p, s, rc) == FullRound(p, t, rc) ==> s == t
    ensures PartialRound(p, s, rc) == PartialRound(p, t, rc) ==> s == t
  {
    hide Prime, Internal, External, SboxAll, AddConstants, Sbox;
    var a, b := AddConstants(p, s, rc), AddConstants(p, t, rc);
    if FullRound(p, s, rc) == FullRound(p, t, rc) {
      ExternalInjective(p, SboxAll(p, a), SboxAll(p, b));
      SboxAllInjective(p, a, b);
      AddConstantsInjective(p, s, t, rc);
    }
    if PartialRound(p, s, rc) == PartialRound(p, t, rc) {
      var a', b' := a[0 := Sbox(p, a[0])], b[0 := Sbox(p, b[0])];
      InternalInjective(p, a', b');
      assert a'[0] == b'[0];
      SboxInjective(p, a[0], b[0]);
      assert a == a'[0 := a[0]] && b == b'[0 := b[0]];
      AddConstantsInjective(p, s, t, rc);
    }
  }

  lemma {:induction false} RoundsInjective(p: int, s: seq<int>, t: seq<int>, rcs: seq<seq<int>>, k: nat)
    requires GoodPrime(p) && State(p, s) && State(p, t) && Constants(rcs) && k <= 22
    requires Rounds(p, s, rcs, k) == Rounds(p, t, rcs, k)
    ensures s == t
  {
    assert p > 0;
    hide GoodPrime, FullRound, PartialRound;
    if k == 0 {
    } else {
      RoundInjective(p, Rounds(p, s, rcs, k - 1), Rounds(p, t, rcs, k - 1), rcs[k - 1]);
      RoundsInjective(p, s, t, rcs, k - 1);
    }
  }

  /** The permutation never maps two states to one, whatever the round constants. */
  lemma PermutationInjective(p: int, s: seq<int>, t: seq<int>, rcs: seq<seq<int>>)
    requires GoodPrime(p) && State(p, s) && State(p, t) && Constants(rcs)
    ensures Permutation(p, s, rcs) == Permutation(p, t, rcs) <==> s == t
  {
    if Permutation(p, s, rcs) == Permutation(p, t, rcs) {
      RoundsInjective(p, s, t, rcs, 22);
    }
  }

  /** In particular over the field that the source uses, with nothing left to assume. */
  lemma Bn254PermutationInjective(s: seq<int>, t: seq<int>, rcs: seq<seq<int>>)
    requires State(BN254_R, s) && State(BN254_R, t) && Constants(rcs)
    ensures Permutation(BN254_R, s, rcs) == Permutation(BN254_R, t, rcs) <==> s == t
  {
    Bn254IsGood();
    hide GoodPrime, Permutation;
    PermutationInjective(BN254_R, s, t, rcs);
  }
}
