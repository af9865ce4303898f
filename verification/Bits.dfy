/** Powers of two, right shifts and aligned blocks, as the tree code uses them. */
module Bits {

  function Pow2(k: nat): (r: nat)
    ensures r >= 1
  {
    if k == 0 then 1 else 2 * Pow2(k - 1)
  }

  /** `n >> k`, one halving at a time. */
  function Shr(n: nat, k: nat): nat
  {
    if k == 0 then n else Shr(n, k - 1) / 2
  }

  /** `i << k`: the first leaf index under node i of level k. */
  function Start(i: nat, k: nat): nat
    decreases k
  {
    if k == 0 then i else Start(2 * i, k - 1)
  }

  lemma {:induction false} StartSucc(i: nat, k: nat)
    ensures Start(i + 1, k) == Start(i, k) + Pow2(k)
    decreases k
  {
    if k == 0 {
    } else {
      StartSucc(2 * i, k - 1);
      StartSucc(2 * i + 1, k - 1);
      assert 2 * (i + 1) == 2 * i + 1 + 1;
    }
  }

  lemma {:induction false} StartZero(k: nat)
    ensures Start(0, k) == 0
  {
    if k == 0 {
    } else {
      StartZero(k - 1);
    }
  }

  lemma {:induction false} StartMono(i: nat, j: nat, k: nat)
    requires i <= j
    ensures Start(i, k) <= Start(j, k)
    decreases k
  {
    if k == 0 {
    } else {
      StartMono(2 * i, 2 * j, k - 1);
    }
  }

  /** Leaf n lies under node `n >> k` of level k. */
  lemma {:induction false} ShrBounds(n: nat, k: nat)
    ensures Start(Shr(n, k), k) <= n < Start(Shr(n, k) + 1, k)
  {
    if k == 0 {
    } else {
      ShrBounds(n, k - 1);
      var a, b := Shr(n, k - 1), Shr(n, k);
      StartMono(2 * b, a, k - 1);
      StartMono(a + 1, 2 * (b + 1), k - 1);
    }
  }

  /** An index below 2^k shifts to zero. */
  lemma ShrZero(n: nat, k: nat)
    requires n < Pow2(k)
    ensures Shr(n, k) == 0
  {
    ShrBounds(n, k);
    if Shr(n, k) > 0 {
      StartMono(1, Shr(n, k), k);
      StartZero(k);
      StartSucc(0, k);
    }
  }

  /** Adding one changes a shifted value by at most one. */
  lemma {:induction false} ShrSucc(n: nat, k: nat)
    ensures Shr(n, k) <= Shr(n + 1, k) <= Shr(n, k) + 1
  {
    if k == 0 {
    } else {
      ShrSucc(n, k - 1);
    }
  }

  /** Every bit below d of 2^d - 1 is one. */
  lemma {:induction false} ShrAllOnes(d: nat, k: nat)
    requires k <= d
    ensures Shr(Pow2(d) - 1, k) == Pow2(d - k) - 1
  {
    if k == 0 {
    } else {
      ShrAllOnes(d, k - 1);
    }
  }
}
