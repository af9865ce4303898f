/**
 The coefficient loop as it runs on a thread pool: the range of coefficients is split over worker
 threads, each multiplies without a lock and then adds under one of a fixed number of row locks.
 Every interleaving gives the sequential sums, and no interleaving gets stuck.
 */
module LockedAccumulation {
  import opened Modular
  import opened Polynomials
  import opened Coset
  import opened Groth16

  /** The shared inputs: worker t handles coefficients starts[t] .. starts[t+1]. */
  datatype Job = Job(f: Field, coefs: seq<Coef>, w: seq<int>, locks: nat, starts: seq<nat>) {

    ghost predicate Valid()
    {
      && f.q > 0 && locks > 0 && InRange(coefs, f.Size(), |w|)
      && |starts| > 0 && starts[0] == 0 && starts[|starts| - 1] == |coefs|
      && forall t {:trigger starts[t]} | 0 <= t < |starts| - 1 :: starts[t] <= starts[t + 1] <= |coefs|
    }

    function Workers(): nat requires |starts| > 0 { |starts| - 1 }

    /** The lock that guards coefficient i's row; arrays a and b share it. */
    function LockOf(i: nat): nat
      requires locks > 0 && i < |coefs|
    {
      coefs[i].c % locks
    }

    function Stored(i: nat): int
      requires f.q > 0 && InRange(coefs, f.Size(), |w|) && i < |coefs|
    {
      f.MontMul(w[coefs[i].s], coefs[i].val)
    }
  }

  /** Where a worker stands with its next coefficient. */
  datatype Phase = Idle | Multiplied(aux: int) | Holding(aux: int) | Loaded(aux: int, value: int) | Written

  datatype Worker = Worker(next: nat, phase: Phase)

  /** owner[k] is the worker that holds lock k, or -1. */
  datatype State = State(a: seq<int>, b: seq<int>, workers: seq<Worker>, owner: seq<int>)

  predicate InCritical(p: Phase) { p.Holding? || p.Loaded? || p.Written? }

  function Cell(j: Job, s: State, i: nat): int
    requires i < |j.coefs| && j.coefs[i].c < |s.a| == |s.b|
  {
    if j.coefs[i].m == 0 then s.a[j.coefs[i].c] else s.b[j.coefs[i].c]
  }

  function WithCell(j: Job, s: State, i: nat, v: int): State
    requires i < |j.coefs| && j.coefs[i].c < |s.a| == |s.b|
  {
    if j.coefs[i].m == 0 then s.(a := s.a[j.coefs[i].c := v]) else s.(b := s.b[j.coefs[i].c := v])
  }

  ghost predicate Shaped(j: Job, s: State)
  {
    && j.Valid()
    && |s.a| == |s.b| == j.f.Size() && |s.workers| == j.Workers() && |s.owner| == j.locks
    && forall t {:trigger s.workers[t]} | 0 <= t < |s.workers| ::
         && j.starts[t] <= s.workers[t].next <= j.starts[t + 1] <= |j.coefs|
         && (s.workers[t].phase.Idle? || s.workers[t].next < j.starts[t + 1])
  }

  ghost predicate Start(j: Job, s: State)
  {
    && j.Valid()
    && s.a == s.b == Zeros(j.f.Size()) && |s.workers| == j.Workers() && |s.owner| == j.locks
    && (forall t {:trigger s.workers[t]} | 0 <= t < |s.workers| :: s.workers[t] == Worker(j.starts[t], Idle))
    && (forall k {:trigger s.owner[k]} | 0 <= k < |s.owner| :: s.owner[k] == -1)
  }

  ghost predicate Finished(j: Job, s: State)
    requires Shaped(j, s)
  {
    forall t {:trigger s.workers[t]} | 0 <= t < |s.workers| :: s.workers[t] == Worker(j.starts[t + 1], Idle)
  }

  /** Worker t has something to do and is not waiting for a lock held by someone. */
  ghost predicate CanStep(j: Job, s: State, t: nat)
    requires Shaped(j, s) && t < |s.workers|
  {
    var w := s.workers[t];
    w.next < j.starts[t + 1] && (w.phase.Multiplied? ==> s.owner[j.LockOf(w.next)] == -1)
  }

  /** One atomic action of worker t. */
  ghost function Step(j: Job, s: State, t: nat): State
    requires Shaped(j, s) && t < |s.workers| && CanStep(j, s, t)
  {
    var w := s.workers[t];
    var i := w.next;
    match w.phase
    case Idle => s.(workers := s.workers[t := w.(phase := Multiplied(j.Stored(i)))])
    case Multiplied(aux) => s.(workers := s.workers[t := w.(phase := Holding(aux))], owner := s.owner[j.LockOf(i) := t])
    case Holding(aux) => s.(workers := s.workers[t := w.(phase := Loaded(aux, Cell(j, s, i)))])
    case Loaded(aux, value) => WithCell(j, s, i, (value + aux) % j.f.q).(workers :=
      s.workers[t := w.(phase := Written)])
    case Written => s.(workers := s.workers[t := Worker(i + 1, Idle)], owner := s.owner[j.LockOf(i) := -1])
  }

  // ---------------------------------------------------------------------------------------
  // What the cells hold
  // ---------------------------------------------------------------------------------------

  /** Coefficient i's contribution to a cell. */
  function Share(j: Job, i: nat, first: bool, row: nat): int
    requires j.f.q > 0 && InRange(j.coefs, j.f.Size(), |j.w|) && i < |j.coefs|
  {
    if (j.coefs[i].m == 0) == first && j.coefs[i].c == row then j.Stored(i) else 0
  }

  /** Sum of the contributions of coefficients lo .. hi. */
  function Shares(j: Job, lo: nat, hi: nat, first: bool, row: nat): int
    requires j.f.q > 0 && InRange(j.coefs, j.f.Size(), |j.w|) && lo <= hi <= |j.coefs|
  {
    if lo == hi then 0 else Shares(j, lo, hi - 1, first, row) + Share(j, hi - 1, first, row)
  }

  /** The first coefficient of worker t that is not yet in its cell. */
  function DoneUpTo(s: State, t: nat): nat
    requires t < |s.workers|
  {
    if s.workers[t].phase.Written? then s.workers[t].next + 1 else s.workers[t].next
  }

  /** Sum over the first k workers of what each has put into the cell. */
  ghost function Done(j: Job, s: State, k: nat, first: bool, row: nat): int
    requires Shaped(j, s) && k <= |s.workers|
  {
    if k == 0 then 0
    else
      assert j.starts[k - 1] <= DoneUpTo(s, k - 1) <= |j.coefs|;
      Done(j, s, k - 1, first, row) + Shares(j, j.starts[k - 1], DoneUpTo(s, k - 1), first, row)
  }

  /** Critical sections and locks match, loaded values are current, cells hold what has been written. */
  ghost predicate LocksOk(j: Job, s: State)
    requires Shaped(j, s)
  {
    && (forall t {:trigger HoldsLock(j, s, t)} | 0 <= t < |s.workers| :: HoldsLock(j, s, t))
    && (forall k {:trigger HolderOk(j, s, k)} | 0 <= k < |s.owner| :: HolderOk(j, s, k))
  }

  ghost predicate LoadsOk(j: Job, s: State)
    requires Shaped(j, s)
  {
    forall t {:trigger s.workers[t]} | 0 <= t < |s.workers| ::
      match s.workers[t].phase
      case Multiplied(aux) => aux == j.Stored(s.workers[t].next)
      case Holding(aux) => aux == j.Stored(s.workers[t].next)
      case Loaded(aux, value) => aux == j.Stored(s.workers[t].next) && value == Cell(j, s, s.workers[t].next)
      case _ => true
  }

  ghost predicate CellsOk(j: Job, s: State)
    requires Shaped(j, s)
  {
    forall row: nat {:trigger s.a[row]} {:trigger s.b[row]} | row < j.f.Size() ::
      && 0 <= s.a[row] < j.f.q && Cong(j.f.q, s.a[row], Done(j, s, |s.workers|, true, row))
      && 0 <= s.b[row] < j.f.q && Cong(j.f.q, s.b[row], Done(j, s, |s.workers|, false, row))
  }

  ghost predicate Inv(j: Job, s: State)
  {
    Shaped(j, s) && LocksOk(j, s) && LoadsOk(j, s) && CellsOk(j, s)
  }

  lemma {:induction false} DoneAtStart(j: Job, s: State, k: nat, first: bool, row: nat)
    requires Shaped(j, s) && Start(j, s) && k <= |s.workers|
    ensures Done(j, s, k, first, row) == 0
  {
    if k == 0 {
    } else {
      DoneAtStart(j, s, k - 1, first, row);
      assert s.workers[k - 1] == Worker(j.starts[k - 1], Idle);
    }
  }

  lemma StartInv(j: Job, s: State)
    requires Start(j, s)
    ensures Inv(j, s)
  {
    assert Shaped(j, s) by {
      forall t {:trigger s.workers[t]} | 0 <= t < |s.workers|
        ensures j.starts[t] <= s.workers[t].next <= j.starts[t + 1] <= |j.coefs|
      {
        assert j.starts[t] <= j.starts[t + 1];
      }
    }
    forall row: nat {:trigger s.a[row]} {:trigger s.b[row]} | row < j.f.Size()
      ensures Done(j, s, |s.workers|, true, row) == Done(j, s, |s.workers|, false, row) == 0
    {
      DoneAtStart(j, s, |s.workers|, true, row);
      DoneAtStart(j, s, |s.workers|, false, row);
    }
  }

  /** The sums depend only on how far each worker is. */
  lemma {:induction false} DoneSame(j: Job, s: State, s': State, k: nat, first: bool, row: nat)
    requires Shaped(j, s) && Shaped(j, s') && k <= |s.workers|
    requires forall t {:trigger DoneUpTo(s, t)} {:trigger DoneUpTo(s', t)} | 0 <= t < k ::
      DoneUpTo(s, t) == DoneUpTo(s', t)
    ensures Done(j, s, k, first, row) == Done(j, s', k, first, row)
  {
    if k == 0 {
    } else {
      DoneSame(j, s, s', k - 1, first, row);
    }
  }

  /** One worker writing one coefficient adds that coefficient's share. */
  lemma {:induction false} DoneOneMore(j: Job, s: State, s': State, k: nat, t: nat, first: bool, row: nat)
    requires Shaped(j, s) && Shaped(j, s') && t < k <= |s.workers|
    requires DoneUpTo(s', t) == DoneUpTo(s, t) + 1 == s.workers[t].next + 1 <= |j.coefs|
    requires forall u {:trigger DoneUpTo(s, u)} {:trigger DoneUpTo(s', u)} | 0 <= u < k && u != t ::
      DoneUpTo(s, u) == DoneUpTo(s', u)
    ensures Done(j, s', k, first, row) == Done(j, s, k, first, row) + Share(j, s.workers[t].next, first, row)
  {
    if t == k - 1 {
      DoneSame(j, s, s', k - 1, first, row);
    } else {
      DoneOneMore(j, s, s', k - 1, t, first, row);
    }
  }

  lemma StepShaped(j: Job, s: State, t: nat)
    requires Shaped(j, s) && t < |s.workers| && CanStep(j, s, t)
    ensures Shaped(j, Step(j, s, t))
  {
    var s' := Step(j, s, t);
    forall u {:trigger s'.workers[u]} | 0 <= u < |s'.workers|
      ensures j.starts[u] <= s'.workers[u].next <= j.starts[u + 1] <= |j.coefs|
           && (s'.workers[u].phase.Idle? || s'.workers[u].next < j.starts[u + 1])
    {
      assert s.workers[u] == s.workers[u];
    }
  }

  ghost predicate HolderOk(j: Job, s: State, k: nat)
    requires Shaped(j, s) && k < |s.owner|
  {
    s.owner[k] == -1
    || (0 <= s.owner[k] < |s.workers| && InCritical(s.workers[s.owner[k]].phase)
        && j.LockOf(s.workers[s.owner[k]].next) == k)
  }

  ghost predicate HoldsLock(j: Job, s: State, t: nat)
    requires Shaped(j, s) && t < |s.workers|
  {
    InCritical(s.workers[t].phase) ==> s.owner[j.LockOf(s.workers[t].next)] == t
  }

  lemma StepHolds(j: Job, s: State, t: nat, u: nat)
    requires Shaped(j, s) && LocksOk(j, s) && t < |s.workers| && u < |s.workers| && CanStep(j, s, t)
    requires Shaped(j, Step(j, s, t))
    ensures HoldsLock(j, Step(j, s, t), u)
  {
    assert HoldsLock(j, s, t) && HoldsLock(j, s, u);
  }

  lemma StepHolder(j: Job, s: State, t: nat, k: nat)
    requires Shaped(j, s) && LocksOk(j, s) && t < |s.workers| && k < |s.owner| && CanStep(j, s, t)
    requires Shaped(j, Step(j, s, t))
    ensures HolderOk(j, Step(j, s, t), k)
  {
    assert HoldsLock(j, s, t) && HolderOk(j, s, k);
  }

  lemma StepLocks(j: Job, s: State, t: nat)
    requires Shaped(j, s) && LocksOk(j, s) && t < |s.workers| && CanStep(j, s, t)
    requires Shaped(j, Step(j, s, t))
    ensures LocksOk(j, Step(j, s, t))
  {
    hide Step, HoldsLock, HolderOk;
    var s' := Step(j, s, t);
    StepSizes(j, s, t);
    forall u {:trigger HoldsLock(j, s', u)} | 0 <= u < |s'.workers| ensures HoldsLock(j, s', u) {
      StepHolds(j, s, t, u);
    }
    forall k {:trigger HolderOk(j, s', k)} | 0 <= k < |s'.owner| ensures HolderOk(j, s', k) {
      StepHolder(j, s, t, k);
    }
  }

  lemma StepSizes(j: Job, s: State, t: nat)
    requires Shaped(j, s) && t < |s.workers| && CanStep(j, s, t)
    ensures var s' := Step(j, s, t); |s'.workers| == |s.workers| && |s'.owner| == |s.owner|
  {
  }

  /** Two workers inside their critical sections never work on the same cell. */
  lemma MutualExclusion(j: Job, s: State, t: nat, u: nat)
    requires Shaped(j, s) && LocksOk(j, s) && t < |s.workers| && u < |s.workers| && t != u
    requires InCritical(s.workers[t].phase) && InCritical(s.workers[u].phase)
    ensures j.coefs[s.workers[t].next].c != j.coefs[s.workers[u].next].c
  {
    assert HoldsLock(j, s, t) && HoldsLock(j, s, u);
  }

  lemma StepLoads(j: Job, s: State, t: nat)
    requires Shaped(j, s) && LocksOk(j, s) && LoadsOk(j, s) && t < |s.workers| && CanStep(j, s, t)
    requires Shaped(j, Step(j, s, t))
    ensures LoadsOk(j, Step(j, s, t))
  {
    var s' := Step(j, s, t);
    forall u {:trigger s'.workers[u]} | 0 <= u < |s'.workers|
      ensures match s'.workers[u].phase
        case Multiplied(aux) => aux == j.Stored(s'.workers[u].next)
        case Holding(aux) => aux == j.Stored(s'.workers[u].next)
        case Loaded(aux, value) => aux == j.Stored(s'.workers[u].next) && value == Cell(j, s', s'.workers[u].next)
        case _ => true
    {
      assert s.workers[u] == s.workers[u];
      if u != t && s.workers[u].phase.Loaded? && s.workers[t].phase.Loaded? {
        MutualExclusion(j, s, t, u);
      }
    }
  }

  /** Only a write moves a worker's progress, and only its own. */
  lemma StepProgress(j: Job, s: State, t: nat, u: nat)
    requires Shaped(j, s) && t < |s.workers| && u < |s.workers| && CanStep(j, s, t) && Shaped(j, Step(j, s, t))
    ensures DoneUpTo(Step(j, s, t), u)
         == if u == t && s.workers[t].phase.Loaded? then s.workers[t].next + 1 else DoneUpTo(s, u)
  {
  }

  /** A step that writes nothing leaves the cell sums alone. */
  lemma QuietStepCells(j: Job, s: State, t: nat)
    requires Inv(j, s) && t < |s.workers| && CanStep(j, s, t) && !s.workers[t].phase.Loaded?
    requires Shaped(j, Step(j, s, t))
    ensures CellsOk(j, Step(j, s, t))
  {
    var s', n := Step(j, s, t), |s.workers|;
    forall u {:trigger DoneUpTo(s', u)} | 0 <= u < n ensures DoneUpTo(s, u) == DoneUpTo(s', u) {
      StepProgress(j, s, t, u);
    }
    forall row: nat {:trigger s'.a[row]} {:trigger s'.b[row]} | row < j.f.Size()
      ensures Done(j, s', n, true, row) == Done(j, s, n, true, row)
        && Done(j, s', n, false, row) == Done(j, s, n, false, row)
    {
      DoneSame(j, s, s', n, true, row);
      DoneSame(j, s, s', n, false, row);
    }
    forall row: nat {:trigger s'.a[row]} {:trigger s'.b[row]} | row < j.f.Size()
      ensures 0 <= s'.a[row] < j.f.q && Cong(j.f.q, s'.a[row], Done(j, s', n, true, row))
           && 0 <= s'.b[row] < j.f.q && Cong(j.f.q, s'.b[row], Done(j, s', n, false, row))
    {
      assert s.a[row] == s'.a[row] && s.b[row] == s'.b[row];
    }
  }

  /** The write adds the coefficient's share to its cell and to no other. */
  lemma WriteDone(j: Job, s: State, t: nat, first: bool, row: nat)
    requires Shaped(j, s) && t < |s.workers| && CanStep(j, s, t) && s.workers[t].phase.Loaded?
    requires Shaped(j, Step(j, s, t))
    ensures Done(j, Step(j, s, t), |s.workers|, first, row)
         == Done(j, s, |s.workers|, first, row) + Share(j, s.workers[t].next, first, row)
  {
    hide Step, Done, Share;
    var s' := Step(j, s, t);
    forall u {:trigger DoneUpTo(s', u)} {:trigger DoneUpTo(s, u)} | 0 <= u < |s.workers| && u != t
      ensures DoneUpTo(s, u) == DoneUpTo(s', u)
    {
      StepProgress(j, s, t, u);
    }
    StepProgress(j, s, t, t);
    DoneOneMore(j, s, s', |s.workers|, t, first, row);
  }

  lemma WriteValue(j: Job, s: State, t: nat, first: bool, row: nat)
    requires Shaped(j, s) && LoadsOk(j, s) && t < |s.workers| && CanStep(j, s, t) && s.workers[t].phase.Loaded?
    requires row < j.f.Size() && Shaped(j, Step(j, s, t))
    ensures var s' := Step(j, s, t);
      var x, v := if first then s.a[row] else s.b[row], if first then s'.a[row] else s'.b[row];
      var i := s.workers[t].next;
      v == if (j.coefs[i].m == 0) == first && j.coefs[i].c == row then (x + j.Stored(i)) % j.f.q else x
  {
    assert s.workers[t] == s.workers[t];
  }

  lemma WriteCell(j: Job, s: State, t: nat, first: bool, row: nat)
    requires Inv(j, s) && t < |s.workers| && CanStep(j, s, t) && s.workers[t].phase.Loaded? && row < j.f.Size()
    requires Shaped(j, Step(j, s, t))
    ensures var s' := Step(j, s, t);
      var v := if first then s'.a[row] else s'.b[row];
      0 <= v < j.f.q && Cong(j.f.q, v, Done(j, s', |s.workers|, first, row))
  {
    hide Step, Done, LocksOk;
    var i := s.workers[t].next;
    WriteDone(j, s, t, first, row);
    WriteValue(j, s, t, first, row);
    var x := if first then s.a[row] else s.b[row];
    assert 0 <= x < j.f.q && Cong(j.f.q, x, Done(j, s, |s.workers|, first, row)) by {
      assert s.a[row] == s.a[row] && s.b[row] == s.b[row];
    }
    if (j.coefs[i].m == 0) == first && j.coefs[i].c == row {
      CongAdd(j.f.q, x, Done(j, s, |s.workers|, first, row), j.Stored(i), j.Stored(i));
      CongMod(j.f.q, x + j.Stored(i));
    }
  }

  lemma StepKeeps(j: Job, s: State, t: nat)
    requires Inv(j, s) && t < |s.workers| && CanStep(j, s, t)
    ensures Inv(j, Step(j, s, t))
  {
    hide Done, Step;
    var s' := Step(j, s, t);
    StepShaped(j, s, t);
    StepLocks(j, s, t);
    StepLoads(j, s, t);
    if s.workers[t].phase.Loaded? {
      forall row: nat {:trigger s'.a[row]} {:trigger s'.b[row]} | row < j.f.Size()
        ensures 0 <= s'.a[row] < j.f.q && Cong(j.f.q, s'.a[row], Done(j, s', |s'.workers|, true, row))
             && 0 <= s'.b[row] < j.f.q && Cong(j.f.q, s'.b[row], Done(j, s', |s'.workers|, false, row))
      {
        assert |s'.workers| == |s.workers|;
        WriteCell(j, s, t, true, row);
        WriteCell(j, s, t, false, row);
      }
    } else {
      QuietStepCells(j, s, t);
    }
  }

  /** States reached by a schedule: at each point some worker that can step does. */
  ghost predicate Run(j: Job, states: seq<State>, schedule: seq<nat>)
  {
    && |states| == |schedule| + 1 && Start(j, states[0])
    && forall k {:trigger schedule[k]} | 0 <= k < |schedule| ::
         && Shaped(j, states[k]) && schedule[k] < |states[k].workers| && CanStep(j, states[k], schedule[k])
         && states[k + 1] == Step(j, states[k], schedule[k])
  }

  lemma {:induction false} RunInv(j: Job, states: seq<State>, schedule: seq<nat>, k: nat)
    requires Run(j, states, schedule) && k < |states|
    ensures Inv(j, states[k])
  {
    if k == 0 {
      StartInv(j, states[0]);
    } else {
      RunInv(j, states, schedule, k - 1);
      assert states[k - 1 + 1] == Step(j, states[k - 1], schedule[k - 1]);
      StepKeeps(j, states[k - 1], schedule[k - 1]);
    }
  }

  // ---------------------------------------------------------------------------------------
  // The outcome
  // ---------------------------------------------------------------------------------------

  lemma {:induction false} SharesJoin(j: Job, lo: nat, mid: nat, hi: nat, first: bool, row: nat)
    requires j.Valid() && lo <= mid <= hi <= |j.coefs|
    ensures Shares(j, lo, mid, first, row) + Shares(j, mid, hi, first, row) == Shares(j, lo, hi, first, row)
  {
    if mid >= hi {
    } else {
      SharesJoin(j, lo, mid, hi - 1, first, row);
    }
  }

  lemma {:induction false} DoneAtEnd(j: Job, s: State, k: nat, first: bool, row: nat)
    requires Shaped(j, s) && Finished(j, s) && k <= |s.workers|
    ensures j.starts[k] <= |j.coefs| && Done(j, s, k, first, row) == Shares(j, 0, j.starts[k], first, row)
  {
    if k == 0 {
    } else {
      DoneAtEnd(j, s, k - 1, first, row);
      assert s.workers[k - 1] == Worker(j.starts[k], Idle);
      assert j.starts[k - 1] <= j.starts[k - 1 + 1];
      SharesJoin(j, 0, j.starts[k - 1], j.starts[k], first, row);
    }
  }

  /** The sequential loop's cell is the sum of all shares. */
  lemma {:induction false} RowSumsEntry(j: Job, n: nat, first: bool, row: nat)
    requires j.Valid() && n <= |j.coefs| && row < j.f.Size()
    ensures var v := RowSums(j.f, j.coefs[..n], j.w, first)[row];
      0 <= v < j.f.q && Cong(j.f.q, v, Shares(j, 0, n, first, row))
  {
    if n == 0 {
      assert j.coefs[..0] == [];
    } else {
      RowSumsEntry(j, n - 1, first, row);
      assert j.coefs[..n][..n - 1] == j.coefs[..n - 1];
      var v := RowSums(j.f, j.coefs[..n - 1], j.w, first)[row];
      CongAdd(j.f.q, v, Shares(j, 0, n - 1, first, row), j.Stored(n - 1), j.Stored(n - 1));
      CongMod(j.f.q, v + j.Stored(n - 1));
    }
  }

  lemma ResiduesUnique(q: int, x: int, y: int)
    requires q > 0 && 0 <= x < q && 0 <= y < q && Cong(q, x, y)
    ensures x == y
  {
    ModUnique(q, x, 0, x);
    ModUnique(q, y, 0, y);
  }

  /**
   For every split of the coefficients over workers and every interleaving of their actions, the
   finished arrays are those of the sequential loop.
   */
  lemma EveryInterleavingSums(j: Job, states: seq<State>, schedule: seq<nat>, k: nat)
    requires Run(j, states, schedule) && k < |states|
    ensures Inv(j, states[k])
    ensures Finished(j, states[k]) ==>
      && states[k].a == RowSums(j.f, j.coefs, j.w, true)
      && states[k].b == RowSums(j.f, j.coefs, j.w, false)
  {
    RunInv(j, states, schedule, k);
    var s := states[k];
    if Finished(j, s) {
      assert j.coefs[..|j.coefs|] == j.coefs;
      forall row: nat | row < j.f.Size()
        ensures s.a[row] == RowSums(j.f, j.coefs, j.w, true)[row] && s.b[row] == RowSums(j.f, j.coefs, j.w, false)[row]
      {
        FinishedCell(j, s, true, row);
        FinishedCell(j, s, false, row);
      }
    }
  }

  lemma FinishedCell(j: Job, s: State, first: bool, row: nat)
    requires Inv(j, s) && Finished(j, s) && row < j.f.Size()
    ensures (if first then s.a[row] else s.b[row]) == RowSums(j.f, j.coefs, j.w, first)[row]
  {
    assert j.coefs[..|j.coefs|] == j.coefs;
    DoneAtEnd(j, s, |s.workers|, first, row);
    RowSumsEntry(j, |j.coefs|, first, row);
    var v, r := if first then s.a[row] else s.b[row], RowSums(j.f, j.coefs, j.w, first)[row];
    assert Cong(j.f.q, v, Done(j, s, |s.workers|, first, row)) by {
      assert s.a[row] == s.a[row];
      assert s.b[row] == s.b[row];
    }
    ResiduesUnique(j.f.q, v, r);
  }

  /** No deadlock: until all work is done some worker can step. */
  lemma SomeoneCanStep(j: Job, s: State) returns (t: nat)
    requires Inv(j, s) && !Finished(j, s)
    ensures t < |s.workers| && CanStep(j, s, t)
  {
    t :| t < |s.workers| && s.workers[t] != Worker(j.starts[t + 1], Idle);
    if !CanStep(j, s, t) {
      var k := j.LockOf(s.workers[t].next);
      assert HolderOk(j, s, k);
      t := s.owner[k];
    }
  }

  // ---------------------------------------------------------------------------------------
  // Every schedule ends
  // ---------------------------------------------------------------------------------------

  /** Actions already taken for the coefficient at hand. */
  function Rank(p: Phase): nat
  {
    match p
    case Idle => 0
    case Multiplied(_) => 1
    case Holding(_) => 2
    case Loaded(_, _) => 3
    case Written => 4
  }

  /** Actions the first k workers have taken: five for every coefficient. */
  ghost function Taken(j: Job, s: State, k: nat): int
    requires Shaped(j, s) && k <= |s.workers|
  {
    if k == 0 then 0
    else Taken(j, s, k - 1) + 5 * (s.workers[k - 1].next - j.starts[k - 1]) + Rank(s.workers[k - 1].phase)
  }

  lemma {:induction false} TakenBounds(j: Job, s: State, k: nat)
    requires Shaped(j, s) && k <= |s.workers|
    ensures 0 <= Taken(j, s, k) <= 5 * j.starts[k]
    ensures Taken(j, s, k) == 5 * j.starts[k] <==> forall t {:trigger s.workers[t]} | 0 <= t < k ::
      s.workers[t] == Worker(j.starts[t + 1], Idle)
    ensures Start(j, s) ==> Taken(j, s, k) == 0
  {
    if k == 0 {
    } else {
      TakenBounds(j, s, k - 1);
      assert j.starts[k - 1] <= j.starts[k - 1 + 1];
      var w := s.workers[k - 1];
      assert w.next == j.starts[k] ==> w.phase.Idle?;
      assert Start(j, s) ==> w == Worker(j.starts[k - 1], Idle);
    }
  }

  lemma {:induction false} TakenStep(j: Job, s: State, t: nat, k: nat)
    requires Shaped(j, s) && t < |s.workers| && CanStep(j, s, t) && Shaped(j, Step(j, s, t)) && k <= |s.workers|
    ensures Taken(j, Step(j, s, t), k) == Taken(j, s, k) + if t < k then 1 else 0
  {
    hide Step, CanStep, Rank;
    if k == 0 {
    } else {
      TakenStep(j, s, t, k - 1);
      OneAction(j, s, t, k - 1);
    }
  }

  lemma OneAction(j: Job, s: State, t: nat, u: nat)
    requires Shaped(j, s) && t < |s.workers| && CanStep(j, s, t) && u < |s.workers|
    ensures var (v, w) := (s.workers[u], Step(j, s, t).workers[u]);
      5 * w.next + Rank(w.phase) == 5 * v.next + Rank(v.phase) + if u == t then 1 else 0
  {
  }

  lemma {:induction false} RunTaken(j: Job, states: seq<State>, schedule: seq<nat>, k: nat)
    requires Run(j, states, schedule) && k < |states|
    ensures Shaped(j, states[k]) && Taken(j, states[k], |states[k].workers|) == k
  {
    RunInv(j, states, schedule, k);
    if k == 0 {
      TakenBounds(j, states[0], |states[0].workers|);
    } else {
      RunTaken(j, states, schedule, k - 1);
      RunInv(j, states, schedule, k - 1);
      assert states[k - 1 + 1] == Step(j, states[k - 1], schedule[k - 1]);
      TakenStep(j, states[k - 1], schedule[k - 1], |states[k].workers|);
    }
  }

  /**
   No schedule takes more than five actions a coefficient, and one that can go no further has taken all
   of them, is finished, and has left the sequential sums.
   */
  lemma EveryScheduleFinishes(j: Job, states: seq<State>, schedule: seq<nat>)
    requires Run(j, states, schedule)
    ensures |schedule| <= 5 * |j.coefs|
    ensures var s := states[|schedule|];
      && Inv(j, s) && (Finished(j, s) <==> |schedule| == 5 * |j.coefs|)
      && ((forall t {:trigger CanStep(j, s, t)} | 0 <= t < |s.workers| :: !CanStep(j, s, t)) ==>
            && Finished(j, s) && s.a == RowSums(j.f, j.coefs, j.w, true) && s.b == RowSums(j.f, j.coefs, j.w, false))
  {
    hide RowSums, Taken, LocksOk, LoadsOk, CellsOk, CanStep;
    var s := states[|schedule|];
    EveryInterleavingSums(j, states, schedule, |schedule|);
    RunTaken(j, states, schedule, |schedule|);
    TakenBounds(j, s, |s.workers|);
    if !Finished(j, s) {
      var t := SomeoneCanStep(j, s);
    }
  }
}
