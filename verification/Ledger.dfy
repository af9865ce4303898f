/**
 The monthly allocator: floor shares of a revenue pool, rows that carry small or unpaid amounts
 forward, and what any sequence of months does to them.
 */
module Ledger {
  import opened Modular
  import opened Database

  datatype Status = CarriedForward | Paid | Applied
  datatype Row = Row(month: nat, recipient: string, amount: nat, status: Status)
  datatype Payout = Payout(recipient: string, amount: nat)
  datatype Group = Group(name: string, count: nat)
  /** How one payment ends: no lightning address found, success, or a failed payment. */
  datatype Outcome = NoAddress | Success | Failure

  /**
   The inputs of one run: the client and the agent of every login in the month, the two GROUP BY results, in
   whatever order the database returns them, the revenue, and how each agent's payment would end.
   */
  datatype Month = Month(index: nat, clients: seq<string>, agents: seq<string>, byClient: seq<Group>,
    byAgent: seq<Group>,
                         revenue: nat, outcome: string -> Outcome)

  // ---------------------------------------------------------------------------------------
  // GROUP BY
  // ---------------------------------------------------------------------------------------

  /** What `SELECT key, COUNT(*) ... GROUP BY key` guarantees. */
  ghost predicate Grouped(groups: seq<Group>, keys: seq<string>)
  {
    && (forall i, j {:trigger groups[i], groups[j]} :: 0 <= i < j < |groups| ==> groups[i].name != groups[j].name)
    && (forall i {:trigger groups[i]} :: 0 <= i < |groups| ==> groups[i].count == multiset(keys)[groups[i].name] > 0)
    && (forall k {:trigger keys[k]} :: 0 <= k < |keys| ==> Named(groups, keys[k]))
  }

  ghost predicate Named(groups: seq<Group>, name: string)
  {
    exists i :: 0 <= i < |groups| && groups[i].name == name
  }

  function Total(groups: seq<Group>): nat
    decreases |groups|
  {
    if groups == [] then 0 else Total(groups[..|groups| - 1]) + groups[|groups| - 1].count
  }

  function Without(keys: seq<string>, name: string): seq<string>
  {
    if keys == [] then []
    else if keys[0] == name then Without(keys[1..], name)
    else [keys[0]] + Without(keys[1..], name)
  }

  lemma {:induction false} WithoutCounts(keys: seq<string>, name: string)
    ensures |Without(keys, name)| == |keys| - multiset(keys)[name]
    ensures forall x :: multiset(Without(keys, name))[x] == if x == name then 0 else multiset(keys)[x]
    ensures forall x :: x in Without(keys, name) ==> x in keys && x != name
  {
    if keys == [] {
    } else {
      WithoutCounts(keys[1..], name);
      assert keys == [keys[0]] + keys[1..];
    }
  }

  lemma GroupedFront(groups: seq<Group>, keys: seq<string>)
    requires Grouped(groups, keys) && groups != []
    ensures var last := groups[|groups| - 1]; Grouped(groups[..|groups| - 1], Without(keys, last.name))
    ensures |keys| == |Without(keys, groups[|groups| - 1].name)| + groups[|groups| - 1].count
  {
    var last, front := groups[|groups| - 1], groups[..|groups| - 1];
    var rest := Without(keys, last.name);
    WithoutCounts(keys, last.name);
    forall k | 0 <= k < |rest| ensures Named(front, rest[k]) {
      assert rest[k] in rest && rest[k] in keys;
      StillNamed(groups, keys, rest[k]);
    }
    hide Named;
    forall i | 0 <= i < |front| ensures front[i].count == multiset(rest)[front[i].name] > 0 {
      CountKept(groups, keys, i);
    }
  }

  lemma CountKept(groups: seq<Group>, keys: seq<string>, i: nat)
    requires Grouped(groups, keys) && i < |groups| - 1
    ensures groups[i].count == multiset(Without(keys, groups[|groups| - 1].name))[groups[i].name] > 0
  {
    hide Named;
    WithoutCounts(keys, groups[|groups| - 1].name);
  }

  lemma StillNamed(groups: seq<Group>, keys: seq<string>, name: string)
    requires Grouped(groups, keys) && groups != [] && name in keys && name != groups[|groups| - 1].name
    ensures Named(groups[..|groups| - 1], name)
  {
    var j :| 0 <= j < |keys| && keys[j] == name;
    assert Named(groups, keys[j]);
    var i :| 0 <= i < |groups| && groups[i].name == name;
    assert groups[..|groups| - 1][i].name == name;
  }

  /** The counts of the groups add up to the number of rows. */
  lemma {:induction false} GroupsSum(groups: seq<Group>, keys: seq<string>)
    requires Grouped(groups, keys)
    ensures Total(groups) == |keys|
    decreases |groups|
  {
    if groups == [] {
      assert keys == [] || Named(groups, keys[0]);
    } else {
      GroupedFront(groups, keys);
      hide Grouped;
      GroupsSum(groups[..|groups| - 1], Without(keys, groups[|groups| - 1].name));
    }
  }

  ghost predicate MonthOk(m: Month)
  {
    |m.clients| == |m.agents| && Grouped(m.byClient, m.clients) && Grouped(m.byAgent, m.agents)
  }

  // ---------------------------------------------------------------------------------------
  // Shares
  // ---------------------------------------------------------------------------------------

  /** `int(total_revenue_sats * 0.15)`, the product read exactly. */
  function Pool(revenue: nat): nat { revenue * 15 / 100 }

  lemma PoolIsFifteenPercent(revenue: nat)
    ensures 100 * Pool(revenue) <= 15 * revenue < 100 * Pool(revenue) + 100
  {
  }

  /** `int(agent_pool * weight)` with `weight = login_count / total`, read exactly. */
  function Share(pool: nat, count: nat, total: nat): nat
    requires total > 0
  {
    pool * count / total
  }

  function Shares(pool: nat, groups: seq<Group>, total: nat): nat
    requires total > 0
    decreases |groups|
  {
    if groups == [] then 0
    else Shares(pool, groups[..|groups| - 1], total) + Share(pool, groups[|groups| - 1].count, total)
  }

  lemma ShareBounds(pool: nat, count: nat, total: nat)
    requires total > 0
    ensures total * Share(pool, count, total) <= pool * count < total * Share(pool, count, total) + total
  {
  }

  lemma {:induction false} SharesBounds(pool: nat, groups: seq<Group>, total: nat)
    requires total > 0
    ensures total * Shares(pool, groups, total) <= pool * Total(groups)
    ensures pool * Total(groups) <= total * Shares(pool, groups, total) + |groups| * (total - 1)
    decreases |groups|
  {
    if groups == [] {
      assert total * 0 == 0 && pool * 0 == 0 && 0 * (total - 1) == 0;
    } else {
      var front, c := groups[..|groups| - 1], groups[|groups| - 1].count;
      SharesBounds(pool, front, total);
      ShareBounds(pool, c, total);
      OneMore(pool, total, Shares(pool, front, total), Share(pool, c, total), Total(front), c, |front|);
    }
  }

  lemma OneMore(pool: nat, total: nat, s: nat, x: nat, t: nat, c: nat, n: nat)
    requires total > 0 && total * s <= pool * t <= total * s + n * (total - 1)
    requires total * x <= pool * c < total * x + total
    ensures total * (s + x) <= pool * (t + c) <= total * (s + x) + (n + 1) * (total - 1)
  {
    var u, v := total * s, pool * t;
    var w := n * (total - 1);
    assert total * (s + x) == u + total * x && pool * (t + c) == v + pool * c;
    assert (n + 1) * (total - 1) == w + (total - 1);
  }

  /** The shares of a month stay within the pool and miss it by less than one sat an agent. */
  lemma SharesFillPool(m: Month)
    requires MonthOk(m) && m.agents != []
    ensures var total := Total(m.byClient);
            total > 0 && var sum := Shares(Pool(m.revenue), m.byAgent, total);
            sum <= Pool(m.revenue) < sum + |m.byAgent|
  {
    var total, pool := Total(m.byClient), Pool(m.revenue);
    GroupsSum(m.byClient, m.clients);
    GroupsSum(m.byAgent, m.agents);
    SharesBounds(pool, m.byAgent, total);
    var sum, n := Shares(pool, m.byAgent, total), |m.byAgent|;
    assert n > 0 by {
      assert Named(m.byAgent, m.agents[0]);
    }
    Cancel(pool, sum, n, total);
  }

  lemma Cancel(pool: nat, sum: nat, n: nat, total: nat)
    requires total > 0 && n > 0 && total * sum <= pool * total <= total * sum + n * (total - 1)
    ensures sum <= pool < sum + n
  {
    FactorOrder(total, sum, pool);
    assert n * (total - 1) == n * total - n;
    assert total * (sum + n) == total * sum + n * total;
    FactorOrder(total, sum + n, pool);
  }

  lemma FactorOrder(k: int, x: int, y: int)
    requires k > 0
    ensures k * x <= k * y <==> x <= y
  {
    var d := y - x;
    assert k * d == k * y - k * x;
    MulAtLeast(k, d);
  }

  // ---------------------------------------------------------------------------------------
  // The payout table
  // ---------------------------------------------------------------------------------------

  /** Sum over the rows of one recipient that have a given status. */
  function Sum(rows: seq<Row>, recipient: string, status: Status): nat
    decreases |rows|
  {
    if rows == [] then 0
    else
      var row := rows[|rows| - 1];
      Sum(rows[..|rows| - 1], recipient, status)
      + if row.recipient == recipient && row.status == status then row.amount else 0
  }

  function Outstanding(rows: seq<Row>, recipient: string): nat { Sum(rows, recipient, CarriedForward) }

  function PaidTo(rows: seq<Row>, recipient: string): nat { Sum(rows, recipient, Paid) }

  /** The UPDATE of `clear_carried_forward`. */
  function Cleared(rows: seq<Row>, recipient: string): (r: seq<Row>)
    ensures |r| == |rows|
    decreases |rows|
  {
    if rows == [] then []
    else
      var row := rows[|rows| - 1];
      Cleared(rows[..|rows| - 1], recipient)
      + [if row.recipient == recipient && row.status == CarriedForward then row.(status := Applied) else row]
  }

  lemma {:induction false} ClearedSums(rows: seq<Row>, cleared: string, x: string)
    ensures PaidTo(Cleared(rows, cleared), x) == PaidTo(rows, x)
    ensures Outstanding(Cleared(rows, cleared), x) == if x == cleared then 0 else Outstanding(rows, x)
    decreases |rows|
  {
    if rows == [] {
    } else {
      ClearedSums(rows[..|rows| - 1], cleared, x);
      assert Cleared(rows, cleared)[..|rows| - 1] == Cleared(rows[..|rows| - 1], cleared);
    }
  }

  lemma SumAppend(rows: seq<Row>, row: Row, recipient: string, status: Status)
    ensures Sum(rows + [row], recipient, status)
         == Sum(rows, recipient, status) + if row.recipient == recipient && row.status == status then row.amount else 0
  {
    assert (rows + [row])[..|rows|] == rows;
  }

  // ---------------------------------------------------------------------------------------
  // One run
  // ---------------------------------------------------------------------------------------

  datatype Progress = Progress(rows: seq<Row>, payouts: seq<Payout>)

  /** Step 4 for one agent. */
  function Consider(p: Progress, m: Month, min: int, g: Group): Progress
    requires Total(m.byClient) > 0
  {
    var amount := Share(Pool(m.revenue), g.count, Total(m.byClient));
    var carried := Outstanding(p.rows, g.name);
    if amount + carried >= min then
      Progress(if carried > 0 then Cleared(p.rows, g.name) else p.rows, p.payouts + [Payout(g.name, amount + carried)])
    else if amount > 0 then p.(rows := p.rows + [Row(m.index, g.name, amount, CarriedForward)])
    else p
  }

  function ConsiderAll(rows: seq<Row>, m: Month, min: int, groups: seq<Group>): Progress
    requires Total(m.byClient) > 0
    decreases |groups|
  {
    if groups == [] then Progress(rows, [])
    else Consider(ConsiderAll(rows, m, min, groups[..|groups| - 1]), m, min, groups[|groups| - 1])
  }

  /** Step 5 for one payout. */
  function Settle(m: Month, p: Payout): Row
  {
    Row(m.index, p.recipient, p.amount, if m.outcome(p.recipient) == Success then Paid else CarriedForward)
  }

  function SettleAll(rows: seq<Row>, m: Month, payouts: seq<Payout>): seq<Row>
    decreases |payouts|
  {
    if payouts == [] then rows
    else SettleAll(rows, m, payouts[..|payouts| - 1]) + [Settle(m, payouts[|payouts| - 1])]
  }

  /** `run_allocation`, with its two early returns. */
  function Allocated(rows: seq<Row>, m: Month, min: int): seq<Row>
  {
    if Total(m.byClient) == 0 || m.revenue == 0 then rows
    else
      var p := ConsiderAll(rows, m, min, m.byAgent);
      SettleAll(p.rows, m, p.payouts)
  }

  class PayoutLog {
    var rows: seq<Row>

    constructor ()
      ensures rows == []
    {
      rows := [];
    }

    method GetCarriedForward(recipient: string) returns (total: nat)
      ensures total == Outstanding(rows, recipient)
    {
      total := 0;
      for k := 0 to |rows|
        invariant total == Outstanding(rows[..k], recipient)
      {
        assert rows[..k + 1][..k] == rows[..k];
        if rows[k].recipient == recipient && rows[k].status == CarriedForward {
          total := total + rows[k].amount;
        }
      }
      assert rows[..|rows|] == rows;
    }

    method ClearCarriedForward(recipient: string)
      modifies this
      ensures rows == Cleared(old(rows), recipient)
    {
      var updated: seq<Row> := [];
      for k := 0 to |rows|
        invariant updated == Cleared(rows[..k], recipient)
      {
        assert rows[..k + 1][..k] == rows[..k];
        var row := rows[k];
        var clears := row.recipient == recipient && row.status == CarriedForward;
        updated := updated + [if clears then row.(status := Applied) else row];
      }
      assert rows[..|rows|] == rows;
      rows := updated;
    }

    method RecordPayout(month: nat, payout: Payout, status: Status)
      modifies this
      ensures rows == old(rows) + [Row(month, payout.recipient, payout.amount, status)]
    {
      rows := rows + [Row(month, payout.recipient, payout.amount, status)];
    }

    method RunAllocation(m: Month, min: int)
      requires MonthOk(m)
      modifies this
      ensures rows == Allocated(old(rows), m, min)
    {
      hide Cleared, Outstanding, Share, Pool, MonthOk;
      var total := Total(m.byClient);
      if total == 0 {
        return;
      }
      if m.revenue == 0 {
        return;
      }
      var pool := Pool(m.revenue);
      var payouts: seq<Payout> := [];
      for k := 0 to |m.byAgent|
        invariant Progress(rows, payouts) == ConsiderAll(old(rows), m, min, m.byAgent[..k])
      {
        assert m.byAgent[..k + 1][..k] == m.byAgent[..k];
        var g := m.byAgent[k];
        var amount := Share(pool, g.count, total);
        var carried := GetCarriedForward(g.name);
        if amount + carried >= min {
          payouts := payouts + [Payout(g.name, amount + carried)];
          if carried > 0 {
            ClearCarriedForward(g.name);
          }
        } else if amount > 0 {
          RecordPayout(m.index, Payout(g.name, amount), CarriedForward);
        }
      }
      assert m.byAgent[..|m.byAgent|] == m.byAgent;
      ghost var considered := rows;
      for k := 0 to |payouts|
        invariant rows == SettleAll(considered, m, payouts[..k])
      {
        assert payouts[..k + 1][..k] == payouts[..k];
        var payout := payouts[k];
        match m.outcome(payout.recipient)
        case NoAddress => RecordPayout(m.index, payout, CarriedForward);
        case Success => RecordPayout(m.index, payout, Paid);
        case Failure => RecordPayout(m.index, payout, CarriedForward);
      }
      assert payouts[..|payouts|] == payouts;
    }
  }

  // ---------------------------------------------------------------------------------------
  // Conservation
  // ---------------------------------------------------------------------------------------

  /** The share of one agent in a month. */
  function ShareOf(m: Month, groups: seq<Group>, x: string): nat
    requires Total(m.byClient) > 0
    decreases |groups|
  {
    if groups == [] then 0
    else
      var g := groups[|groups| - 1];
      ShareOf(m, groups[..|groups| - 1], x)
      + if g.name == x then Share(Pool(m.revenue), g.count, Total(m.byClient)) else 0
  }

  function Earned(m: Month, x: string): nat
  {
    if Total(m.byClient) == 0 || m.revenue == 0 then 0 else ShareOf(m, m.byAgent, x)
  }

  function Pending(payouts: seq<Payout>, x: string): nat
    decreases |payouts|
  {
    if payouts == [] then 0
    else
      var p := payouts[|payouts| - 1];
      Pending(payouts[..|payouts| - 1], x) + if p.recipient == x then p.amount else 0
  }

  /** Everything an agent has been paid or is still owed. */
  function Balance(rows: seq<Row>, x: string): nat { PaidTo(rows, x) + Outstanding(rows, x) }

  lemma BalanceAppend(rows: seq<Row>, row: Row, x: string)
    requires row.status != Applied
    ensures Balance(rows + [row], x) == Balance(rows, x) + if row.recipient == x then row.amount else 0
  {
    SumAppend(rows, row, x, Paid);
    SumAppend(rows, row, x, CarriedForward);
  }

  lemma PendingAppend(payouts: seq<Payout>, p: Payout, x: string)
    ensures Pending(payouts + [p], x) == Pending(payouts, x) + if p.recipient == x then p.amount else 0
  {
    assert (payouts + [p])[..|payouts|] == payouts;
  }

  lemma ConsiderKeeps(p: Progress, m: Month, min: int, g: Group, x: string)
    requires Total(m.byClient) > 0
    ensures var r := Consider(p, m, min, g);
            Balance(r.rows, x) + Pending(r.payouts, x)
            == Balance(p.rows, x) + Pending(p.payouts, x)
               + if g.name == x then Share(Pool(m.revenue), g.count, Total(m.byClient)) else 0
  {
    hide Pending, Sum, Cleared, Share;
    var amount := Share(Pool(m.revenue), g.count, Total(m.byClient));
    ClearedSums(p.rows, g.name, x);
    PendingAppend(p.payouts, Payout(g.name, amount + Outstanding(p.rows, g.name)), x);
    BalanceAppend(p.rows, Row(m.index, g.name, amount, CarriedForward), x);
  }

  lemma {:induction false} ConsiderAllKeeps(rows: seq<Row>, m: Month, min: int, groups: seq<Group>, x: string)
    requires Total(m.byClient) > 0
    ensures var r := ConsiderAll(rows, m, min, groups);
            Balance(r.rows, x) + Pending(r.payouts, x) == Balance(rows, x) + ShareOf(m, groups, x)
    decreases |groups|
  {
    hide Balance, Consider;
    if groups == [] {
    } else {
      ConsiderAllKeeps(rows, m, min, groups[..|groups| - 1], x);
      ConsiderKeeps(ConsiderAll(rows, m, min, groups[..|groups| - 1]), m, min, groups[|groups| - 1], x);
    }
  }

  lemma {:induction false} SettleAllKeeps(rows: seq<Row>, m: Month, payouts: seq<Payout>, x: string)
    ensures Balance(SettleAll(rows, m, payouts), x) == Balance(rows, x) + Pending(payouts, x)
    decreases |payouts|
  {
    hide Balance;
    if payouts == [] {
    } else {
      var front, last := payouts[..|payouts| - 1], payouts[|payouts| - 1];
      SettleAllKeeps(rows, m, front, x);
      BalanceAppend(SettleAll(rows, m, front), Settle(m, last), x);
    }
  }

  /** One run moves exactly the agent's share into its balance. */
  lemma AllocatedKeeps(rows: seq<Row>, m: Month, min: int, x: string)
    ensures Balance(Allocated(rows, m, min), x) == Balance(rows, x) + Earned(m, x)
  {
    hide Balance, Pending;
    if Total(m.byClient) > 0 && m.revenue > 0 {
      var p := ConsiderAll(rows, m, min, m.byAgent);
      ConsiderAllKeeps(rows, m, min, m.byAgent, x);
      SettleAllKeeps(p.rows, m, p.payouts, x);
    }
  }

  // ---------------------------------------------------------------------------------------
  // Any sequence of runs
  // ---------------------------------------------------------------------------------------

  function Ledger(months: seq<Month>, min: int): seq<Row>
    decreases |months|
  {
    if months == [] then [] else Allocated(Ledger(months[..|months| - 1], min), months[|months| - 1], min)
  }

  function EarnedOver(months: seq<Month>, x: string): nat
    decreases |months|
  {
    if months == [] then 0 else EarnedOver(months[..|months| - 1], x) + Earned(months[|months| - 1], x)
  }

  /**
   Conservation: whatever the months bring and however the payments end, each agent's shares add up to
   what it was paid plus what is still carried forward.
   */
  lemma {:induction false} SharesConserved(months: seq<Month>, min: int, x: string)
    ensures EarnedOver(months, x) == PaidTo(Ledger(months, min), x) + Outstanding(Ledger(months, min), x)
    decreases |months|
  {
    hide Allocated, Earned;
    if months == [] {
    } else {
      SharesConserved(months[..|months| - 1], min, x);
      AllocatedKeeps(Ledger(months[..|months| - 1], min), months[|months| - 1], min, x);
    }
  }

  // ---------------------------------------------------------------------------------------
  // Solvency
  // ---------------------------------------------------------------------------------------

  /** Sum over all rows with a given status, whoever the recipient. */
  function Amounts(rows: seq<Row>, status: Status): nat
    decreases |rows|
  {
    if rows == [] then 0
    else
      var row := rows[|rows| - 1];
      Amounts(rows[..|rows| - 1], status) + if row.status == status then row.amount else 0
  }

  /** Everything ever paid, and everything still owed. */
  function Liabilities(rows: seq<Row>): nat { Amounts(rows, Paid) + Amounts(rows, CarriedForward) }

  function Promised(payouts: seq<Payout>): nat
    decreases |payouts|
  {
    if payouts == [] then 0 else Promised(payouts[..|payouts| - 1]) + payouts[|payouts| - 1].amount
  }

  lemma LiabilitiesAppend(rows: seq<Row>, row: Row)
    requires row.status != Applied
    ensures Liabilities(rows + [row]) == Liabilities(rows) + row.amount
  {
    assert (rows + [row])[..|rows|] == rows;
  }

  lemma PromisedAppend(payouts: seq<Payout>, p: Payout)
    ensures Promised(payouts + [p]) == Promised(payouts) + p.amount
  {
    assert (payouts + [p])[..|payouts|] == payouts;
  }

  /** Clearing takes exactly one recipient's balance off the books. */
  lemma {:induction false} ClearedLiabilities(rows: seq<Row>, x: string)
    ensures Liabilities(Cleared(rows, x)) + Outstanding(rows, x) == Liabilities(rows)
    decreases |rows|
  {
    if rows == [] {
    } else {
      ClearedLiabilities(rows[..|rows| - 1], x);
      assert Cleared(rows, x)[..|rows| - 1] == Cleared(rows[..|rows| - 1], x);
    }
  }

  lemma ConsiderOwes(p: Progress, m: Month, min: int, g: Group)
    requires Total(m.byClient) > 0
    ensures var r := Consider(p, m, min, g);
            Liabilities(r.rows) + Promised(r.payouts)
            == Liabilities(p.rows) + Promised(p.payouts) + Share(Pool(m.revenue), g.count, Total(m.byClient))
  {
    hide Promised, Outstanding, Liabilities, Cleared, Share;
    var amount := Share(Pool(m.revenue), g.count, Total(m.byClient));
    ClearedLiabilities(p.rows, g.name);
    PromisedAppend(p.payouts, Payout(g.name, amount + Outstanding(p.rows, g.name)));
    LiabilitiesAppend(p.rows, Row(m.index, g.name, amount, CarriedForward));
  }

  lemma {:induction false} ConsiderAllOwes(rows: seq<Row>, m: Month, min: int, groups: seq<Group>)
    requires Total(m.byClient) > 0
    ensures var r := ConsiderAll(rows, m, min, groups);
            Liabilities(r.rows) + Promised(r.payouts)
            == Liabilities(rows) + Shares(Pool(m.revenue), groups, Total(m.byClient))
    decreases |groups|
  {
    hide Liabilities, Consider, Share, Pool;
    if groups == [] {
    } else {
      ConsiderAllOwes(rows, m, min, groups[..|groups| - 1]);
      ConsiderOwes(ConsiderAll(rows, m, min, groups[..|groups| - 1]), m, min, groups[|groups| - 1]);
    }
  }

  lemma {:induction false} SettleAllOwes(rows: seq<Row>, m: Month, payouts: seq<Payout>)
    ensures Liabilities(SettleAll(rows, m, payouts)) == Liabilities(rows) + Promised(payouts)
    decreases |payouts|
  {
    hide Liabilities;
    if payouts == [] {
    } else {
      var front, last := payouts[..|payouts| - 1], payouts[|payouts| - 1];
      SettleAllOwes(rows, m, front);
      LiabilitiesAppend(SettleAll(rows, m, front), Settle(m, last));
    }
  }

  /** What a month may leave undistributed: less than one sat an agent, or the pool if nobody logged in. */
  function Remainder(m: Month): nat
  {
    if m.byAgent == [] then Pool(m.revenue) else |m.byAgent| - 1
  }

  /** One run adds the pool to what is paid or owed, up to the remainder. */
  lemma AllocatedOwes(rows: seq<Row>, m: Month, min: int)
    requires MonthOk(m)
    ensures var after := Liabilities(Allocated(rows, m, min));
      after <= Liabilities(rows) + Pool(m.revenue) <= after + Remainder(m)
  {
    GroupsSum(m.byClient, m.clients);
    assert m.agents != [] ==> Named(m.byAgent, m.agents[0]);
    assert m.byAgent != [] ==> multiset(m.agents)[m.byAgent[0].name] > 0;
    hide Liabilities, Promised, Grouped, Named, Total;
    if m.agents != [] {
      SharesFillPool(m);
      hide Shares;
      if m.revenue > 0 {
        var p := ConsiderAll(rows, m, min, m.byAgent);
        ConsiderAllOwes(rows, m, min, m.byAgent);
        SettleAllOwes(p.rows, m, p.payouts);
      }
    }
  }

  function Pools(months: seq<Month>): nat
    decreases |months|
  {
    if months == [] then 0 else Pools(months[..|months| - 1]) + Pool(months[|months| - 1].revenue)
  }

  function Remainders(months: seq<Month>): nat
    decreases |months|
  {
    if months == [] then 0 else Remainders(months[..|months| - 1]) + Remainder(months[|months| - 1])
  }

  /**
   Solvency: whatever the months bring and however the payments end, all that was ever paid and all that is
   still owed together stay within the pools, and miss them by no more than the remainders.
   */
  lemma {:induction false} PoolsCoverLiabilities(months: seq<Month>, min: int)
    requires forall k {:trigger months[k]} :: 0 <= k < |months| ==> MonthOk(months[k])
    ensures Liabilities(Ledger(months, min)) <= Pools(months) <= Liabilities(Ledger(months, min)) + Remainders(months)
    decreases |months|
  {
    hide Allocated, MonthOk, Pool, Remainder;
    if months == [] {
    } else {
      var front := months[..|months| - 1];
      assert forall k {:trigger front[k]} :: 0 <= k < |front| ==> front[k] == months[k];
      PoolsCoverLiabilities(front, min);
      AllocatedOwes(Ledger(front, min), months[|months| - 1], min);
    }
  }

  // ---------------------------------------------------------------------------------------
  // Payments
  // ---------------------------------------------------------------------------------------

  ghost predicate PaidRowsReach(rows: seq<Row>, min: int)
  {
    forall k {:trigger rows[k]} :: 0 <= k < |rows| && rows[k].status == Paid ==> rows[k].amount >= min
  }

  ghost predicate PayoutsReach(payouts: seq<Payout>, min: int)
  {
    forall k {:trigger payouts[k]} :: 0 <= k < |payouts| ==> payouts[k].amount >= min
  }

  lemma {:induction false} ClearedRows(rows: seq<Row>, x: string, min: int)
    requires PaidRowsReach(rows, min)
    ensures PaidRowsReach(Cleared(rows, x), min)
    decreases |rows|
  {
    if rows == [] {
    } else {
      var front := rows[..|rows| - 1];
      assert PaidRowsReach(front, min) by {
        assert forall k :: 0 <= k < |front| ==> front[k] == rows[k];
      }
      ClearedRows(front, x, min);
    }
  }

  lemma {:induction false} ConsiderAllReach(rows: seq<Row>, m: Month, min: int, groups: seq<Group>)
    requires Total(m.byClient) > 0 && PaidRowsReach(rows, min)
    ensures var r := ConsiderAll(rows, m, min, groups); PaidRowsReach(r.rows, min) && PayoutsReach(r.payouts, min)
    decreases |groups|
  {
    hide Cleared, Outstanding, Share, Pool;
    if groups == [] {
    } else {
      var p := ConsiderAll(rows, m, min, groups[..|groups| - 1]);
      ConsiderAllReach(rows, m, min, groups[..|groups| - 1]);
      ClearedRows(p.rows, groups[|groups| - 1].name, min);
    }
  }

  lemma {:induction false} SettleAllReach(rows: seq<Row>, m: Month, payouts: seq<Payout>, min: int)
    requires PaidRowsReach(rows, min) && PayoutsReach(payouts, min)
    ensures PaidRowsReach(SettleAll(rows, m, payouts), min)
    decreases |payouts|
  {
    if payouts == [] {
    } else {
      var front := payouts[..|payouts| - 1];
      assert PayoutsReach(front, min) by {
        assert forall k :: 0 <= k < |front| ==> front[k] == payouts[k];
      }
      SettleAllReach(rows, m, front, min);
    }
  }

  /** No payment below the minimum is ever recorded. */
  lemma {:induction false} NoSmallPayment(months: seq<Month>, min: int)
    ensures PaidRowsReach(Ledger(months, min), min)
    decreases |months|
  {
    if months == [] {
    } else {
      var m, rows := months[|months| - 1], Ledger(months[..|months| - 1], min);
      NoSmallPayment(months[..|months| - 1], min);
      if Total(m.byClient) > 0 && m.revenue > 0 {
        ConsiderAllReach(rows, m, min, m.byAgent);
        var p := ConsiderAll(rows, m, min, m.byAgent);
        SettleAllReach(p.rows, m, p.payouts, min);
      }
    }
  }

  // ---------------------------------------------------------------------------------------
  // What stays unpaid
  // ---------------------------------------------------------------------------------------

  /** Every payment to this agent succeeds; what happens to others does not matter. */
  ghost predicate PaymentsSucceed(months: seq<Month>, x: string)
  {
    forall k {:trigger months[k]} :: 0 <= k < |months| ==> months[k].outcome(x) == Success
  }

  lemma ConsiderBelow(p: Progress, m: Month, min: int, g: Group, x: string)
    requires Total(m.byClient) > 0 && Outstanding(p.rows, x) < min
    ensures Outstanding(Consider(p, m, min, g).rows, x) < min
  {
    hide Sum, Cleared, Share;
    var amount := Share(Pool(m.revenue), g.count, Total(m.byClient));
    ClearedSums(p.rows, g.name, x);
    SumAppend(p.rows, Row(m.index, g.name, amount, CarriedForward), x, CarriedForward);
  }

  lemma {:induction false} ConsiderAllBelow(rows: seq<Row>, m: Month, min: int, groups: seq<Group>, x: string)
    requires Total(m.byClient) > 0 && Outstanding(rows, x) < min
    ensures Outstanding(ConsiderAll(rows, m, min, groups).rows, x) < min
    decreases |groups|
  {
    hide Outstanding, Consider;
    if groups == [] {
    } else {
      ConsiderAllBelow(rows, m, min, groups[..|groups| - 1], x);
      ConsiderBelow(ConsiderAll(rows, m, min, groups[..|groups| - 1]), m, min, groups[|groups| - 1], x);
    }
  }

  lemma {:induction false} SettleAllPays(rows: seq<Row>, m: Month, payouts: seq<Payout>, x: string)
    requires m.outcome(x) == Success
    ensures Outstanding(SettleAll(rows, m, payouts), x) == Outstanding(rows, x)
    decreases |payouts|
  {
    hide Sum;
    if payouts == [] {
    } else {
      var front, last := payouts[..|payouts| - 1], payouts[|payouts| - 1];
      SettleAllPays(rows, m, front, x);
      SumAppend(SettleAll(rows, m, front), Settle(m, last), x, CarriedForward);
    }
  }

  /** While the payments to an agent succeed, what it is still owed stays below the minimum. */
  lemma {:induction false} OwedBelowMinimum(months: seq<Month>, min: int, x: string)
    requires min > 0 && PaymentsSucceed(months, x)
    ensures Outstanding(Ledger(months, min), x) < min
    decreases |months|
  {
    hide Outstanding;
    if months == [] {
      NothingOwed(x);
    } else {
      var m, front := months[|months| - 1], months[..|months| - 1];
      assert PaymentsSucceed(front, x) by {
        assert forall k :: 0 <= k < |front| ==> front[k] == months[k];
      }
      OwedBelowMinimum(front, min, x);
      if Total(m.byClient) > 0 && m.revenue > 0 {
        ConsiderAllBelow(Ledger(front, min), m, min, m.byAgent, x);
        var p := ConsiderAll(Ledger(front, min), m, min, m.byAgent);
        SettleAllPays(p.rows, m, p.payouts, x);
      }
    }
  }

  lemma NothingOwed(x: string)
    ensures Outstanding([], x) == 0
  {
  }

  // ---------------------------------------------------------------------------------------
  // What an outcome does
  // ---------------------------------------------------------------------------------------

  /** An agent is looked at in a month in which it logged in and there is revenue. */
  ghost predicate Active(m: Month, x: string) { x in m.agents && m.revenue > 0 }

  ghost predicate DistinctNames(groups: seq<Group>)
  {
    forall i, j {:trigger groups[i], groups[j]} :: 0 <= i < j < |groups| ==> groups[i].name != groups[j].name
  }

  lemma ConsiderOther(p: Progress, m: Month, min: int, g: Group, x: string)
    requires Total(m.byClient) > 0 && g.name != x
    ensures var r := Consider(p, m, min, g);
      && PaidTo(r.rows, x) == PaidTo(p.rows, x) && Outstanding(r.rows, x) == Outstanding(p.rows, x)
      && Pending(r.payouts, x) == Pending(p.payouts, x)
  {
    hide Pending, Sum, Cleared, Share;
    var amount := Share(Pool(m.revenue), g.count, Total(m.byClient));
    var row := Row(m.index, g.name, amount, CarriedForward);
    ClearedSums(p.rows, g.name, x);
    PendingAppend(p.payouts, Payout(g.name, amount + Outstanding(p.rows, g.name)), x);
    SumAppend(p.rows, row, x, CarriedForward);
    SumAppend(p.rows, row, x, Paid);
  }

  lemma ConsiderOwn(p: Progress, m: Month, min: int, g: Group)
    requires Total(m.byClient) > 0 && Pending(p.payouts, g.name) == 0
    ensures var r := Consider(p, m, min, g);
      var due := Outstanding(p.rows, g.name) + Share(Pool(m.revenue), g.count, Total(m.byClient));
      && PaidTo(r.rows, g.name) == PaidTo(p.rows, g.name)
      && Outstanding(r.rows, g.name) == (if due >= min then 0 else due)
      && Pending(r.payouts, g.name) == if due >= min then due else 0
  {
    hide Pending, Sum, Cleared, Share;
    var amount := Share(Pool(m.revenue), g.count, Total(m.byClient));
    var row := Row(m.index, g.name, amount, CarriedForward);
    ClearedSums(p.rows, g.name, g.name);
    PendingAppend(p.payouts, Payout(g.name, amount + Outstanding(p.rows, g.name)), g.name);
    SumAppend(p.rows, row, g.name, CarriedForward);
    SumAppend(p.rows, row, g.name, Paid);
  }

  /** After step 4: nothing has been paid yet, and what is due is either promised whole or carried whole. */
  lemma {:induction false} ConsideredSums(rows: seq<Row>, m: Month, min: int, groups: seq<Group>, x: string)
    requires Total(m.byClient) > 0 && DistinctNames(groups)
    ensures var r := ConsiderAll(rows, m, min, groups);
      var due := Outstanding(rows, x) + ShareOf(m, groups, x);
      var promised := Named(groups, x) && due >= min;
      && PaidTo(r.rows, x) == PaidTo(rows, x)
      && Outstanding(r.rows, x) == (if promised then 0 else due)
      && Pending(r.payouts, x) == (if promised then due else 0)
      && (!Named(groups, x) ==> ShareOf(m, groups, x) == 0)
    decreases |groups|
  {
    hide Outstanding, PaidTo, Consider, Share, Pool;
    if groups == [] {
    } else {
      var front, last := groups[..|groups| - 1], groups[|groups| - 1];
      ConsideredSums(rows, m, min, front, x);
      NamedLast(groups, x);
      hide Named;
      if last.name == x {
        ConsiderOwn(ConsiderAll(rows, m, min, front), m, min, last);
      } else {
        ConsiderOther(ConsiderAll(rows, m, min, front), m, min, last, x);
      }
    }
  }

  lemma NamedLast(groups: seq<Group>, x: string)
    requires groups != [] && DistinctNames(groups)
    ensures var front, last := groups[..|groups| - 1], groups[|groups| - 1];
      DistinctNames(front) && (Named(groups, x) <==> Named(front, x) || last.name == x)
      && (last.name == x ==> !Named(front, x))
  {
    var front := groups[..|groups| - 1];
    if Named(front, x) {
      var i :| 0 <= i < |front| && front[i].name == x;
      assert groups[i].name == x;
    }
    if Named(groups, x) && groups[|groups| - 1].name != x {
      var i :| 0 <= i < |groups| && groups[i].name == x;
      assert front[i].name == x;
    }
  }

  /** Step 5 turns what is promised into paid or carried rows, according to how the payment ends. */
  lemma {:induction false} SettledSums(rows: seq<Row>, m: Month, payouts: seq<Payout>, x: string)
    ensures var r, paid := SettleAll(rows, m, payouts), m.outcome(x) == Success;
      && PaidTo(r, x) == PaidTo(rows, x) + (if paid then Pending(payouts, x) else 0)
      && Outstanding(r, x) == Outstanding(rows, x) + if paid then 0 else Pending(payouts, x)
    decreases |payouts|
  {
    hide Sum;
    if payouts == [] {
    } else {
      var front, last := payouts[..|payouts| - 1], payouts[|payouts| - 1];
      SettledSums(rows, m, front, x);
      SumAppend(SettleAll(rows, m, front), Settle(m, last), x, CarriedForward);
      SumAppend(SettleAll(rows, m, front), Settle(m, last), x, Paid);
    }
  }

  /**
   What one month does to one agent, by how its payment ends.  The agent is paid exactly when it is looked at,
   share and balance together reach the minimum, and the payment succeeds; then it is paid all of both, and
   nothing is left owing.  In every other case nothing is paid and the whole share is added to what is owed.
   */
  lemma MonthSettles(rows: seq<Row>, m: Month, min: int, x: string)
    requires MonthOk(m)
    ensures var after := Allocated(rows, m, min);
      var due := Outstanding(rows, x) + Earned(m, x);
      if Active(m, x) && due >= min && m.outcome(x) == Success
      then PaidTo(after, x) == PaidTo(rows, x) + due && Outstanding(after, x) == 0
      else PaidTo(after, x) == PaidTo(rows, x) && Outstanding(after, x) == due
  {
    GroupsSum(m.byClient, m.clients);
    NamedIfCounted(m.byAgent, m.agents, x);
    hide Outstanding, PaidTo, Named, Total, ShareOf;
    if m.agents == [] || m.revenue == 0 {
      assert Earned(m, x) == 0;
    } else {
      assert DistinctNames(m.byAgent);
      ConsideredSums(rows, m, min, m.byAgent, x);
      var p := ConsiderAll(rows, m, min, m.byAgent);
      SettledSums(p.rows, m, p.payouts, x);
    }
  }

  /** A run changes no earlier row but to mark it applied, and adds only rows of its own month. */
  ghost predicate Extends(rows: seq<Row>, after: seq<Row>, month: nat)
  {
    && |rows| <= |after|
    && (forall k {:trigger after[k]} :: 0 <= k < |rows| ==>
          after[k] == rows[k] || (rows[k].status == CarriedForward && after[k] == rows[k].(status := Applied)))
    && forall k {:trigger after[k]} :: |rows| <= k < |after| ==> after[k].month == month
  }

  lemma {:induction false} ClearedAt(rows: seq<Row>, x: string, k: nat)
    requires k < |rows|
    ensures Cleared(rows, x)[k]
         == if rows[k].recipient == x && rows[k].status == CarriedForward then rows[k].(status := Applied) else rows[k]
    decreases |rows|
  {
    if k == |rows| - 1 {
    } else {
      ClearedAt(rows[..|rows| - 1], x, k);
    }
  }

  lemma {:induction false} ConsiderAllExtends(rows: seq<Row>, m: Month, min: int, groups: seq<Group>)
    requires Total(m.byClient) > 0
    ensures Extends(rows, ConsiderAll(rows, m, min, groups).rows, m.index)
    decreases |groups|
  {
    hide Cleared, Outstanding, Share, Pool;
    if groups == [] {
    } else {
      var g, p := groups[|groups| - 1], ConsiderAll(rows, m, min, groups[..|groups| - 1]);
      ConsiderAllExtends(rows, m, min, groups[..|groups| - 1]);
      forall k | 0 <= k < |p.rows|
        ensures Cleared(p.rows, g.name)[k] == p.rows[k]
             || (p.rows[k].status == CarriedForward && Cleared(p.rows, g.name)[k] == p.rows[k].(status := Applied))
      {
        ClearedAt(p.rows, g.name, k);
      }
    }
  }

  lemma {:induction false} SettleAllExtends(rows: seq<Row>, m: Month, payouts: seq<Payout>)
    ensures |SettleAll(rows, m, payouts)| == |rows| + |payouts|
    ensures SettleAll(rows, m, payouts)[..|rows|] == rows
    ensures forall k {:trigger payouts[k]} :: 0 <= k < |payouts| ==>
      SettleAll(rows, m, payouts)[|rows| + k] == Settle(m, payouts[k])
    decreases |payouts|
  {
    hide Settle;
    if payouts == [] {
    } else {
      SettleAllExtends(rows, m, payouts[..|payouts| - 1]);
    }
  }

  lemma AllocatedExtends(rows: seq<Row>, m: Month, min: int)
    ensures Extends(rows, Allocated(rows, m, min), m.index)
  {
    if Total(m.byClient) == 0 || m.revenue == 0 {
    } else {
      var p := ConsiderAll(rows, m, min, m.byAgent);
      var after := SettleAll(p.rows, m, p.payouts);
      ConsiderAllExtends(rows, m, min, m.byAgent);
      SettleAllExtends(p.rows, m, p.payouts);
      hide ConsiderAll, SettleAll, Total;
      forall k {:trigger after[k]} | 0 <= k < |p.rows| ensures after[k] == p.rows[k] {
        assert after[..|p.rows|][k] == after[k];
      }
      forall k {:trigger after[k]} | |p.rows| <= k < |after| ensures after[k].month == m.index {
        assert after[|p.rows| + (k - |p.rows|)] == Settle(m, p.payouts[k - |p.rows|]);
      }
    }
  }

  // ---------------------------------------------------------------------------------------
  // Shares in terms of logins
  // ---------------------------------------------------------------------------------------

  lemma {:induction false} ShareOfNamed(m: Month, groups: seq<Group>, x: string, count: nat)
    requires Total(m.byClient) > 0
    requires forall i, j {:trigger groups[i], groups[j]} :: 0 <= i < j < |groups| ==> groups[i].name != groups[j].name
    requires forall i {:trigger groups[i]} :: 0 <= i < |groups| && groups[i].name == x ==> groups[i].count == count
    ensures ShareOf(m, groups, x) == if Named(groups, x) then Share(Pool(m.revenue), count, Total(m.byClient)) else 0
    decreases |groups|
  {
    hide Share, Pool;
    if groups == [] {
    } else {
      var front, last := groups[..|groups| - 1], groups[|groups| - 1];
      ShareOfNamed(m, front, x, count);
      if Named(front, x) {
        var i :| 0 <= i < |front| && front[i].name == x;
        assert groups[i].name == x;
      }
      if Named(groups, x) && last.name != x {
        var i :| 0 <= i < |groups| && groups[i].name == x;
        assert front[i].name == x;
      }
    }
  }

  lemma NamedIfCounted(groups: seq<Group>, keys: seq<string>, x: string)
    requires Grouped(groups, keys)
    ensures Named(groups, x) <==> multiset(keys)[x] > 0
  {
    if multiset(keys)[x] > 0 {
      assert x in keys;
      var k :| 0 <= k < |keys| && keys[k] == x;
      assert Named(groups, keys[k]);
    }
  }

  /** An agent earns the pool times its logins over all logins of the month, rounded down. */
  lemma EarnedIsProportional(m: Month, x: string)
    requires MonthOk(m) && m.agents != []
    ensures Earned(m, x) == Pool(m.revenue) * multiset(m.agents)[x] / |m.agents|
  {
    hide Named, Total, ShareOf;
    var n := multiset(m.agents)[x];
    GroupsSum(m.byClient, m.clients);
    ShareOfNamed(m, m.byAgent, x, n);
    NamedIfCounted(m.byAgent, m.agents, x);
    ZeroShare(|m.agents|, n);
    ZeroShare(|m.agents|, Pool(m.revenue));
  }

  lemma ZeroShare(total: nat, k: nat)
    requires total > 0
    ensures 0 * k / total == 0 == k * 0 / total
  {
    assert 0 * k == 0 == k * 0;
  }

  // ---------------------------------------------------------------------------------------
  // Months
  // ---------------------------------------------------------------------------------------

  predicate Leap(year: nat) { year % 4 == 0 && (year % 100 != 0 || year % 400 == 0) }

  /** Days in month number i, counted from January of year 0. */
  function DaysIn(i: nat): (days: nat)
    ensures 28 <= days <= 31
  {
    var mon := i % 12 + 1;
    if mon == 2 then (if Leap(i / 12) then 29 else 28)
    else if mon in {4, 6, 9, 11} then 30
    else 31
  }

  function DaysBefore(i: nat): nat
  {
    if i == 0 then 0 else DaysBefore(i - 1) + DaysIn(i - 1)
  }

  /** Unix time of the first midnight of a month. */
  function Midnight(year: nat, mon: nat): int
    requires 1 <= mon <= 12
  {
    86400 * (DaysBefore(12 * year + mon - 1) - DaysBefore(12 * 1970))
  }

  /** `get_month_boundaries`, the text already split into year and month. */
  function Boundaries(year: nat, mon: nat): (int, int)
    requires 1 <= mon <= 12
  {
    (Midnight(year, mon), if mon == 12 then Midnight(year + 1, 1) else Midnight(year, mon + 1))
  }

  lemma {:induction false} DaysGrow(i: nat, j: nat)
    requires i < j
    ensures DaysBefore(i) < DaysBefore(j)
    decreases j
  {
    if i >= j - 1 {
    } else {
      DaysGrow(i, j - 1);
    }
  }

  /** A month's window is one month long, ends where the next begins, and shares no second with another's. */
  lemma MonthsDoNotOverlap(year: nat, mon: nat, year': nat, mon': nat, t: int)
    requires 1 <= mon <= 12 && 1 <= mon' <= 12
    requires Boundaries(year, mon).0 <= t < Boundaries(year, mon).1
    ensures Boundaries(year, mon).1 - Boundaries(year, mon).0 == 86400 * DaysIn(12 * year + mon - 1)
    ensures Boundaries(year', mon').0 <= t < Boundaries(year', mon').1 <==> (year, mon) == (year', mon')
  {
    hide DaysBefore, DaysIn;
    var i, j := 12 * year + mon - 1, 12 * year' + mon' - 1;
    MonthLength(i);
    MonthLength(j);
    if i < j {
      if i + 1 < j {
        DaysGrow(i + 1, j);
      }
    } else if j < i {
      if j + 1 < i {
        DaysGrow(j + 1, i);
      }
    }
  }

  lemma MonthLength(i: nat)
    ensures DaysBefore(i + 1) == DaysBefore(i) + DaysIn(i)
  {
  }

  /** Days before January of year y, counted without looking at any single year. */
  function DaysTo(y: nat): int { 365 * y + (y + 3) / 4 - (y + 99) / 100 + (y + 399) / 400 }

  lemma TwelveMonths(y: nat)
    ensures DaysBefore(12 * y + 12) == DaysBefore(12 * y) + if Leap(y) then 366 else 365
  {
    hide DaysBefore, DaysIn, Leap;
    var i := 12 * y;
    MonthDays(y, 1);
    MonthDays(y, 2);
    MonthDays(y, 3);
    MonthDays(y, 4);
    MonthDays(y, 5);
    MonthDays(y, 6);
    MonthDays(y, 7);
    MonthDays(y, 8);
    MonthDays(y, 9);
    MonthDays(y, 10);
    MonthDays(y, 11);
    MonthDays(y, 12);
  }

  /** The month table of a year. */
  function LengthOf(mon: nat, leap: bool): nat
    requires 1 <= mon <= 12
  {
    [31, if leap then 29 else 28, 31, 30, 31, 30, 31, 31, 30, 31, 30, 31][mon - 1]
  }

  lemma MonthDays(y: nat, mon: nat)
    requires 1 <= mon <= 12
    ensures DaysBefore(12 * y + mon) == DaysBefore(12 * y + mon - 1) + LengthOf(mon, Leap(y))
  {
    MonthLength(12 * y + mon - 1);
    hide DaysBefore, Leap;
    YearAndMonth(y, mon - 1);
  }

  lemma YearAndMonth(y: nat, j: nat)
    requires j < 12
    ensures (12 * y + j) / 12 == y && (12 * y + j) % 12 == j
  {
  }

  lemma FourStep(y: nat)
    ensures (y + 4) / 4 == (y + 3) / 4 + if y % 4 == 0 then 1 else 0
  {
  }

  lemma HundredStep(y: nat)
    ensures (y + 100) / 100 == (y + 99) / 100 + if y % 100 == 0 then 1 else 0
  {
  }

  lemma FourHundredStep(y: nat)
    ensures (y + 400) / 400 == (y + 399) / 400 + if y % 400 == 0 then 1 else 0
  {
  }

  lemma Nested(y: nat)
    ensures y % 400 == 0 ==> y % 100 == 0
    ensures y % 100 == 0 ==> y % 4 == 0
  {
    assert y % 400 == 0 ==> y == 100 * (4 * (y / 400));
    assert y % 100 == 0 ==> y == 4 * (25 * (y / 100));
  }

  lemma LeapStep(y: nat)
    ensures DaysTo(y + 1) == DaysTo(y) + if Leap(y) then 366 else 365
  {
    FourStep(y);
    HundredStep(y);
    FourHundredStep(y);
    Nested(y);
  }

  lemma YearZero()
    ensures DaysBefore(0) == 0 == DaysTo(0)
  {
  }

  lemma {:induction false} DaysInClosedForm(y: nat)
    ensures DaysBefore(12 * y) == DaysTo(y)
  {
    hide DaysBefore, DaysTo, Leap;
    if y == 0 {
      YearZero();
    } else {
      DaysInClosedForm(y - 1);
      TwelveMonths(y - 1);
      LeapStep(y - 1);
      assert 12 * (y - 1) + 12 == 12 * y;
    }
  }

  /** The first second of every year, in closed form; the epoch is the first second of 1970. */
  lemma YearStarts(y: nat)
    ensures Midnight(y, 1) == 86400 * (DaysTo(y) - 719528)
    ensures Midnight(1970, 1) == 0 && Midnight(2026, 1) == 1767225600
  {
    hide DaysBefore;
    DaysInClosedForm(y);
    DaysInClosedForm(1970);
    DaysInClosedForm(2026);
  }

  /** Days of the year before a month; month 13 is the next January. */
  function DaysToMonth(mon: nat, leap: bool): nat
    requires 1 <= mon <= 13
  {
    if mon == 1 then 0 else DaysToMonth(mon - 1, leap) + LengthOf(mon - 1, leap)
  }

  lemma {:induction false} MonthStart(y: nat, mon: nat)
    requires 1 <= mon <= 13
    ensures DaysBefore(12 * y + mon - 1) == DaysBefore(12 * y) + DaysToMonth(mon, Leap(y))
  {
    hide DaysBefore, LengthOf, Leap;
    if mon == 1 {
    } else {
      MonthStart(y, mon - 1);
      MonthDays(y, mon - 1);
    }
  }

  /** Both ends of every month, in closed form. */
  lemma BoundariesAre(y: nat, mon: nat)
    requires 1 <= mon <= 12
    ensures Boundaries(y, mon).0 == 86400 * (DaysTo(y) - 719528 + DaysToMonth(mon, Leap(y)))
    ensures Boundaries(y, mon).1 == 86400 * (DaysTo(y) - 719528 + DaysToMonth(mon + 1, Leap(y)))
  {
    hide DaysBefore, Leap, DaysToMonth, DaysTo;
    DaysInClosedForm(y);
    DaysInClosedForm(1970);
    EpochDay();
    MonthStart(y, mon);
    MonthStart(y, mon + 1);
  }

  lemma EpochDay()
    ensures DaysTo(1970) == 719528
  {
  }

  // ---------------------------------------------------------------------------------------
  // A month's logins
  // ---------------------------------------------------------------------------------------

  /** The rows with `verified_at >= lo AND verified_at < hi`. */
  function InWindow(rows: seq<LoginRow>, lo: int, hi: int): seq<LoginRow>
  {
    if rows == [] then []
    else if lo <= rows[0].verifiedAt < hi then [rows[0]] + InWindow(rows[1..], lo, hi)
    else InWindow(rows[1..], lo, hi)
  }

  /** Every login of the window is kept as often as it is there, and no other login. */
  lemma {:induction false} InWindowKeeps(rows: seq<LoginRow>, lo: int, hi: int, r: LoginRow)
    ensures multiset(InWindow(rows, lo, hi))[r] == if lo <= r.verifiedAt < hi then multiset(rows)[r] else 0
  {
    if rows == [] {
    } else {
      InWindowKeeps(rows[1..], lo, hi, r);
      assert rows == [rows[0]] + rows[1..];
    }
  }

  function Clients(rows: seq<LoginRow>): (keys: seq<string>)
    ensures |keys| == |rows|
  {
    seq(|rows|, k requires 0 <= k < |rows| => rows[k].clientId)
  }

  function Agents(rows: seq<LoginRow>): (keys: seq<string>)
    ensures |keys| == |rows|
  {
    seq(|rows|, k requires 0 <= k < |rows| => rows[k].npub)
  }

  /** The month's two groupings are those of its rows in the login table. */
  ghost predicate FromTable(m: Month, rows: seq<LoginRow>, year: nat, mon: nat)
    requires 1 <= mon <= 12
  {
    var w := InWindow(rows, Boundaries(year, mon).0, Boundaries(year, mon).1);
    m.clients == Clients(w) && m.agents == Agents(w) && Grouped(m.byClient, m.clients) && Grouped(m.byAgent, m.agents)
  }

  /** What the allocator reads for a month: both groupings add up to the number of its logins. */
  lemma LoginCounts(m: Month, rows: seq<LoginRow>, year: nat, mon: nat)
    requires 1 <= mon <= 12 && FromTable(m, rows, year, mon)
    ensures MonthOk(m)
    ensures Total(m.byClient) == Total(m.byAgent) == |InWindow(rows, Boundaries(year, mon).0, Boundaries(year, mon).1)|
  {
    GroupsSum(m.byClient, m.clients);
    GroupsSum(m.byAgent, m.agents);
  }

  /** Consecutive windows split the logins between them: none is lost and none is counted twice. */
  lemma {:induction false} WindowsAddUp(rows: seq<LoginRow>, lo: int, mid: int, hi: int)
    requires lo <= mid <= hi
    ensures |InWindow(rows, lo, mid)| + |InWindow(rows, mid, hi)| == |InWindow(rows, lo, hi)|
  {
    if rows == [] {
    } else {
      WindowsAddUp(rows[1..], lo, mid, hi);
    }
  }
}
