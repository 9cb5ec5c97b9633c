/** Every interleaving of any number of threads and rounds. */
module SchedulerRuns {
  import opened ModArith
  import opened SwQueue
  import opened TokenScheduler
  import opened TokenProofs
  import opened SchedulerThreads

  /** Each move of the run is enabled when its turn comes. */
  ghost predicate Possible(n: Node, ms: seq<Move>, limit: nat, maxCost: nat)
    requires NodeInv(n, limit, maxCost)
    decreases |ms|
  {
    ms != [] ==>
      && Enabled(n, ms[0], maxCost)
      && (StepKeeps(n, ms[0], limit, maxCost);
          Possible(Step(n, ms[0], limit, maxCost), ms[1..], limit, maxCost))
  }

  ghost function Run(n: Node, ms: seq<Move>, limit: nat, maxCost: nat): (n': Node)
    requires NodeInv(n, limit, maxCost) && Possible(n, ms, limit, maxCost)
    ensures NodeInv(n', limit, maxCost)
    decreases |ms|
  {
    if ms == [] then n
    else
      StepKeeps(n, ms[0], limit, maxCost);
      Run(Step(n, ms[0], limit, maxCost), ms[1..], limit, maxCost)
  }

  lemma {:induction false} Shaped(n: Node, limit: nat, maxCost: nat)
    requires NodeInv(n, limit, maxCost)
    ensures |n.vec| == |n.threads| == |n.rounds|
  {
  }

  /** A node before any request or token: lc says of each thread which tenants are LC. */
  function Booted(lc: seq<seq<bool>>): Node {
    var z := Zeros(|lc|);
    Node(seq(|lc|, i requires 0 <= i < |lc| =>
      Thread(seq(|lc[i]|, k requires 0 <= k < |lc[i]| => NewTenant(lc[i][k])), 0, Idle)),
         0, z, 0, 0, 0, 0, 0, z, z, 0)
  }

  function NewTenant(lc: bool): Tenant {
    Tenant(lc, [], 0, 0, [], [], 0, 0)
  }

  lemma {:induction false} NoTokensYet(ts: seq<Tenant>)
    requires forall k | 0 <= k < |ts| :: ts[k] == NewTenant(ts[k].lc)
    ensures Total(ts) == 0
  {
    if ts != [] {
      NoTokensYet(ts[1..]);
    }
  }

  lemma {:induction false} NoHoldingsYet(ths: seq<Thread>)
    requires forall i | 0 <= i < |ths| :: ths[i].pc.Idle? && Total(ths[i].tenants) == 0
    ensures Holdings(ths) == 0
  {
    if ths != [] {
      NoHoldingsYet(ths[1..]);
    }
  }

  lemma {:induction false} BootedInv(lc: seq<seq<bool>>, limit: nat, maxCost: nat)
    requires maxCost >= 1
    ensures NodeInv(Booted(lc), limit, maxCost)
  {
    hide Total, Holdings, Demand;
    var n := Booted(lc);
    forall i | 0 <= i < |lc| ensures Total(n.threads[i].tenants) == 0 && ThreadInv(n.threads[i], limit, maxCost) {
      NoTokensYet(n.threads[i].tenants);
    }
    NoHoldingsYet(n.threads);
  }

  // ---------------------------------------------------------------- the bound on issued work

  function IssuedBy(ts: seq<Tenant>): nat {
    if ts == [] then 0 else Cost(ts[0].issued) + IssuedBy(ts[1..])
  }

  function LcCount(ts: seq<Tenant>): nat {
    if ts == [] then 0 else (if ts[0].lc then 1 else 0) + LcCount(ts[1..])
  }

  function IssuedCost(ths: seq<Thread>): nat {
    if ths == [] then 0 else IssuedBy(ths[0].tenants) + IssuedCost(ths[1..])
  }

  function LcTenants(ths: seq<Thread>): nat {
    if ths == [] then 0 else LcCount(ths[0].tenants) + LcTenants(ths[1..])
  }

  /** debt is the most an LC tenant can owe. */
  lemma {:induction false} IssuedByBound(ts: seq<Tenant>, limit: nat, maxCost: nat, debt: nat)
    requires AllInv(ts, limit, maxCost) && debt + 1 == limit + maxCost
    ensures IssuedBy(ts) <= Total(ts) + LcCount(ts) * debt
  {
    if ts != [] {
      IssuedByBound(ts[1..], limit, maxCost, debt);
      assert TenantInv(ts[0], limit, maxCost);
      MulAdd(if ts[0].lc then 1 else 0, LcCount(ts[1..]), debt);
    }
  }

  lemma {:induction false} IssuedCostBound(ths: seq<Thread>, limit: nat, maxCost: nat, debt: nat)
    requires (forall i | 0 <= i < |ths| :: ThreadInv(ths[i], limit, maxCost)) && debt + 1 == limit + maxCost
    ensures IssuedCost(ths) <= Holdings(ths) + LcTenants(ths) * debt
  {
    if ths != [] {
      IssuedCostBound(ths[1..], limit, maxCost, debt);
      assert ThreadInv(ths[0], limit, maxCost);
      IssuedByBound(ths[0].tenants, limit, maxCost, debt);
      MulAdd(LcCount(ths[0].tenants), LcTenants(ths[1..]), debt);
      hide IssuedBy, LcCount, Total, TenantInv, InFlight;
    }
  }

  /** Whatever the interleaving, the node never issues more than it was granted plus one bounded
      debt for each LC tenant. */
  lemma {:induction false} IssuedWithinGrants(lc: seq<seq<bool>>, ms: seq<Move>, limit: nat, maxCost: nat)
    requires maxCost >= 1
    ensures NodeInv(Booted(lc), limit, maxCost)
    ensures Possible(Booted(lc), ms, limit, maxCost) ==>
      var n := Run(Booted(lc), ms, limit, maxCost);
      && n.granted == Holdings(n.threads) + n.bucket + n.reset + n.rounded
      && n.deposited == n.acquired + n.bucket + n.reset
      && IssuedCost(n.threads) <= n.granted + LcTenants(n.threads) * (limit + maxCost - 1)
  {
    hide Possible, Run, Booted, ThreadInv, Holdings, IssuedCost, LcTenants;
    BootedInv(lc, limit, maxCost);
    if Possible(Booted(lc), ms, limit, maxCost) {
      IssuedCostBound(Run(Booted(lc), ms, limit, maxCost).threads, limit, maxCost, limit + maxCost - 1);
    }
  }

  // ---------------------------------------------------------------- each tenant over a window

  predicate Grows(t: Tenant, t': Tenant) {
    t'.lc == t.lc && t.issued <= t'.issued && t.accepted <= t'.accepted && t.granted <= t'.granted
      && t.donated <= t'.donated
  }

  predicate AllGrow(ts: seq<Tenant>, ts': seq<Tenant>) {
    |ts'| == |ts| && forall k | 0 <= k < |ts| :: Grows(ts[k], ts'[k])
  }

  lemma {:induction false} IssueLcGrows(t: Tenant, limit: nat)
    ensures Grows(t, IssueLc(t, limit)) && IssueLc(t, limit).granted == t.granted
    decreases |t.q|
  {
    if t.q != [] && t.credit + limit > 0 {
      IssueLcGrows(Issue(t).(credit := t.credit - t.q[0].cost), limit);
    }
  }

  lemma {:induction false} Subround1Grows(ts: seq<Tenant>, grants: seq<Grant>, limit: nat)
    requires |grants| == |ts|
    ensures AllGrow(ts, Subround1(ts, grants, limit).tenants)
  {
    if ts != [] {
      Subround1Grows(ts[1..], grants[1..], limit);
      assert forall i | 1 <= i < |ts| :: ts[i] == ts[1..][i-1];
      IssueLcGrows(ts[0].(credit := ts[0].credit + grants[0].tokens, granted := ts[0].granted + grants[0].tokens),
        limit);
    }
  }

  lemma {:induction false} ServeAllGrows(ts: seq<Tenant>, order: seq<nat>, pool: nat, tokens: seq<nat>, limit: nat,
      maxCost: nat)
    requires |tokens| == |ts| && forall i | 0 <= i < |order| :: order[i] < |ts|
    requires AllInv(ts, limit, maxCost)
    ensures AllGrow(ts, ServeAll(ts, order, pool, tokens).0)
    decreases |order|
  {
    if order != [] {
      var i := order[0];
      if ts[i].lc {
        ServeAllGrows(ts, order[1..], pool, tokens, limit, maxCost);
      } else {
        var (t, p) := ServeBe(ts[i], pool, tokens[i]);
        ServeBeFacts(ts[i], pool, tokens[i], limit, maxCost);
        IssueBeFacts(ts[i].(saved := 0), pool + ts[i].saved + tokens[i], maxCost);
        assert Grows(ts[i], t);
        ServeAllGrows(ts[i := t], order[1..], p, tokens, limit, maxCost);
      }
    }
  }

  predicate NodeGrows(n: Node, n': Node) {
    |n'.threads| == |n.threads| && forall i | 0 <= i < |n.threads| ::
      AllGrow(n.threads[i].tenants, n'.threads[i].tenants)
  }

  lemma {:induction false} ReplacedGrows(n: Node, n': Node, i: nat)
    requires i < |n.threads| && |n'.threads| == |n.threads| && n'.threads == n.threads[i := n'.threads[i]]
    requires AllGrow(n.threads[i].tenants, n'.threads[i].tenants)
    ensures NodeGrows(n, n')
  {
  }

  /** What a step does to the tenants of its thread. */
  lemma {:induction false} ThreadGrows(n: Node, m: Move, limit: nat, maxCost: nat)
    requires NodeInv(n, limit, maxCost) && Enabled(n, m, maxCost)
    ensures AllGrow(n.threads[m.i].tenants, Step(n, m, limit, maxCost).threads[m.i].tenants)
  {
    var th := n.threads[m.i];
    var n' := Step(n, m, limit, maxCost);
    assert AllGrow(th.tenants, th.tenants);
    match m
    case Push(i, k, r) =>
    case Begin(i, grants) =>
      Subround1Grows(th.tenants, grants, limit);
    case ServeBes(i, tokens) =>
      OrderIsPermutation(th.rr, |th.tenants|);
      ServeAllGrows(th.tenants, Order(th.rr, |th.tenants|), th.pc.pool, tokens, limit, maxCost);
    case _ =>
  }

  lemma {:induction false} StepGrows(n: Node, m: Move, limit: nat, maxCost: nat)
    requires NodeInv(n, limit, maxCost) && Enabled(n, m, maxCost)
    ensures NodeGrows(n, Step(n, m, limit, maxCost))
  {
    ThreadGrows(n, m, limit, maxCost);
    hide AllGrow, Subround1, ServeAll, NextStart, Order;
    ReplacedGrows(n, Step(n, m, limit, maxCost), m.i);
  }

  lemma {:induction false} RunGrows(n: Node, ms: seq<Move>, limit: nat, maxCost: nat)
    requires NodeInv(n, limit, maxCost) && Possible(n, ms, limit, maxCost)
    ensures NodeGrows(n, Run(n, ms, limit, maxCost))
    decreases |ms|
  {
    hide Step, NodeInv, Enabled;
    if ms != [] {
      Shaped(n, limit, maxCost);
      StepKeeps(n, ms[0], limit, maxCost);
      StepGrows(n, ms[0], limit, maxCost);
      RunGrows(Step(n, ms[0], limit, maxCost), ms[1..], limit, maxCost);
    }
  }

  /** An LC tenant over any window of steps: what it issues is paid for by the window's grants,
      by the credit it starts with, and by one bounded debt. */
  lemma {:induction false} TenantWindow(n: Node, ms: seq<Move>, i: nat, k: nat, limit: nat, maxCost: nat)
    requires NodeInv(n, limit, maxCost) && Possible(n, ms, limit, maxCost)
    requires i < |n.threads| && k < |n.threads[i].tenants| && n.threads[i].tenants[k].lc
    ensures NodeGrows(n, Run(n, ms, limit, maxCost))
    ensures
      var t, t' := n.threads[i].tenants[k], Run(n, ms, limit, maxCost).threads[i].tenants[k];
      Cost(t'.issued) - Cost(t.issued) <= t'.granted - t.granted + t.credit + limit + maxCost - 1
  {
    RunGrows(n, ms, limit, maxCost);
    var n' := Run(n, ms, limit, maxCost);
    assert Grows(n.threads[i].tenants[k], n'.threads[i].tenants[k]);
    assert TenantInv(n.threads[i].tenants[k], limit, maxCost) && TenantInv(n'.threads[i].tenants[k], limit, maxCost);
  }

  /** The requests of every tenant leave in the order they were accepted, each at most once, and
      what has been issued is never taken back. */
  lemma {:induction false} IssuedInOrder(n: Node, ms: seq<Move>, i: nat, k: nat, limit: nat, maxCost: nat)
    requires NodeInv(n, limit, maxCost) && Possible(n, ms, limit, maxCost)
    requires i < |n.threads| && k < |n.threads[i].tenants|
    ensures NodeGrows(n, Run(n, ms, limit, maxCost))
    ensures
      var t, t' := n.threads[i].tenants[k], Run(n, ms, limit, maxCost).threads[i].tenants[k];
      t.issued <= t'.issued <= t'.accepted && t.accepted <= t'.accepted
  {
    RunGrows(n, ms, limit, maxCost);
    var n' := Run(n, ms, limit, maxCost);
    assert Grows(n.threads[i].tenants[k], n'.threads[i].tenants[k]);
    assert TenantInv(n'.threads[i].tenants[k], limit, maxCost);
  }

  /** The requests pushed for a tenant during a run. */
  function Pushed(ms: seq<Move>, i: nat, k: nat): seq<Req> {
    if ms == [] then []
    else (if ms[0].Push? && ms[0].i == i && ms[0].k == k then [ms[0].r] else []) + Pushed(ms[1..], i, k)
  }

  predicate SameAccepted(ts: seq<Tenant>, ts': seq<Tenant>) {
    |ts'| == |ts| && forall k | 0 <= k < |ts| :: ts'[k].accepted == ts[k].accepted
  }

  lemma {:induction false} IssueLcAccepted(t: Tenant, limit: nat)
    ensures IssueLc(t, limit).accepted == t.accepted
    decreases |t.q|
  {
    if t.q != [] && t.credit + limit > 0 {
      IssueLcAccepted(Issue(t).(credit := t.credit - t.q[0].cost), limit);
    }
  }

  lemma {:induction false} Subround1Accepted(ts: seq<Tenant>, grants: seq<Grant>, limit: nat)
    requires |grants| == |ts|
    ensures SameAccepted(ts, Subround1(ts, grants, limit).tenants)
    decreases |ts|
  {
    if ts != [] {
      Subround1Accepted(ts[1..], grants[1..], limit);
      assert forall i | 1 <= i < |ts| :: ts[i] == ts[1..][i - 1];
      IssueLcAccepted(ts[0].(credit := ts[0].credit + grants[0].tokens, granted := ts[0].granted + grants[0].tokens),
        limit);
    }
  }

  lemma {:induction false} IssueBeAccepted(t: Tenant, pool: nat)
    ensures IssueBe(t, pool).0.accepted == t.accepted
    decreases |t.q|
  {
    if t.q != [] && t.q[0].cost <= pool {
      IssueBeAccepted(Issue(t), pool - t.q[0].cost);
    }
  }

  lemma {:induction false} ServeAllAccepted(ts: seq<Tenant>, order: seq<nat>, pool: nat, tokens: seq<nat>)
    requires |tokens| == |ts| && forall i | 0 <= i < |order| :: order[i] < |ts|
    ensures SameAccepted(ts, ServeAll(ts, order, pool, tokens).0)
    decreases |order|
  {
    if order != [] {
      var i := order[0];
      if ts[i].lc {
        ServeAllAccepted(ts, order[1..], pool, tokens);
      } else {
        IssueBeAccepted(ts[i].(saved := 0), pool + ts[i].saved + tokens[i]);
        var (t, p) := ServeBe(ts[i], pool, tokens[i]);
        ServeAllAccepted(ts[i := t], order[1..], p, tokens);
      }
    }
  }

  lemma {:induction false} StepAccepted(n: Node, m: Move, i: nat, k: nat, limit: nat, maxCost: nat)
    requires NodeInv(n, limit, maxCost) && Enabled(n, m, maxCost)
    requires i < |n.threads| && k < |n.threads[i].tenants|
    ensures var n' := Step(n, m, limit, maxCost);
      && |n'.threads| == |n.threads| && |n'.threads[i].tenants| == |n.threads[i].tenants|
      && n'.threads[i].tenants[k].accepted == n.threads[i].tenants[k].accepted + Pushed([m], i, k)
  {
    hide Subround1, ServeAll, NextStart, Order, NodeInv;
    var th := n.threads[m.i];
    assert [m][1..] == [] && Pushed([], i, k) == [];
    match m
    case Begin(j, grants) =>
      Subround1Accepted(th.tenants, grants, limit);
    case ServeBes(j, tokens) =>
      OrderIsPermutation(th.rr, |th.tenants|);
      ServeAllAccepted(th.tenants, Order(th.rr, |th.tenants|), th.pc.pool, tokens);
    case _ =>
  }

  /** Over any run a tenant has accepted exactly the requests pushed for it, in that order. */
  lemma {:induction false} AcceptedIsPushed(n: Node, ms: seq<Move>, i: nat, k: nat, limit: nat, maxCost: nat)
    requires NodeInv(n, limit, maxCost) && Possible(n, ms, limit, maxCost)
    requires i < |n.threads| && k < |n.threads[i].tenants|
    ensures var n' := Run(n, ms, limit, maxCost);
      && |n'.threads| == |n.threads| && |n'.threads[i].tenants| == |n.threads[i].tenants|
      && n'.threads[i].tenants[k].accepted == n.threads[i].tenants[k].accepted + Pushed(ms, i, k)
    decreases |ms|
  {
    hide Step, NodeInv, Enabled;
    if ms != [] {
      Shaped(n, limit, maxCost);
      StepKeeps(n, ms[0], limit, maxCost);
      StepAccepted(n, ms[0], i, k, limit, maxCost);
      AcceptedIsPushed(Step(n, ms[0], limit, maxCost), ms[1..], i, k, limit, maxCost);
      assert [ms[0]][1..] == [] && Pushed([], i, k) == [];
      var a, b, c := n.threads[i].tenants[k].accepted, Pushed([ms[0]], i, k), Pushed(ms[1..], i, k);
      assert Pushed(ms, i, k) == b + c;
      assert a + b + c == a + (b + c);
    }
  }

  // ---------------------------------------------------------------- the shared bucket

  /** A compare-and-swap that succeeds hands over min(demand, level at that moment) and removes
      exactly that much; one that fails changes no token count. */
  lemma AcquireIsExact(n: Node, i: nat, limit: nat, maxCost: nat)
    requires NodeInv(n, limit, maxCost) && Enabled(n, Cas(i), maxCost)
    ensures
      var n' := Step(n, Cas(i), limit, maxCost);
      var pc, pc' := n.threads[i].pc, n'.threads[i].pc;
      if pc'.Serve? then
        && pc'.pool - pc.leftover == n.bucket - n'.bucket == n'.acquired - n.acquired
        && n.bucket - n'.bucket == Min(pc.need, n.bucket)
      else
        n' == n.(threads := n'.threads) && InFlight(pc') == InFlight(pc)
  {
  }

  /** A thread starts to serve its BE tenants with all they demand, or it has left the bucket empty;
      and it never takes more from the bucket than they lack. */
  lemma {:induction false} ServesItsDemand(n: Node, m: Move, limit: nat, maxCost: nat)
    requires NodeInv(n, limit, maxCost) && Enabled(n, m, maxCost)
    requires !n.threads[m.i].pc.Serve? && Step(n, m, limit, maxCost).threads[m.i].pc.Serve?
    ensures
      var n' := Step(n, m, limit, maxCost);
      var th' := n'.threads[m.i];
      && th'.tenants == n.threads[m.i].tenants
      && (Demand(th'.tenants) <= th'.pc.pool || n'.bucket == 0)
      && (n'.bucket < n.bucket ==> th'.pc.pool <= Demand(th'.tenants))
  {
    hide Demand, Subround1, ServeAll, AllInv;
    assert ThreadInv(n.threads[m.i], limit, maxCost);
  }

  /** So a thread that leaves tokens in the bucket when it starts to serve leaves no BE tenant with a
      request. */
  lemma {:induction false} EnoughIsDrained(n: Node, i: nat, tokens: seq<nat>, limit: nat, maxCost: nat)
    requires NodeInv(n, limit, maxCost) && Enabled(n, ServeBes(i, tokens), maxCost)
    requires Demand(n.threads[i].tenants) <= n.threads[i].pc.pool
    ensures NoBeRequest(Step(n, ServeBes(i, tokens), limit, maxCost).threads[i].tenants)
  {
    hide Demand, ServeAll, AllInv, NoBeRequest, Order;
    var th := n.threads[i];
    assert ThreadInv(th, limit, maxCost);
    EnoughDrains(th.tenants, th.rr, th.pc.pool, tokens, limit, maxCost);
  }

  /** A round of serving moves the start to the first BE tenant strictly after it, so that another one
      comes first next time; no other step moves it. */
  lemma {:induction false} StartMoves(n: Node, m: Move, limit: nat, maxCost: nat)
    requires NodeInv(n, limit, maxCost) && Enabled(n, m, maxCost)
    ensures
      var th, th' := n.threads[m.i], Step(n, m, limit, maxCost).threads[m.i];
      if m.ServeBes? && HasBe(th.tenants)
      then exists k :: 1 <= k <= |th.tenants| && FirstBe(th.tenants, th.rr, k) && th'.rr == (th.rr + k) % |th.tenants|
      else th'.rr == th.rr
  {
    hide Subround1, ServeAll, NextStart, Order, AllInv, FirstBe;
    var th := n.threads[m.i];
    if m.ServeBes? && HasBe(th.tenants) {
      NextStartIsFirst(th.tenants, th.rr);
    }
  }

  /** The early return of subround 2 is taken only when no BE tenant of the thread has a request. */
  lemma EarlyReturnMeansIdle(n: Node, i: nat, limit: nat, maxCost: nat)
    requires NodeInv(n, limit, maxCost) && Enabled(n, Choose(i), maxCost)
    ensures Step(n, Choose(i), limit, maxCost).threads[i].pc.Finish? <==>
      n.threads[i].pc.leftover > 0 && NoBeRequest(n.threads[i].tenants)
  {
  }

  /** A step that completes a round empties the bucket exactly when every thread has completed
      one since the last reset, and no other step resets it. */
  lemma {:induction false} ResetExactly(n: Node, m: Move, limit: nat, maxCost: nat)
    requires NodeInv(n, limit, maxCost) && Enabled(n, m, maxCost)
    ensures
      var n' := Step(n, m, limit, maxCost);
      && |n'.rounds| == |n.threads| == |n.mark| == |n'.mark| == |n.rounds|
      && (forall j | 0 <= j < |n.threads| :: n'.rounds[j] == n.rounds[j] + if m.Complete? && j == m.i then 1 else 0)
      && (n'.resets == n.resets + 1 <==> m.Complete? && forall j | 0 <= j < |n.threads| :: n'.rounds[j] > n.mark[j])
      && (if n'.resets == n.resets + 1
          then n'.mark == n'.rounds && n'.bucket == 0 && n'.reset == n.reset + n.bucket
          else n'.mark == n.mark && n'.resets == n.resets && n'.reset == n.reset)
  {
    var n' := Step(n, m, limit, maxCost);
    if m.Complete? {
      var vec := n.vec[m.i := n.vec[m.i] + 1];
      assert forall j | 0 <= j < |n.threads| :: n'.rounds[j] == n.mark[j] + vec[j];
    }
  }

  /** Over any run with k + 1 resets, every thread completes at least k rounds: in particular
      one between two consecutive resets. */
  lemma {:induction false} RoundsBetweenResets(n: Node, ms: seq<Move>, j: nat, limit: nat, maxCost: nat)
    requires NodeInv(n, limit, maxCost) && Possible(n, ms, limit, maxCost) && j < |n.threads|
    ensures var n' := Run(n, ms, limit, maxCost);
      && |n'.threads| == |n.threads|
      && n.resets <= n'.resets
      && n'.mark[j] >= n.mark[j] + (n'.resets - n.resets)
      && n'.rounds[j] - n.rounds[j] >= n'.resets - n.resets - 1
      && (n'.resets > n.resets ==> n'.mark[j] >= n.rounds[j] + (n'.resets - n.resets) - 1)
      && n'.rounds[j] >= n.rounds[j]
    decreases |ms|
  {
    if ms != [] {
      var m := ms[0];
      StepKeeps(n, m, limit, maxCost);
      ResetExactly(n, m, limit, maxCost);
      RoundsBetweenResets(Step(n, m, limit, maxCost), ms[1..], j, limit, maxCost);
    }
  }
}
