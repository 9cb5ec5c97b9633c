/** What one round does to the tokens and the requests of a thread's tenants. */
module TokenProofs {
  import opened SwQueue
  import opened TokenScheduler
  import opened ModArith

  predicate CostsIn(q: seq<Req>, maxCost: nat) {
    forall i | 0 <= i < |q| :: 1 <= q[i].cost <= maxCost
  }

  /** Between rounds: requests leave in the order they came; an LC tenant's debt is bounded and
      its tokens are accounted for; a BE tenant has saved less than its head request costs. */
  predicate TenantInv(t: Tenant, limit: nat, maxCost: nat) {
    && 1 <= maxCost && CostsIn(t.q, maxCost)
    && t.accepted == t.issued + t.q
    && (t.lc ==>
          && t.saved == 0
          && t.credit + limit + maxCost > 0
          && t.granted == Cost(t.issued) + t.credit + t.donated)
    && (!t.lc ==>
          && t.credit == 0
          && (if t.q == [] then t.saved == 0 else t.saved < t.q[0].cost))
  }

  predicate AllInv(ts: seq<Tenant>, limit: nat, maxCost: nat) {
    forall i | 0 <= i < |ts| :: TenantInv(ts[i], limit, maxCost)
  }

  // ---------------------------------------------------------------- issuing

  lemma {:induction false} IssueFacts(t: Tenant)
    requires t.q != []
    ensures Cost(Issue(t).issued) == Cost(t.issued) + t.q[0].cost
    ensures t.accepted == t.issued + t.q ==> Issue(t).accepted == Issue(t).issued + Issue(t).q
  {
    CostAppend(t.issued, [t.q[0]]);
    assert Cost([t.q[0]]) == t.q[0].cost;
    assert t.issued + [t.q[0]] + t.q[1..] == t.issued + t.q;
  }

  /** LC issuing keeps a tenant's worth, and its debt stays below limit plus one request. */
  lemma {:induction false} IssueLcInv(t: Tenant, limit: nat, maxCost: nat)
    requires TenantInv(t, limit, maxCost) && t.lc
    ensures var t' := IssueLc(t, limit);
      && TenantInv(t', limit, maxCost) && t'.lc && Worth(t') == Worth(t)
      && t'.accepted == t.accepted && t'.granted == t.granted
      && (t'.q == [] || t'.credit + limit <= 0)
    decreases |t.q|
  {
    if t.q != [] && t.credit + limit > 0 {
      IssueFacts(t);
      IssueLcInv(Issue(t).(credit := t.credit - t.q[0].cost), limit, maxCost);
    }
  }

  /** Tokens that vanish when both parts of a donation are rounded down: at most one. */
  function Rounding(t: Tenant, posLimit: nat): nat {
    if t.credit > posLimit then t.credit - t.credit / 10 - 9 * t.credit / 10 else 0
  }

  lemma {:induction false} DonateFacts(t: Tenant, posLimit: nat, limit: nat, maxCost: nat)
    requires TenantInv(t, limit, maxCost) && t.lc
    ensures TenantInv(Donate(t, posLimit), limit, maxCost)
    ensures Worth(t) == Worth(Donate(t, posLimit)) + Surplus(t, posLimit) + Rounding(t, posLimit)
    ensures Rounding(t, posLimit) <= 1
    ensures if t.credit > posLimit
            then
              && 0 <= t.credit - 10 * Donate(t, posLimit).credit < 10
              && 0 <= 9 * t.credit - 10 * Surplus(t, posLimit) < 10
            else Donate(t, posLimit) == t && Surplus(t, posLimit) == 0
  {
  }

  lemma {:induction false} CreditedInv(t: Tenant, g: Grant, limit: nat, maxCost: nat)
    requires TenantInv(t, limit, maxCost) && t.lc
    ensures var t' := Credited(t, g, limit);
      TenantInv(t', limit, maxCost) && t'.lc && Worth(t') == Worth(t) + g.tokens
      && t'.granted == t.granted + g.tokens && t'.accepted == t.accepted
  {
    IssueLcInv(t.(credit := t.credit + g.tokens, granted := t.granted + g.tokens), limit, maxCost);
  }

  // ---------------------------------------------------------------- subround 1

  function GrantedLc(ts: seq<Tenant>, grants: seq<Grant>): nat
    requires |grants| == |ts|
  {
    if ts == [] then 0 else (if ts[0].lc then grants[0].tokens else 0) + GrantedLc(ts[1..], grants[1..])
  }

  function Lost1(ts: seq<Tenant>, grants: seq<Grant>, limit: nat): nat
    requires |grants| == |ts|
  {
    if ts == [] then 0
    else
      (if ts[0].lc then Rounding(Credited(ts[0], grants[0], limit), grants[0].posLimit) else 0)
      + Lost1(ts[1..], grants[1..], limit)
  }

  predicate NoBeRequest(ts: seq<Tenant>) {
    forall i | 0 <= i < |ts| :: !ts[i].lc ==> ts[i].q == []
  }

  lemma {:induction false} CostPositive(q: seq<Req>, maxCost: nat)
    requires CostsIn(q, maxCost)
    ensures q != [] ==> Cost(q) >= q[0].cost >= 1
  {
  }

  /** Between rounds a BE tenant has saved less than it has queued, so its demand, an unsigned
      difference, does not wrap and is zero exactly when its queue is empty. */
  lemma {:induction false} DemandNeverWraps(t: Tenant, limit: nat, maxCost: nat)
    requires TenantInv(t, limit, maxCost) && !t.lc
    ensures t.saved <= Cost(t.q) && (Cost(t.q) - t.saved == 0 <==> t.q == [])
  {
  }

  /** What the BE tenants of a list lack to have all they queued paid for. */
  function Demand(ts: seq<Tenant>): int {
    if ts == [] then 0 else DemandOf(ts[0]) + Demand(ts[1..])
  }

  function DemandOf(t: Tenant): int {
    if t.lc then 0 else Cost(t.q) - t.saved
  }

  predicate SameBes(ts: seq<Tenant>, ts': seq<Tenant>) {
    |ts'| == |ts| && forall i | 0 <= i < |ts| :: ts'[i].lc == ts[i].lc && (!ts[i].lc ==> ts'[i] == ts[i])
  }

  lemma {:induction false} DemandSame(ts: seq<Tenant>, ts': seq<Tenant>)
    requires SameBes(ts, ts')
    ensures Demand(ts') == Demand(ts)
    decreases |ts|
  {
    if ts != [] {
      DemandSame(ts[1..], ts'[1..]);
    }
  }

  lemma {:induction false} Subround1Demand(ts: seq<Tenant>, grants: seq<Grant>, limit: nat)
    requires |grants| == |ts|
    ensures Subround1(ts, grants, limit).demand == Demand(ts)
    decreases |ts|
  {
    if ts != [] {
      Subround1Demand(ts[1..], grants[1..], limit);
    }
  }

  /** The worth of each tenant is kept, the leftover is what LC tenants gave away, and the
      demand, a sum of differences that never go below zero, is zero exactly when no BE tenant
      has a request queued. */
  lemma {:induction false} Subround1Facts(ts: seq<Tenant>, grants: seq<Grant>, limit: nat, maxCost: nat)
    requires |grants| == |ts| && AllInv(ts, limit, maxCost)
    ensures var r := Subround1(ts, grants, limit);
      && AllInv(r.tenants, limit, maxCost)
      && Total(r.tenants) + r.leftover + Lost1(ts, grants, limit) == Total(ts) + GrantedLc(ts, grants)
      && Lost1(ts, grants, limit) <= |ts|
      && 0 <= r.demand && (r.demand == 0 <==> NoBeRequest(ts))
  {
    hide Cost, Credited, Donate, Surplus, Rounding;
    if ts != [] {
      Subround1Facts(ts[1..], grants[1..], limit, maxCost);
      assert forall i | 1 <= i < |ts| :: ts[i] == ts[1..][i-1];
      if ts[0].lc {
        CreditedInv(ts[0], grants[0], limit, maxCost);
        DonateFacts(Credited(ts[0], grants[0], limit), grants[0].posLimit, limit, maxCost);
      } else {
        DemandNeverWraps(ts[0], limit, maxCost);
      }
      var r := Subround1(ts, grants, limit);
      assert r.tenants[1..] == Subround1(ts[1..], grants[1..], limit).tenants;
    }
  }

  // ---------------------------------------------------------------- subround 2

  lemma {:induction false} IssueBeFacts(t: Tenant, pool: nat, maxCost: nat)
    requires CostsIn(t.q, maxCost) && t.accepted == t.issued + t.q
    ensures var (t', p) := IssueBe(t, pool);
      && Cost(t'.issued) + p == Cost(t.issued) + pool
      && t' == t.(q := t'.q, issued := t'.issued) && t'.accepted == t'.issued + t'.q
      && CostsIn(t'.q, maxCost)
      && (t'.q != [] ==> p < t'.q[0].cost)
    decreases |t.q|
  {
    if t.q != [] && t.q[0].cost <= pool {
      IssueFacts(t);
      IssueBeFacts(Issue(t), pool - t.q[0].cost, maxCost);
    }
  }

  /** A tenant that still has requests takes the whole pool into its savings, so the last
      branch of nvme_sw_queue_save_tokens is never taken here. */
  lemma {:induction false} ServeBeFacts(t: Tenant, pool: nat, tokens: nat, limit: nat, maxCost: nat)
    requires TenantInv(t, limit, maxCost) && !t.lc
    ensures var (t', p) := ServeBe(t, pool, tokens);
      && TenantInv(t', limit, maxCost) && !t'.lc
      && Worth(t') + p == Worth(t) + pool + tokens
      && (t'.q != [] ==> p == 0)
      && t'.accepted == t.accepted && t.issued <= t'.issued
  {
    var all := pool + t.saved + tokens;
    IssueBeFacts(t.(saved := 0), all, maxCost);
    var (t1, p1) := IssueBe(t.(saved := 0), all);
    CostPositive(t1.q, maxCost);
    assert t.accepted == t.issued + t.q;
    IssueBeExtends(t.(saved := 0), all);
  }

  lemma {:induction false} IssueBeExtends(t: Tenant, pool: nat)
    ensures t.issued <= IssueBe(t, pool).0.issued
    decreases |t.q|
  {
    if t.q != [] && t.q[0].cost <= pool {
      IssueBeExtends(Issue(t), pool - t.q[0].cost);
    }
  }

  lemma {:induction false} TotalUpdate(ts: seq<Tenant>, i: nat, t: Tenant)
    requires i < |ts|
    ensures Total(ts[i := t]) == Total(ts) - Worth(ts[i]) + Worth(t)
    decreases |ts|
  {
    if i == 0 {
      assert ts[i := t][1..] == ts[1..];
    } else {
      TotalUpdate(ts[1..], i - 1, t);
      assert ts[i := t][1..] == ts[1..][i - 1 := t];
    }
  }

  function GrantedBe(ts: seq<Tenant>, order: seq<nat>, tokens: seq<nat>): nat
    requires |tokens| == |ts| && forall i | 0 <= i < |order| :: order[i] < |ts|
    decreases |order|
  {
    if order == [] then 0
    else (if ts[order[0]].lc then 0 else tokens[order[0]]) + GrantedBe(ts, order[1..], tokens)
  }

  /** Which tenants are LC does not change, so the grants do not depend on the serving. */
  lemma {:induction false} GrantedBeUpdate(ts: seq<Tenant>, i: nat, t: Tenant, order: seq<nat>, tokens: seq<nat>)
    requires |tokens| == |ts| && forall i | 0 <= i < |order| :: order[i] < |ts|
    requires i < |ts| && t.lc == ts[i].lc
    ensures GrantedBe(ts[i := t], order, tokens) == GrantedBe(ts, order, tokens)
    decreases |order|
  {
    if order != [] {
      GrantedBeUpdate(ts, i, t, order[1..], tokens);
    }
  }

  lemma {:induction false} ServeAllFacts(ts: seq<Tenant>, order: seq<nat>, pool: nat, tokens: seq<nat>, limit: nat,
      maxCost: nat)
    requires |tokens| == |ts| && forall i | 0 <= i < |order| :: order[i] < |ts|
    requires AllInv(ts, limit, maxCost)
    ensures var (ts', p) := ServeAll(ts, order, pool, tokens);
      && AllInv(ts', limit, maxCost)
      && Total(ts') + p == Total(ts) + pool + GrantedBe(ts, order, tokens)
    decreases |order|
  {
    if order != [] {
      var i := order[0];
      if ts[i].lc {
        ServeAllFacts(ts, order[1..], pool, tokens, limit, maxCost);
      } else {
        var (t, p) := ServeBe(ts[i], pool, tokens[i]);
        ServeBeFacts(ts[i], pool, tokens[i], limit, maxCost);
        TotalUpdate(ts, i, t);
        GrantedBeUpdate(ts, i, t, order[1..], tokens);
        ServeAllFacts(ts[i := t], order[1..], p, tokens, limit, maxCost);
      }
    }
  }

  // ---------------------------------------------------------------- round robin

  predicate NoDup(s: seq<nat>) {
    forall i, j | 0 <= i < j < |s| :: s[i] != s[j]
  }

  lemma {:induction false} UpfromFacts(i: nat, n: nat)
    ensures var r := Upfrom(i, n);
      && |r| == (if i < n then n - i else 0)
      && forall k | 0 <= k < |r| :: r[k] == i + k
    decreases n - i
  {
    if i < n {
      UpfromFacts(i + 1, n);
    }
  }

  /** For every value of roundrobin_start, even one outside the list, each index comes up
      exactly once. */
  lemma {:induction false} OrderIsPermutation(start: nat, n: nat)
    ensures |Order(start, n)| == n && NoDup(Order(start, n))
    ensures forall k | 0 <= k < n :: Order(start, n)[k] < n
    ensures forall i: nat :: i in Order(start, n) <==> i < n
  {
    var b := if start > n then n else start;
    UpfromFacts(b, n);
    UpfromFacts(0, b);
    var o := Order(start, n);
    forall i: nat | i < n ensures i in o {
      assert o[if b <= i then i - b else n - b + i] == i;
    }
  }

  /** Tenants outside the order stay as they are. */
  lemma {:induction false} ServeAllElsewhere(ts: seq<Tenant>, order: seq<nat>, pool: nat, tokens: seq<nat>, i: nat)
    requires |tokens| == |ts| && forall k | 0 <= k < |order| :: order[k] < |ts|
    requires i < |ts| && (i !in order || ts[i].lc)
    ensures ServeAll(ts, order, pool, tokens).0[i] == ts[i]
    decreases |order|
  {
    if order != [] {
      var j := order[0];
      if ts[j].lc {
        ServeAllElsewhere(ts, order[1..], pool, tokens, i);
      } else {
        var (t, p) := ServeBe(ts[j], pool, tokens[j]);
        ServeAllElsewhere(ts[j := t], order[1..], p, tokens, i);
      }
    }
  }

  /** The pool left for the k-th of the order by those before it. */
  function PoolAt(ts: seq<Tenant>, order: seq<nat>, pool: nat, tokens: seq<nat>, k: nat): nat
    requires |tokens| == |ts| && k <= |order| && forall i | 0 <= i < |order| :: order[i] < |ts|
  {
    ServeAll(ts, order[..k], pool, tokens).1
  }

  /** Every BE tenant on the list is served exactly once in a round, with what those before it
      have left in the pool. */
  lemma {:induction false} EachServedOnce(ts: seq<Tenant>, order: seq<nat>, pool: nat, tokens: seq<nat>, k: nat)
    requires |tokens| == |ts| && NoDup(order) && forall i | 0 <= i < |order| :: order[i] < |ts|
    requires k < |order| && !ts[order[k]].lc
    ensures
      var i := order[k];
      ServeAll(ts, order, pool, tokens).0[i] == ServeBe(ts[i], PoolAt(ts, order, pool, tokens, k), tokens[i]).0
    decreases |order|
  {
    hide ServeBe;
    var j := order[0];
    assert forall i | 1 <= i < |order| :: order[i] == order[1..][i-1];
    if k == 0 {
      var (t, p) := ServeBe(ts[j], pool, tokens[j]);
      assert order[..0] == [];
      ServeAllElsewhere(ts[j := t], order[1..], p, tokens, j);
    } else {
      assert order[..k][0] == j && order[..k][1..] == order[1..][..k - 1];
      if ts[j].lc {
        EachServedOnce(ts, order[1..], pool, tokens, k - 1);
      } else {
        var (t, p) := ServeBe(ts[j], pool, tokens[j]);
        EachServedOnce(ts[j := t], order[1..], p, tokens, k - 1);
      }
    }
  }

  /** The place of tenant i in the order. */
  function Turn(start: nat, n: nat, i: nat): (k: nat)
    requires i < n
    ensures k < n
  {
    var b := if start > n then n else start;
    if b <= i then i - b else n - b + i
  }

  lemma {:induction false} TurnFacts(start: nat, n: nat, i: nat)
    requires i < n
    ensures |Order(start, n)| == n && Order(start, n)[Turn(start, n, i)] == i
  {
    var b := if start > n then n else start;
    UpfromFacts(b, n);
    UpfromFacts(0, b);
  }

  /** A round serves every BE tenant once, in its turn, with the pool as those before it left it,
      and leaves the LC tenants alone. */
  lemma {:induction false} RoundRobinFair(ts: seq<Tenant>, start: nat, pool: nat, tokens: seq<nat>, i: nat)
    requires |tokens| == |ts| && i < |ts|
    ensures |Order(start, |ts|)| == |ts| && forall k | 0 <= k < |ts| :: Order(start, |ts|)[k] < |ts|
    ensures
      var order := Order(start, |ts|);
      var ts' := ServeAll(ts, order, pool, tokens).0;
      if ts[i].lc then ts'[i] == ts[i]
      else ts'[i] == ServeBe(ts[i], PoolAt(ts, order, pool, tokens, Turn(start, |ts|, i)), tokens[i]).0
  {
    OrderIsPermutation(start, |ts|);
    if ts[i].lc {
      ServeAllElsewhere(ts, Order(start, |ts|), pool, tokens, i);
    } else {
      TurnFacts(start, |ts|, i);
      EachServedOnce(ts, Order(start, |ts|), pool, tokens, Turn(start, |ts|, i));
    }
  }

  /** k steps round the list from start. */
  lemma {:induction false} NextStartReaches(ts: seq<Tenant>, start: nat, left: nat, k: nat)
    requires 0 < |ts| && 1 <= k <= left + 1 && !ts[(start + k) % |ts|].lc
    ensures NextStart(ts, start, left) < |ts| && !ts[NextStart(ts, start, left)].lc
    decreases left
  {
    var j := (start + 1) % |ts|;
    if ts[j].lc {
      assert k > 1;
      ModShift(start + 1, k - 1, |ts|);
      NextStartReaches(ts, j, left - 1, k - 1);
    }
  }

  /** From any start, within one turn round the list the search stops at a BE tenant. */
  lemma {:induction false} NextStartIsBe(ts: seq<Tenant>, start: nat)
    requires HasBe(ts)
    ensures NextStart(ts, start, |ts| - 1) < |ts| && !ts[NextStart(ts, start, |ts| - 1)].lc
  {
    var i :| 0 <= i < |ts| && !ts[i].lc;
    var k := StepsTo(start, i, |ts|);
    NextStartReaches(ts, start, |ts| - 1, k);
  }

  /** The next start is the first BE tenant strictly after start, counted cyclically; it is the start
      itself only if there is no other. */
  lemma {:induction false} NextStartIsFirst(ts: seq<Tenant>, start: nat)
    requires HasBe(ts)
    ensures exists k :: 1 <= k <= |ts| && FirstBe(ts, start, k) && NextStart(ts, start, |ts| - 1) == (start + k) % |ts|
  {
    var i :| 0 <= i < |ts| && !ts[i].lc;
    var k := StepsTo(start, i, |ts|);
    var j := SearchStops(ts, start, |ts| - 1, k);
  }

  predicate LcAt(ts: seq<Tenant>, start: nat, k: nat)
    requires ts != []
  {
    ts[(start + k) % |ts|].lc
  }

  /** k steps from start there is a BE tenant, and none before. */
  predicate FirstBe(ts: seq<Tenant>, start: nat, k: nat)
    requires ts != []
  {
    !LcAt(ts, start, k) && forall j | 1 <= j < k :: LcAt(ts, start, j)
  }

  lemma {:induction false} OneOn(ts: seq<Tenant>, start: nat, k: nat)
    requires ts != []
    ensures ((start + 1) % |ts| + k) % |ts| == (start + (k + 1)) % |ts|
    ensures LcAt(ts, (start + 1) % |ts|, k) == LcAt(ts, start, k + 1)
  {
    ModShift(start + 1, k, |ts|);
  }

  lemma {:induction false} SearchStops(ts: seq<Tenant>, start: nat, left: nat, k: nat) returns (j: nat)
    requires 0 < |ts| && 1 <= k <= left + 1 && !LcAt(ts, start, k)
    ensures 1 <= j <= k && FirstBe(ts, start, j) && NextStart(ts, start, left) == (start + j) % |ts|
    decreases left
  {
    hide LcAt;
    var next := (start + 1) % |ts|;
    assert LcAt(ts, start, 1) == ts[next].lc by {
      AtOne(ts, start);
    }
    if !ts[next].lc {
      j := 1;
    } else {
      OneOn(ts, start, k - 1);
      var i := SearchStops(ts, next, left - 1, k - 1);
      OneOn(ts, start, i);
      j := i + 1;
      forall m: nat | 1 <= m < j ensures LcAt(ts, start, m) {
        if m > 1 {
          OneOn(ts, start, m - 1);
        }
      }
    }
  }

  lemma {:induction false} AtOne(ts: seq<Tenant>, start: nat)
    requires ts != []
    ensures LcAt(ts, start, 1) == ts[(start + 1) % |ts|].lc
  {
  }

  // ---------------------------------------------------------------- enough tokens drain the queues

  /** Issuing stops only at an empty queue or a request the pool cannot pay. */
  lemma {:induction false} IssueBeStops(t: Tenant, pool: nat)
    ensures var (t', p) := IssueBe(t, pool);
      && Cost(t'.q) + (pool - p) == Cost(t.q) && p <= pool
      && (t'.q == [] || p < t'.q[0].cost)
      && (Cost(t.q) <= pool ==> t'.q == [])
      && t'.saved == t.saved && t'.lc == t.lc
    decreases |t.q|
  {
    if t.q != [] && t.q[0].cost <= pool {
      IssueBeStops(Issue(t), pool - t.q[0].cost);
    }
  }

  /** A BE tenant is left with requests only if it has used up the pool, what it had saved and its
      own tokens; with enough for all it has queued, nothing stays queued and the rest goes on. */
  lemma {:induction false} ServeBeDrains(t: Tenant, pool: nat, tokens: nat, limit: nat, maxCost: nat)
    requires TenantInv(t, limit, maxCost) && !t.lc
    ensures var (t', p) := ServeBe(t, pool, tokens);
      && !t'.lc && (t'.q == [] || p == 0)
      && (DemandOf(t) <= pool + tokens ==> t'.q == [] && p == pool + tokens - DemandOf(t))
  {
    var (t1, p1) := IssueBe(t.(saved := 0), pool + t.saved + tokens);
    IssueBeStops(t.(saved := 0), pool + t.saved + tokens);
    if t1.q != [] {
      assert Cost(t1.q) >= t1.q[0].cost;
    }
  }

  function DemandAt(ts: seq<Tenant>, order: seq<nat>): int
    requires forall i | 0 <= i < |order| :: order[i] < |ts|
  {
    if order == [] then 0 else DemandOf(ts[order[0]]) + DemandAt(ts, order[1..])
  }

  lemma {:induction false} DemandElsewhere(ts: seq<Tenant>, order: seq<nat>, i: nat, t: Tenant)
    requires (forall k | 0 <= k < |order| :: order[k] < |ts|) && i < |ts| && i !in order
    ensures DemandAt(ts[i := t], order) == DemandAt(ts, order)
    decreases |order|
  {
    if order != [] {
      assert order[0] in order;
      DemandElsewhere(ts, order[1..], i, t);
    }
  }

  /** With a pool that covers the demand of all, every BE tenant served is drained. */
  lemma {:induction false} ServeAllDrains(
    ts: seq<Tenant>, order: seq<nat>, pool: nat, tokens: seq<nat>, limit: nat, maxCost: nat, k: nat)
    requires |tokens| == |ts| && AllInv(ts, limit, maxCost)
    requires NoDup(order) && (forall i | 0 <= i < |order| :: order[i] < |ts|) && k < |order|
    requires DemandAt(ts, order) <= pool && !ts[order[k]].lc
    ensures ServeAll(ts, order, pool, tokens).0[order[k]].q == []
    decreases |order|
  {
    hide ServeBe, TenantInv, DemandOf;
    var i := order[0];
    assert forall j | 1 <= j < |order| :: order[j] == order[1..][j - 1];
    if ts[i].lc {
      LcDemandsNothing(ts[i]);
      ServeAllDrains(ts, order[1..], pool, tokens, limit, maxCost, k - 1);
    } else {
      var (t, p) := ServeBe(ts[i], pool, tokens[i]);
      RestNotNegative(ts, order[1..], limit, maxCost);
      ServeBeDrains(ts[i], pool, tokens[i], limit, maxCost);
      ServeBeFacts(ts[i], pool, tokens[i], limit, maxCost);
      DemandElsewhere(ts, order[1..], i, t);
      if k == 0 {
        ServeAllElsewhere(ts[i := t], order[1..], p, tokens, i);
      } else {
        ServeAllDrains(ts[i := t], order[1..], p, tokens, limit, maxCost, k - 1);
      }
    }
  }

  lemma {:induction false} LcDemandsNothing(t: Tenant)
    requires t.lc
    ensures DemandOf(t) == 0
  {
  }

  lemma {:induction false} RestNotNegative(ts: seq<Tenant>, order: seq<nat>, limit: nat, maxCost: nat)
    requires AllInv(ts, limit, maxCost) && forall i | 0 <= i < |order| :: order[i] < |ts|
    ensures 0 <= DemandAt(ts, order)
    decreases |order|
  {
    if order != [] {
      RestNotNegative(ts, order[1..], limit, maxCost);
      if !ts[order[0]].lc {
        DemandNeverWraps(ts[order[0]], limit, maxCost);
      }
    }
  }

  lemma {:induction false} DemandAtAppend(ts: seq<Tenant>, a: seq<nat>, b: seq<nat>)
    requires (forall i | 0 <= i < |a| :: a[i] < |ts|) && forall i | 0 <= i < |b| :: b[i] < |ts|
    ensures DemandAt(ts, a + b) == DemandAt(ts, a) + DemandAt(ts, b)
    decreases |a|
  {
    if a == [] {
      assert a + b == b;
    } else {
      DemandAtAppend(ts, a[1..], b);
      assert (a + b)[1..] == a[1..] + b;
    }
  }

  lemma {:induction false} DemandUpfrom(ts: seq<Tenant>, i: nat, n: nat)
    requires i <= n <= |ts|
    ensures forall k | 0 <= k < |Upfrom(i, n)| :: Upfrom(i, n)[k] < |ts|
    ensures DemandAt(ts, Upfrom(i, n)) == Demand(ts[i..n])
    decreases n - i
  {
    UpfromFacts(i, n);
    if i < n {
      DemandUpfrom(ts, i + 1, n);
      assert ts[i..n][1..] == ts[i + 1..n];
      assert Upfrom(i, n)[1..] == Upfrom(i + 1, n);
    }
  }

  lemma {:induction false} DemandSplit(ts: seq<Tenant>, b: nat)
    requires b <= |ts|
    ensures Demand(ts) == Demand(ts[..b]) + Demand(ts[b..])
    decreases b
  {
    if b == 0 {
      assert ts[..0] == [] && ts[0..] == ts;
    } else {
      DemandSplit(ts[1..], b - 1);
      assert ts[..b][1..] == ts[1..][..b - 1] && ts[b..] == ts[1..][b - 1..];
    }
  }

  /** The order leaves nobody's demand out. */
  lemma {:induction false} OrderDemand(ts: seq<Tenant>, start: nat)
    ensures forall k | 0 <= k < |Order(start, |ts|)| :: Order(start, |ts|)[k] < |ts|
    ensures DemandAt(ts, Order(start, |ts|)) == Demand(ts)
  {
    OrderIsPermutation(start, |ts|);
    var b := if start > |ts| then |ts| else start;
    DemandUpfrom(ts, b, |ts|);
    DemandUpfrom(ts, 0, b);
    DemandAtAppend(ts, Upfrom(b, |ts|), Upfrom(0, b));
    DemandSplit(ts, b);
    assert ts[b..|ts|] == ts[b..] && ts[0..b] == ts[..b];
  }

  /** A round whose pool covers the demand leaves no BE tenant with a request. */
  lemma {:induction false} EnoughDrains(
    ts: seq<Tenant>, start: nat, pool: nat, tokens: seq<nat>, limit: nat, maxCost: nat)
    requires |tokens| == |ts| && AllInv(ts, limit, maxCost) && Demand(ts) <= pool
    ensures forall k | 0 <= k < |Order(start, |ts|)| :: Order(start, |ts|)[k] < |ts|
    ensures NoBeRequest(ServeAll(ts, Order(start, |ts|), pool, tokens).0)
  {
    hide ServeAll, Demand, Order, AllInv;
    var order := Order(start, |ts|);
    OrderIsPermutation(start, |ts|);
    OrderDemand(ts, start);
    var ts' := ServeAll(ts, order, pool, tokens).0;
    forall i | 0 <= i < |ts| ensures !ts'[i].lc ==> ts'[i].q == [] {
      if ts[i].lc {
        ServeAllElsewhere(ts, order, pool, tokens, i);
      } else {
        TurnFacts(start, |ts|, i);
        ServeAllDrains(ts, order, pool, tokens, limit, maxCost, Turn(start, |ts|, i));
      }
    }
  }
}
