/** One scheduling round of one thread: subround 1 serves the latency-critical (LC) tenants
    against their credit, subround 2 the best-effort (BE) tenants from a shared pool. */
module TokenScheduler {
  import opened SwQueue

  /** A tenant's queue and token fields, with its history: every request accepted and issued,
      every token granted by subround 1, and what was donated or rounded off. */
  datatype Tenant = Tenant(lc: bool, q: seq<Req>, saved: nat, credit: int,
                           accepted: seq<Req>, issued: seq<Req>, granted: nat, donated: nat)

  /** The rounded token increment of an LC tenant and its donation threshold for this round. */
  datatype Grant = Grant(tokens: nat, posLimit: nat)

  /** Tokens a tenant has, or has spent. */
  function Worth(t: Tenant): int {
    t.credit + t.saved + Cost(t.issued)
  }

  function Total(ts: seq<Tenant>): int {
    if ts == [] then 0 else Worth(ts[0]) + Total(ts[1..])
  }

  function Issue(t: Tenant): Tenant
    requires t.q != []
  {
    t.(q := t.q[1..], issued := t.issued + [t.q[0]])
  }

  // ---------------------------------------------------------------- subround 1

  /** Issues while there are requests and the credit is above the deficit limit. */
  function IssueLc(t: Tenant, limit: nat): Tenant
    decreases |t.q|
  {
    if t.q != [] && t.credit + limit > 0 then
      IssueLc(Issue(t).(credit := t.credit - t.q[0].cost), limit)
    else t
  }

  /** Nine tenths of a credit above the threshold are given away, both parts rounded down. */
  function Surplus(t: Tenant, posLimit: nat): nat {
    if t.credit > posLimit then 9 * t.credit / 10 else 0
  }

  function Donate(t: Tenant, posLimit: nat): Tenant {
    if t.credit > posLimit then t.(credit := t.credit / 10, donated := t.donated + (t.credit - t.credit / 10)) else t
  }

  function Credited(t: Tenant, g: Grant, limit: nat): Tenant {
    IssueLc(t.(credit := t.credit + g.tokens, granted := t.granted + g.tokens), limit)
  }

  /** What a thread knows after subround 1. */
  datatype Round1 = Round1(tenants: seq<Tenant>, leftover: nat, demand: int)

  function Subround1(ts: seq<Tenant>, grants: seq<Grant>, limit: nat): (r: Round1)
    requires |grants| == |ts|
    ensures |r.tenants| == |ts|
  {
    if ts == [] then Round1([], 0, 0)
    else
      var r := Subround1(ts[1..], grants[1..], limit);
      if ts[0].lc then
        var t := Credited(ts[0], grants[0], limit);
        Round1([Donate(t, grants[0].posLimit)] + r.tenants, Surplus(t, grants[0].posLimit) + r.leftover, r.demand)
      else
        Round1([ts[0]] + r.tenants, r.leftover, Cost(ts[0].q) - ts[0].saved + r.demand)
  }

  // ---------------------------------------------------------------- subround 2

  /** Issues while the head request can be paid from the pool. */
  function IssueBe(t: Tenant, pool: nat): (Tenant, nat)
    decreases |t.q|
  {
    if t.q != [] && t.q[0].cost <= pool then IssueBe(Issue(t), pool - t.q[0].cost) else (t, pool)
  }

  /** Tokens are saved for a tenant up to what it still has queued. */
  function Save(t: Tenant, pool: nat): (Tenant, nat) {
    var d := Cost(t.q);
    if d == 0 then (t.(saved := 0), pool)
    else if d > pool then (t.(saved := t.saved + pool), 0)
    else (t.(saved := t.saved + d), pool - d)
  }

  function ServeBe(t: Tenant, pool: nat, tokens: nat): (Tenant, nat) {
    var (t', p) := IssueBe(t.(saved := 0), pool + t.saved + tokens);
    Save(t', p)
  }

  /** The indices of the list in serving order: from start to the end, then from the front. */
  function Order(start: nat, n: nat): seq<nat> {
    var b := if start > n then n else start;
    Upfrom(b, n) + Upfrom(0, b)
  }

  function Upfrom(i: nat, n: nat): (r: seq<nat>)
    decreases n - i
  {
    if i < n then [i] + Upfrom(i + 1, n) else []
  }

  /** Serves the BE tenants among the given indices, handing the pool on. */
  function ServeAll(ts: seq<Tenant>, order: seq<nat>, pool: nat, tokens: seq<nat>): (r: (seq<Tenant>, nat))
    requires |tokens| == |ts| && forall i | 0 <= i < |order| :: order[i] < |ts|
    ensures |r.0| == |ts|
    decreases |order|
  {
    if order == [] then (ts, pool)
    else
      var i := order[0];
      if ts[i].lc then ServeAll(ts, order[1..], pool, tokens)
      else
        var (t, p) := ServeBe(ts[i], pool, tokens[i]);
        ServeAll(ts[i := t], order[1..], p, tokens)
  }

  /** The search for the next start: step round the list until a BE tenant, at most left times. */
  function NextStart(ts: seq<Tenant>, start: nat, left: nat): (r: nat)
    requires ts != []
    decreases left
  {
    var j := (start + 1) % |ts|;
    if !ts[j].lc || left == 0 then j else NextStart(ts, j, left - 1)
  }

  predicate HasBe(ts: seq<Tenant>) {
    exists i :: 0 <= i < |ts| && !ts[i].lc
  }
}
