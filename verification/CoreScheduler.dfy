/** The loops of one thread's round, updating its tenants in place. */
module CoreScheduler {
  import opened SwQueue
  import opened TokenProofs
  import opened ModArith
  import S = TokenScheduler

  predicate Within(order: seq<nat>, n: nat) {
    forall k | 0 <= k < |order| :: order[k] < n
  }

  lemma {:induction false} ServeAllStep(ts: seq<S.Tenant>, i: nat, rest: seq<nat>, pool: nat, tokens: seq<nat>)
    requires |tokens| == |ts| && i < |ts| && Within(rest, |ts|)
    ensures S.ServeAll(ts, [i] + rest, pool, tokens) ==
      if ts[i].lc then S.ServeAll(ts, rest, pool, tokens)
      else
        var (t, p) := S.ServeBe(ts[i], pool, tokens[i]);
        S.ServeAll(ts[i := t], rest, p, tokens)
  {
  }

  lemma {:induction false} UpfromStep(i: nat, n: nat, rest: seq<nat>)
    requires i < n
    ensures S.Upfrom(i, n) + rest == [i] + (S.Upfrom(i + 1, n) + rest)
  {
  }

  lemma {:induction false} UpfromBelow(i: nat, n: nat)
    ensures Within(S.Upfrom(i, n), n)
    decreases n - i
  {
    if i < n {
      UpfromBelow(i + 1, n);
    }
  }

  /** The outcome of subround 1 when the tenants before i are done. */
  function SoFar(ts: seq<S.Tenant>, i: nat, leftover: nat, demand: int, grants: seq<S.Grant>, limit: nat): S.Round1
    requires i <= |ts| == |grants|
  {
    var r := S.Subround1(ts[i..], grants[i..], limit);
    S.Round1(ts[..i] + r.tenants, leftover + r.leftover, demand + r.demand)
  }

  lemma {:induction false} SoFarStart(ts: seq<S.Tenant>, grants: seq<S.Grant>, limit: nat)
    requires |ts| == |grants|
    ensures SoFar(ts, 0, 0, 0, grants, limit) == S.Subround1(ts, grants, limit)
  {
  }

  lemma {:induction false} SoFarStep(ts: seq<S.Tenant>, i: nat, leftover: nat, demand: int, grants: seq<S.Grant>,
      limit: nat)
    requires i < |ts| == |grants|
    ensures var t := S.Credited(ts[i], grants[i], limit);
      SoFar(ts, i, leftover, demand, grants, limit) ==
        if ts[i].lc then
          SoFar(ts[i := t][i := S.Donate(t, grants[i].posLimit)], i + 1, leftover + S.Surplus(t, grants[i].posLimit),
            demand, grants, limit)
        else SoFar(ts, i + 1, leftover, demand + Cost(ts[i].q) - ts[i].saved, grants, limit)
  {
  }

  lemma {:induction false} SoFarDone(ts: seq<S.Tenant>, leftover: nat, demand: int, grants: seq<S.Grant>, limit: nat)
    requires |ts| == |grants|
    ensures SoFar(ts, |ts|, leftover, demand, grants, limit) == S.Round1(ts, leftover, demand)
  {
  }

  class CoreTenants {
    var tenants: seq<S.Tenant>
    var roundrobinStart: nat
    var localLeftover: nat
    var localDemand: int

    constructor ()
      ensures tenants == [] && roundrobinStart == 0
    {
      tenants, roundrobinStart, localLeftover, localDemand := [], 0, 0, 0;
    }

    /** Adds the increment to one LC tenant and issues while its credit is above the limit. */
    method IssueLc(k: nat, g: S.Grant, limit: nat)
      requires k < |tenants|
      modifies `tenants
      ensures tenants == old(tenants[k := S.Credited(tenants[k], g, limit)])
    {
      var t := tenants[k];
      t := t.(credit := t.credit + g.tokens, granted := t.granted + g.tokens);
      while t.q != [] && t.credit + limit > 0
        invariant S.IssueLc(t, limit) == S.Credited(old(tenants[k]), g, limit)
        decreases |t.q|
      {
        t := t.(q := t.q[1..], issued := t.issued + [t.q[0]], credit := t.credit - t.q[0].cost);
      }
      tenants := tenants[k := t];
    }

    /** Serves LC tenants in list order, collects what they give away, and adds up the demand of
        the BE tenants. */
    method Subround1(grants: seq<S.Grant>, limit: nat)
      requires |grants| == |tenants|
      modifies `tenants, `localLeftover, `localDemand
      ensures S.Round1(tenants, localLeftover, localDemand) == old(S.Subround1(tenants, grants, limit))
    {
      hide SoFar, S.Subround1;
      SoFarStart(tenants, grants, limit);
      var leftover: nat, demand: int, i: nat := 0, 0, 0;
      while i < |tenants|
        invariant i <= |tenants| == |grants|
        invariant SoFar(tenants, i, leftover, demand, grants, limit) == old(S.Subround1(tenants, grants, limit))
      {
        SoFarStep(tenants, i, leftover, demand, grants, limit);
        if tenants[i].lc {
          IssueLc(i, grants[i], limit);
          var t := tenants[i];
          leftover := leftover + S.Surplus(t, grants[i].posLimit);
          tenants := tenants[i := S.Donate(t, grants[i].posLimit)];
        } else {
          demand := demand + Cost(tenants[i].q) - tenants[i].saved;
        }
        i := i + 1;
      }
      SoFarDone(tenants, leftover, demand, grants, limit);
      localLeftover, localDemand := leftover, demand;
    }

    /** Serves one BE tenant: its savings and increment join the pool, requests are issued while
        the head can be paid, and what is left is saved up to the remaining demand. */
    method ServeBe(k: nat, pool: nat, tokens: nat) returns (p: nat)
      requires k < |tenants|
      modifies `tenants
      ensures |tenants| == old(|tenants|) && (tenants[k], p) == old(S.ServeBe(tenants[k], pool, tokens))
      ensures tenants == old(tenants)[k := tenants[k]]
    {
      var t := tenants[k];
      p := pool + t.saved + tokens;
      t := t.(saved := 0);
      while t.q != [] && t.q[0].cost <= p
        invariant S.IssueBe(t, p) == S.IssueBe(old(tenants[k]).(saved := 0), pool + old(tenants[k]).saved + tokens)
        decreases |t.q|
      {
        p := p - t.q[0].cost;
        t := t.(q := t.q[1..], issued := t.issued + [t.q[0]]);
      }
      var (t', p') := S.Save(t, p);
      tenants, p := tenants[k := t'], p';
    }

    /** Serves the BE tenants at lo, lo + 1, ... hi - 1; rest is what remains to be served. */
    method ServeRange(lo: nat, hi: nat, pool: nat, tokens: seq<nat>, ghost rest: seq<nat>) returns (p: nat)
      requires lo <= hi <= |tenants| == |tokens| && Within(rest, |tenants|)
      modifies `tenants
      ensures |tenants| == |tokens| && Within(S.Upfrom(lo, hi), |tenants|)
      ensures S.ServeAll(tenants, rest, p, tokens) == S.ServeAll(old(tenants), S.Upfrom(lo, hi) + rest, pool, tokens)
    {
      UpfromBelow(lo, hi);
      p := pool;
      var i := lo;
      while i < hi
        invariant i <= hi <= |tenants| == |tokens| && Within(S.Upfrom(i, hi), |tenants|)
        invariant S.ServeAll(tenants, S.Upfrom(i, hi) + rest, p, tokens)
          == S.ServeAll(old(tenants), S.Upfrom(lo, hi) + rest, pool, tokens)
      {
        UpfromStep(i, hi, rest);
        UpfromBelow(i + 1, hi);
        ServeAllStep(tenants, i, S.Upfrom(i + 1, hi) + rest, p, tokens);
        hide S.ServeAll, S.Upfrom;
        if !tenants[i].lc {
          p := ServeBe(i, p, tokens[i]);
        }
        i := i + 1;
      }
      assert S.Upfrom(hi, hi) + rest == rest;
    }

    /** From the start to the end of the list, then from its front. */
    method ServeAll(pool: nat, tokens: seq<nat>) returns (p: nat)
      requires |tokens| == |tenants|
      modifies `tenants
      ensures Within(S.Order(roundrobinStart, |tokens|), |tokens|)
      ensures (tenants, p) == S.ServeAll(old(tenants), S.Order(roundrobinStart, |tokens|), pool, tokens)
    {
      var b := if roundrobinStart > |tenants| then |tenants| else roundrobinStart;
      UpfromBelow(b, |tenants|);
      UpfromBelow(0, b);
      p := ServeRange(b, |tenants|, pool, tokens, S.Upfrom(0, b));
      p := ServeRange(0, b, p, tokens, []);
      assert S.Upfrom(0, b) + [] == S.Upfrom(0, b);
    }

    /** The unbounded search for the next start; it stops because some tenant is BE. */
    method AdvanceStart()
      modifies `roundrobinStart
      ensures roundrobinStart == old(if S.HasBe(tenants) then S.NextStart(tenants, roundrobinStart, |tenants| - 1)
        else roundrobinStart)
      ensures S.HasBe(tenants) ==> roundrobinStart < |tenants| && !tenants[roundrobinStart].lc
    {
      if S.HasBe(tenants) {
        NextStartIsBe(tenants, roundrobinStart);
        var done := false;
        ghost var left: nat, goal := |tenants| - 1, S.NextStart(tenants, roundrobinStart, |tenants| - 1);
        while !done
          invariant if done then roundrobinStart == goal else goal == S.NextStart(tenants, roundrobinStart, left)
          decreases !done, left
        {
          ghost var s := roundrobinStart;
          roundrobinStart := (roundrobinStart + 1) % |tenants|;
          if !tenants[roundrobinStart].lc {
            done := true;
          } else {
            assert left > 0;
            left := left - 1;
          }
        }
      }
    }
  }
}
