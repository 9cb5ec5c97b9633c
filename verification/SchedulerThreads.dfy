/** All scheduler threads at once, as atomic steps: thread-local work between two accesses to
    shared memory is one step, and so are the bucket read, the compare-and-swap, the
    fetch-and-add and the update of the scheduled bit vector. */
module SchedulerThreads {
  import opened SwQueue
  import opened TokenScheduler
  import opened TokenProofs
  import opened Wrappers

  /** Where a thread stands in nvme_sched, with its local token counts. */
  datatype Pc =
    | Idle
    | Decide(leftover: nat, demand: int)
    | Acquire(leftover: nat, need: nat, seen: Option<nat>)
    | Serve(pool: nat)
    | Return(pool: nat)
    | Finish

  datatype Thread = Thread(tenants: seq<Tenant>, rr: nat, pc: Pc)

  /** bucket is global_leftover_tokens, vec the scheduled bit vector.  The rest is history:
      tokens granted, lost to rounding and to resets, moved in and out of the bucket, and the
      rounds completed by each thread, now and at the last reset, and the number of resets. */
  datatype Node = Node(threads: seq<Thread>, bucket: nat, vec: seq<nat>,
                       granted: nat, rounded: nat, reset: nat, deposited: nat, acquired: nat,
                       rounds: seq<nat>, mark: seq<nat>, resets: nat)

  datatype Move =
    | Push(i: nat, k: nat, r: Req)
    | Begin(i: nat, grants: seq<Grant>)
    | Choose(i: nat)
    | Read(i: nat)
    | Cas(i: nat)
    | ServeBes(i: nat, tokens: seq<nat>)
    | Deposit(i: nat)
    | Complete(i: nat)

  /** The thread is at the right place; a request is pushed by the thread itself, between
      rounds, onto a queue that is not full, and costs between 1 and maxCost. */
  predicate Enabled(n: Node, m: Move, maxCost: nat) {
    && m.i < |n.threads|
    && var th := n.threads[m.i];
       match m
       case Push(_, k, r) => th.pc.Idle? && k < |th.tenants| && 1 <= r.cost <= maxCost
         && |th.tenants[k].q| < NVME_SW_QUEUE_SIZE
       case Begin(_, grants) => th.pc.Idle? && |grants| == |th.tenants|
       case Choose(_) => th.pc.Decide?
       case Read(_) => th.pc.Acquire?
       case Cas(_) => th.pc.Acquire? && th.pc.seen.Some?
       case ServeBes(_, tokens) => th.pc.Serve? && |tokens| == |th.tenants|
       case Deposit(_) => th.pc.Return?
       case Complete(_) => th.pc.Finish?
  }

  function Min(a: nat, b: nat): nat {
    if a < b then a else b
  }

  function Enqueue(t: Tenant, r: Req): Tenant {
    t.(q := t.q + [r], accepted := t.accepted + [r])
  }

  /** update_scheduled_bitvector: the last thread to finish a round empties the bucket. */
  predicate AllScheduled(vec: seq<nat>) {
    forall i | 0 <= i < |vec| :: vec[i] > 0
  }

  function Zeros(n: nat): seq<nat> {
    seq(n, _ => 0)
  }

  function CompleteRound(n: Node, i: nat): Node
    requires i < |n.threads| && |n.vec| == |n.threads| == |n.rounds|
  {
    var vec := n.vec[i := n.vec[i] + 1];
    var n' := n.(threads := n.threads[i := n.threads[i].(pc := Idle)], vec := vec,
                 rounds := n.rounds[i := n.rounds[i] + 1]);
    if AllScheduled(vec) then
      n'.(bucket := 0, reset := n.reset + n.bucket, vec := Zeros(|vec|), mark := n'.rounds,
            resets := n.resets + 1)
    else n'
  }

  function Step(n: Node, m: Move, limit: nat, maxCost: nat): Node
    requires Enabled(n, m, maxCost) && |n.vec| == |n.threads| == |n.rounds|
  {
    var th := n.threads[m.i];
    match m
    case Push(i, k, r) =>
      n.(threads := n.threads[i := th.(tenants := th.tenants[k := Enqueue(th.tenants[k], r)])])
    case Begin(i, grants) =>
      if th.tenants == [] then n.(threads := n.threads[i := th.(pc := Finish)])
      else
        var r := Subround1(th.tenants, grants, limit);
        n.(threads := n.threads[i := Thread(r.tenants, th.rr, Decide(r.leftover, r.demand))],
           granted := n.granted + GrantedLc(th.tenants, grants),
           rounded := n.rounded + Lost1(th.tenants, grants, limit))
    case Choose(i) =>
      var l, d := th.pc.leftover, th.pc.demand;
      if l > 0 && d == 0 then
        n.(threads := n.threads[i := th.(pc := Finish)], bucket := n.bucket + l, deposited := n.deposited + l)
      else if l < d then n.(threads := n.threads[i := th.(pc := Acquire(l, d - l, None))])
      else n.(threads := n.threads[i := th.(pc := Serve(l))])
    case Read(i) => n.(threads := n.threads[i := th.(pc := th.pc.(seen := Some(n.bucket)))])
    case Cas(i) =>
      if n.bucket == th.pc.seen.value then
        var got := Min(th.pc.need, th.pc.seen.value);
        n.(threads := n.threads[i := th.(pc := Serve(th.pc.leftover + got))],
           bucket := th.pc.seen.value - got, acquired := n.acquired + got)
      else n.(threads := n.threads[i := th.(pc := th.pc.(seen := None))])
    case ServeBes(i, tokens) =>
      OrderIsPermutation(th.rr, |th.tenants|);
      var (ts, p) := ServeAll(th.tenants, Order(th.rr, |th.tenants|), th.pc.pool, tokens);
      var rr := if HasBe(th.tenants) then NextStart(th.tenants, th.rr, |th.tenants| - 1) else th.rr;
      n.(threads := n.threads[i := Thread(ts, rr, if p > 0 then Return(p) else Finish)],
         granted := n.granted + GrantedBe(th.tenants, Order(th.rr, |th.tenants|), tokens))
    case Deposit(i) =>
      n.(threads := n.threads[i := th.(pc := Finish)],
         bucket := n.bucket + th.pc.pool, deposited := n.deposited + th.pc.pool)
    case Complete(i) => CompleteRound(n, i)
  }

  // ---------------------------------------------------------------- the ledger

  /** Tokens a thread carries between its steps. */
  function InFlight(pc: Pc): nat {
    match pc
    case Decide(l, _) => l
    case Acquire(l, _, _) => l
    case Serve(p) => p
    case Return(p) => p
    case _ => 0
  }

  function Carried(th: Thread): int {
    Total(th.tenants) + InFlight(th.pc)
  }

  function Holdings(ths: seq<Thread>): int {
    if ths == [] then 0 else Carried(ths[0]) + Holdings(ths[1..])
  }

  lemma {:induction false} HoldingsUpdate(ths: seq<Thread>, i: nat, th: Thread)
    requires i < |ths|
    ensures Holdings(ths[i := th]) == Holdings(ths) - Carried(ths[i]) + Carried(th)
    decreases |ths|
  {
    if i == 0 {
      assert ths[i := th][1..] == ths[1..];
    } else {
      HoldingsUpdate(ths[1..], i - 1, th);
      assert ths[i := th][1..] == ths[1..][i - 1 := th];
    }
  }

  predicate ThreadInv(th: Thread, limit: nat, maxCost: nat) {
    && AllInv(th.tenants, limit, maxCost)
    && (th.pc.Decide? ==>
          0 <= th.pc.demand == Demand(th.tenants) && (th.pc.demand == 0 <==> NoBeRequest(th.tenants)))
    && (th.pc.Acquire? ==> 0 < th.pc.need && th.pc.leftover + th.pc.need == Demand(th.tenants))
  }

  /** Nothing is created or lost: every token ever granted has been spent on a request, is held
      by a tenant or a thread, lies in the bucket, or was discarded; and the same for what went
      through the bucket.  The bit vector counts the rounds since the last reset. */
  predicate NodeInv(n: Node, limit: nat, maxCost: nat) {
    && (forall i | 0 <= i < |n.threads| :: ThreadInv(n.threads[i], limit, maxCost))
    && n.granted == Holdings(n.threads) + n.bucket + n.reset + n.rounded
    && n.deposited == n.acquired + n.bucket + n.reset
    && |n.vec| == |n.threads| && |n.rounds| == |n.threads| && |n.mark| == |n.threads|
    && (forall i | 0 <= i < |n.threads| :: n.rounds[i] == n.mark[i] + n.vec[i])
  }

  /** Replacing one thread and moving tokens accordingly. */
  lemma {:induction false} ReplaceThread(n: Node, n': Node, i: nat, th: Thread, limit: nat, maxCost: nat)
    requires NodeInv(n, limit, maxCost) && i < |n.threads| && ThreadInv(th, limit, maxCost)
    requires n'.threads == n.threads[i := th]
    requires n'.vec == n.vec && n'.rounds == n.rounds && n'.mark == n.mark
    requires n'.granted - n.granted == (Carried(th) - Carried(n.threads[i])) + (n'.bucket - n.bucket)
                                       + (n'.reset - n.reset) + (n'.rounded - n.rounded)
    requires n'.deposited - n.deposited == (n'.acquired - n.acquired) + (n'.bucket - n.bucket) + (n'.reset - n.reset)
    ensures NodeInv(n', limit, maxCost)
  {
    HoldingsUpdate(n.threads, i, th);
  }

  lemma {:induction false} PushKeeps(n: Node, i: nat, k: nat, r: Req, limit: nat, maxCost: nat)
    requires NodeInv(n, limit, maxCost) && Enabled(n, Push(i, k, r), maxCost)
    ensures NodeInv(Step(n, Push(i, k, r), limit, maxCost), limit, maxCost)
  {
    var th := n.threads[i];
    var t := th.tenants[k];
    var t' := Enqueue(t, r);
    assert t'.accepted == t'.issued + t'.q by { assert t.issued + t.q + [r] == t.issued + (t.q + [r]); }
    assert TenantInv(t', limit, maxCost);
    TotalUpdate(th.tenants, k, t');
    ReplaceThread(n, Step(n, Push(i, k, r), limit, maxCost), i, th.(tenants := th.tenants[k := t']), limit, maxCost);
  }

  lemma {:induction false} BeginKeeps(n: Node, i: nat, grants: seq<Grant>, limit: nat, maxCost: nat)
    requires NodeInv(n, limit, maxCost) && Enabled(n, Begin(i, grants), maxCost)
    ensures NodeInv(Step(n, Begin(i, grants), limit, maxCost), limit, maxCost)
  {
    var th := n.threads[i];
    var n' := Step(n, Begin(i, grants), limit, maxCost);
    if th.tenants == [] {
      ReplaceThread(n, n', i, th.(pc := Finish), limit, maxCost);
    } else {
      Subround1Facts(th.tenants, grants, limit, maxCost);
      var r := Subround1(th.tenants, grants, limit);
      SameBe(th.tenants, grants, limit);
      Subround1Demand(th.tenants, grants, limit);
      DemandSame(th.tenants, r.tenants);
      ReplaceThread(n, n', i, Thread(r.tenants, th.rr, Decide(r.leftover, r.demand)), limit, maxCost);
    }
  }

  /** Subround 1 does not touch BE tenants. */
  lemma {:induction false} SameBe(ts: seq<Tenant>, grants: seq<Grant>, limit: nat)
    requires |grants| == |ts|
    ensures var ts' := Subround1(ts, grants, limit).tenants;
      forall i | 0 <= i < |ts| :: ts'[i].lc == ts[i].lc && (!ts[i].lc ==> ts'[i] == ts[i])
  {
    if ts != [] {
      SameBe(ts[1..], grants[1..], limit);
      assert forall i | 1 <= i < |ts| :: ts[i] == ts[1..][i-1];
      if ts[0].lc {
        IssueLcKeepsClass(
          ts[0].(credit := ts[0].credit + grants[0].tokens, granted := ts[0].granted + grants[0].tokens), limit);
      }
    }
  }

  lemma {:induction false} IssueLcKeepsClass(t: Tenant, limit: nat)
    ensures IssueLc(t, limit).lc == t.lc
    decreases |t.q|
  {
    if t.q != [] && t.credit + limit > 0 {
      IssueLcKeepsClass(Issue(t).(credit := t.credit - t.q[0].cost), limit);
    }
  }

  lemma {:induction false} ChooseKeeps(n: Node, i: nat, limit: nat, maxCost: nat)
    requires NodeInv(n, limit, maxCost) && Enabled(n, Choose(i), maxCost)
    ensures NodeInv(Step(n, Choose(i), limit, maxCost), limit, maxCost)
  {
    var n' := Step(n, Choose(i), limit, maxCost);
    ReplaceThread(n, n', i, n'.threads[i], limit, maxCost);
  }

  lemma {:induction false} BucketMoveKeeps(n: Node, m: Move, limit: nat, maxCost: nat)
    requires NodeInv(n, limit, maxCost) && Enabled(n, m, maxCost) && (m.Read? || m.Cas? || m.Deposit?)
    ensures NodeInv(Step(n, m, limit, maxCost), limit, maxCost)
  {
    var n' := Step(n, m, limit, maxCost);
    ReplaceThread(n, n', m.i, n'.threads[m.i], limit, maxCost);
  }

  lemma {:induction false} ServeKeeps(n: Node, i: nat, tokens: seq<nat>, limit: nat, maxCost: nat)
    requires NodeInv(n, limit, maxCost) && Enabled(n, ServeBes(i, tokens), maxCost)
    ensures NodeInv(Step(n, ServeBes(i, tokens), limit, maxCost), limit, maxCost)
  {
    var th := n.threads[i];
    var n' := Step(n, ServeBes(i, tokens), limit, maxCost);
    OrderIsPermutation(th.rr, |th.tenants|);
    ServeAllFacts(th.tenants, Order(th.rr, |th.tenants|), th.pc.pool, tokens, limit, maxCost);
    ReplaceThread(n, n', i, n'.threads[i], limit, maxCost);
  }

  lemma {:induction false} CompleteKeeps(n: Node, i: nat, limit: nat, maxCost: nat)
    requires NodeInv(n, limit, maxCost) && Enabled(n, Complete(i), maxCost)
    ensures NodeInv(Step(n, Complete(i), limit, maxCost), limit, maxCost)
  {
    HoldingsUpdate(n.threads, i, n.threads[i].(pc := Idle));
  }

  lemma {:induction false} StepKeeps(n: Node, m: Move, limit: nat, maxCost: nat)
    requires NodeInv(n, limit, maxCost) && Enabled(n, m, maxCost)
    ensures NodeInv(Step(n, m, limit, maxCost), limit, maxCost)
  {
    match m
    case Push(i, k, r) => PushKeeps(n, i, k, r, limit, maxCost);
    case Begin(i, grants) => BeginKeeps(n, i, grants, limit, maxCost);
    case Choose(i) => ChooseKeeps(n, i, limit, maxCost);
    case ServeBes(i, tokens) => ServeKeeps(n, i, tokens, limit, maxCost);
    case Complete(i) => CompleteKeeps(n, i, limit, maxCost);
    case _ => BucketMoveKeeps(n, m, limit, maxCost);
  }
}
