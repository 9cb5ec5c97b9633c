/** The per-tenant software queue: a modular ring of requests with token accounting. */
module SwQueue {
  import opened Wrappers

  const NVME_SW_QUEUE_SIZE: nat := 2048

  /** A queued request and its cost in tokens. */
  datatype Req = Req(id: nat, cost: nat)

  function Cost(q: seq<Req>): nat {
    if q == [] then 0 else q[0].cost + Cost(q[1..])
  }

  lemma {:induction false} CostAppend(a: seq<Req>, b: seq<Req>)
    ensures Cost(a + b) == Cost(a) + Cost(b)
    decreases |a|
  {
    if a == [] {
      assert a + b == b;
    } else {
      CostAppend(a[1..], b);
      assert (a + b)[1..] == a[1..] + b;
    }
  }

  /** Index k steps after i in a ring of NVME_SW_QUEUE_SIZE. */
  function Around(i: nat, k: nat): (r: nat)
    requires i < NVME_SW_QUEUE_SIZE && k <= NVME_SW_QUEUE_SIZE
    ensures r == (i + k) % NVME_SW_QUEUE_SIZE
  {
    if i + k < NVME_SW_QUEUE_SIZE then i + k else i + k - NVME_SW_QUEUE_SIZE
  }

  /** The n requests from index tail on, going round the ring b. */
  function Window(b: seq<Req>, tail: nat, n: nat): (r: seq<Req>)
    requires |b| == NVME_SW_QUEUE_SIZE && tail < NVME_SW_QUEUE_SIZE
    ensures |r| == n
    decreases n
  {
    if n == 0 then [] else [b[tail]] + Window(b, Around(tail, 1), n - 1)
  }

  /** Writing the first free slot appends to the window and disturbs nothing in it. */
  lemma {:induction false} WindowAppend(b: seq<Req>, tail: nat, n: nat, r: Req)
    requires |b| == NVME_SW_QUEUE_SIZE && tail < NVME_SW_QUEUE_SIZE && n < NVME_SW_QUEUE_SIZE
    ensures Window(b[Around(tail, n) := r], tail, n + 1) == Window(b, tail, n) + [r]
    decreases n
  {
    if n > 0 {
      WindowAppend(b, Around(tail, 1), n - 1, r);
      assert Around(Around(tail, 1), n - 1) == Around(tail, n);
    }
  }

  class NvmeSwQueue {
    var buf: array<Req>
    var count: nat
    var head: nat
    var tail: nat
    var totalTokenDemand: int
    var savedTokens: nat
    var tokenCredit: int

    /** The queued requests, oldest first. */
    ghost function Contents(): seq<Req>
      reads this, buf
      requires buf.Length == NVME_SW_QUEUE_SIZE && tail < NVME_SW_QUEUE_SIZE
    {
      Window(buf[..], tail, count)
    }

    ghost predicate Valid()
      reads this, buf
    {
      && buf.Length == NVME_SW_QUEUE_SIZE
      && tail < NVME_SW_QUEUE_SIZE && count <= NVME_SW_QUEUE_SIZE
      && head == Around(tail, count)
      && totalTokenDemand == Cost(Contents())
    }

    constructor ()
      ensures Valid() && fresh(buf) && Contents() == [] && savedTokens == 0 && tokenCredit == 0
    {
      buf := new Req[NVME_SW_QUEUE_SIZE](_ => Req(0, 0));
      count, head, tail := 0, 0, 0;
      totalTokenDemand, savedTokens, tokenCredit := 0, 0, 0;
    }

    /** Refuses, changing nothing, exactly when the ring is full. */
    method PushBack(r: Req) returns (ok: bool)
      requires Valid()
      modifies this`count, this`head, this`totalTokenDemand, buf
      ensures Valid()
      ensures ok <==> |old(Contents())| < NVME_SW_QUEUE_SIZE
      ensures Contents() == if ok then old(Contents()) + [r] else old(Contents())
    {
      if count == NVME_SW_QUEUE_SIZE {
        return false;
      }
      ghost var b := buf[..];
      WindowAppend(b, tail, count, r);
      CostAppend(Contents(), [r]);
      buf[head] := r;
      assert buf[..] == b[head := r];
      head := (head + 1) % NVME_SW_QUEUE_SIZE;
      count := count + 1;
      totalTokenDemand := totalTokenDemand + r.cost;
      ok := true;
    }

    /** Takes the oldest request off. */
    method PopFront() returns (r: Option<Req>)
      requires Valid()
      modifies this`count, this`tail, this`totalTokenDemand
      ensures Valid()
      ensures old(Contents()) == [] ==> r == None && Contents() == []
      ensures old(Contents()) != [] ==> r == Some(old(Contents())[0]) && Contents() == old(Contents())[1..]
    {
      if count == 0 {
        return None;
      }
      r := Some(buf[tail]);
      totalTokenDemand := totalTokenDemand - buf[tail].cost;
      tail := (tail + 1) % NVME_SW_QUEUE_SIZE;
      count := count - 1;
    }

    /** The cost at the head, or -1. */
    method PeakHeadCost() returns (c: int)
      requires Valid()
      ensures c == if Contents() == [] then -1 else Contents()[0].cost
    {
      if count == 0 {
        return -1;
      }
      return buf[tail].cost;
    }

    /** Saves tokens up to the demand and tells how many were kept. */
    method SaveTokens(tokens: nat) returns (kept: nat)
      requires Valid()
      modifies this`savedTokens
      ensures Valid() && Contents() == old(Contents())
      ensures Cost(Contents()) == 0 ==> kept == 0 && savedTokens == 0
      ensures Cost(Contents()) > 0 ==>
        kept == (if Cost(Contents()) > tokens then tokens else Cost(Contents()))
          && savedTokens == old(savedTokens) + kept
    {
      if totalTokenDemand == 0 {
        savedTokens := 0;
        return 0;
      }
      if totalTokenDemand > tokens {
        savedTokens := savedTokens + tokens;
        return tokens;
      }
      savedTokens := savedTokens + totalTokenDemand;
      return totalTokenDemand;
    }

    method TakeSavedTokens() returns (t: nat)
      modifies this`savedTokens
      ensures t == old(savedTokens) && savedTokens == 0
    {
      t := savedTokens;
      savedTokens := 0;
    }
  }
}
