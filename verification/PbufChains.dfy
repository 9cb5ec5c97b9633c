/** Chains of packet buffers as values: 16-bit total lengths, splitting below 64K and delivery. */
module PbufChains {
  import opened ModArith
  import opened Segments

  const TWO16: nat := 0x1_0000

  /** 16-bit arithmetic. */
  function Low(x: int): (r: nat)
    ensures r < TWO16
  {
    x % TWO16
  }

  lemma {:induction false} LowFacts(a: int, b: int)
    ensures Low(Low(a) + Low(b)) == Low(a + b)
    ensures Low(Low(a) - Low(b)) == Low(a - b)
    ensures 0 <= a < TWO16 ==> Low(a) == a && Low(Low(a - b) + b) == a
  {
    var qa, qb, qd := a / TWO16, b / TWO16, (a - b) / TWO16;
    ModMultiple(Low(a) + Low(b), qa + qb, TWO16);
    ModMultiple(Low(a) - Low(b), qa - qb, TWO16);
    ModMultiple(Low(a - b) + b, qd, TWO16);
    assert a == Low(a) + qa * TWO16 && b == Low(b) + qb * TWO16 && a - b == Low(a - b) + qd * TWO16;
  }

  /** One buffer: its bytes, the length of the chain from here on modulo 2^16, and the flag that
      says a FIN follows the data. */
  datatype Pb = Pb(data: seq<Byte>, tot: int, fin: bool)

  function Data(c: seq<Pb>): seq<Byte> {
    if c == [] then [] else c[0].data + Data(c[1..])
  }

  function Total(c: seq<Pb>): nat {
    if c == [] then 0 else |c[0].data| + Total(c[1..])
  }

  /** Every total length is the length of the rest of the chain, modulo 2^16. */
  predicate Consistent(c: seq<Pb>) {
    c != [] ==> |c[0].data| < TWO16 && c[0].tot == Low(Total(c)) && Consistent(c[1..])
  }

  function AddTot(c: seq<Pb>, n: int): (r: seq<Pb>)
    ensures |r| == |c|
  {
    if c == [] then [] else [c[0].(tot := Low(c[0].tot + n))] + AddTot(c[1..], n)
  }

  /** How many more buffers the 16-bit sum takes in before it overflows or stands still. */
  function More(c: seq<Pb>, front: nat): (k: nat)
    ensures k <= |c|
  {
    if c != [] && Low(front + |c[0].data|) > front then 1 + More(c[1..], Low(front + |c[0].data|)) else 0
  }

  /** The number of buffers that stay in front. */
  function Front(c: seq<Pb>): (k: nat)
    requires c != []
    ensures 1 <= k <= |c|
  {
    1 + More(c[1..], |c[0].data|)
  }

  /** The chain cut before buffer k; a FIN flag on the front is copied to the rest. */
  function Cut(c: seq<Pb>, k: nat): (p: (seq<Pb>, seq<Pb>))
    requires 0 < k < |c|
    ensures |p.0| == k && |p.1| == |c| - k
  {
    (AddTot(c[..k], -c[k].tot), [c[k].(fin := c[k].fin || c[0].fin)] + c[k + 1..])
  }

  /** pbuf_split_64k: the front of a chain and the rest. */
  function Split(c: seq<Pb>): (p: (seq<Pb>, seq<Pb>))
    requires c != []
    ensures 0 < |p.0| && |p.0| + |p.1| == |c|
  {
    if Front(c) == |c| then (c, []) else Cut(c, Front(c))
  }

  /** pbuf_cat. */
  function Cat(h: seq<Pb>, t: seq<Pb>): seq<Pb>
    requires t != []
  {
    AddTot(h, t[0].tot) + t
  }

  // ---------------------------------------------------------------- splitting

  lemma {:induction false} TotalSplit(c: seq<Pb>, k: nat)
    requires k <= |c|
    ensures Total(c) == Total(c[..k]) + Total(c[k..]) && Data(c) == Data(c[..k]) + Data(c[k..])
  {
    hide Total, Data;
    if k > 0 {
      TotalSplit(c[1..], k - 1);
      assert c[..k][1..] == c[1..][..k - 1] && c[k..] == c[1..][k - 1..];
      Unfold(c);
      Unfold(c[..k]);
      var d, e := Data(c[1..][..k - 1]), Data(c[k..]);
      assert c[0].data + (d + e) == c[0].data + d + e;
    } else {
      assert c[..0] == [] && c[0..] == c;
      UnfoldEmpty();
    }
  }

  lemma {:induction false} Unfold(c: seq<Pb>)
    requires c != []
    ensures Total(c) == |c[0].data| + Total(c[1..]) && Data(c) == c[0].data + Data(c[1..])
  {
  }

  lemma {:induction false} UnfoldEmpty()
    ensures Total([]) == 0 && Data([]) == []
  {
  }

  lemma {:induction false} ConsistentSuffix(c: seq<Pb>, k: nat)
    requires Consistent(c) && k <= |c|
    ensures Consistent(c[k..])
  {
    if k > 0 {
      ConsistentSuffix(c[1..], k - 1);
      assert c[k..] == c[1..][k - 1..];
    } else {
      assert c[0..] == c;
    }
  }

  lemma {:induction false} AddTotFacts(c: seq<Pb>, n: int)
    ensures Data(AddTot(c, n)) == Data(c) && Total(AddTot(c, n)) == Total(c)
    ensures forall i | 0 <= i < |c| :: AddTot(c, n)[i] == c[i].(tot := Low(c[i].tot + n))
  {
    if c != [] {
      AddTotFacts(c[1..], n);
      assert AddTot(c, n)[1..] == AddTot(c[1..], n);
      forall i | 1 <= i < |c| ensures AddTot(c, n)[i] == c[i].(tot := Low(c[i].tot + n)) {
        assert c[i] == c[1..][i - 1];
      }
    }
  }

  /** The front taken in has a length below 64K. */
  lemma {:induction false} MoreFits(c: seq<Pb>, front: nat)
    requires front < TWO16 && Consistent(c)
    ensures front + Total(c[..More(c, front)]) < TWO16
  {
    if c != [] && Low(front + |c[0].data|) > front {
      var k := More(c, front);
      MoreFits(c[1..], front + |c[0].data|);
      assert c[..k][1..] == c[1..][..k - 1];
    }
  }

  /** Taking the length of the rest off the totals of the front leaves the totals of the front. */
  lemma {:induction false} FrontTotals(c: seq<Pb>, k: nat, n: int)
    requires Consistent(c) && k < |c| && n == c[k].tot
    ensures Consistent(AddTot(c[..k], -n))
    decreases k
  {
    if k > 0 {
      FrontTotals(c[1..], k - 1, n);
      var f := AddTot(c[..k], -n);
      assert c[..k][1..] == c[1..][..k - 1];
      AddTotFacts(c[..k], -n);
      TotalSplit(c, k);
      ConsistentSuffix(c, k);
      assert f[1..] == AddTot(c[1..][..k - 1], -n);
      LowFacts(Total(c), Total(c[k..]));
      hide Low, Total, Data;
      assert f[0].tot == Low(Low(Total(c)) - Low(Total(c[k..])));
    } else {
      assert c[..0] == [];
    }
  }

  /** Exact(c): the total length field is the length, with nothing lost to the modulus. */
  predicate Exact(c: seq<Pb>) {
    c != [] && Total(c) < TWO16 && c[0].tot == Total(c)
  }

  lemma {:induction false} FrontFits(c: seq<Pb>)
    requires Consistent(c) && c != []
    ensures Total(c[..Front(c)]) < TWO16
  {
    MoreFits(c[1..], |c[0].data|);
    assert c[..Front(c)][1..] == c[1..][..Front(c) - 1];
  }

  lemma {:induction false} CutFacts(c: seq<Pb>, k: nat)
    requires Consistent(c) && 0 < k < |c| && Total(c[..k]) < TWO16
    ensures var (f, r) := Cut(c, k);
      Exact(f) && Consistent(f) && Consistent(r) && Data(f) + Data(r) == Data(c)
  {
    var (f, r) := Cut(c, k);
    assert Exact(f) && Consistent(f) && Data(f) == Data(c[..k]) by {
      FrontTotals(c, k, c[k].tot);
      AddTotFacts(c[..k], -c[k].tot);
      LowFacts(Total(f), 0);
    }
    assert Consistent(r) && Data(r) == Data(c[k..]) by {
      ConsistentSuffix(c, k);
      assert r[1..] == c[k..][1..];
    }
    TotalSplit(c, k);
  }

  /** The front has an exact total length below 64K; no byte is lost, moved or repeated. */
  lemma {:induction false} SplitFacts(c: seq<Pb>)
    requires Consistent(c) && c != []
    ensures var (f, r) := Split(c);
      Exact(f) && Consistent(f) && Consistent(r) && Data(f) + Data(r) == Data(c)
  {
    FrontFits(c);
    if Front(c) == |c| {
      assert c[..|c|] == c;
      LowFacts(Total(c), 0);
      assert Data(c) + [] == Data(c);
    } else {
      CutFacts(c, Front(c));
    }
  }

  /** Joining the parts again restores the chain, but for the FIN flag copied to the rest. */
  lemma {:induction false} CatUndoesCut(c: seq<Pb>, k: nat)
    requires Consistent(c) && 0 < k < |c|
    ensures var (f, r) := Cut(c, k); Cat(f, r) == c[k := c[k].(fin := c[k].fin || c[0].fin)]
  {
    hide Low, AddTot, Consistent;
    var (f, r) := Cut(c, k);
    var n := c[k].tot;
    AddTotFacts(c[..k], -n);
    AddTotFacts(f, n);
    forall i | 0 <= i < k ensures AddTot(f, n)[i] == c[i] {
      TotInRange(c, i);
      LowFacts(c[i].tot, n);
    }
    assert AddTot(f, n) == c[..k];
    assert c[..k] + r == c[k := r[0]];
  }

  lemma {:induction false} CatUndoesSplit(c: seq<Pb>)
    requires Consistent(c) && c != [] && Split(c).1 != []
    ensures var (f, r) := Split(c); var k := |f|;
      k < |c| && Cat(f, r) == c[k := c[k].(fin := c[k].fin || c[0].fin)]
  {
    CatUndoesCut(c, Front(c));
  }

  lemma {:induction false} TotInRange(c: seq<Pb>, i: nat)
    requires Consistent(c) && i < |c|
    ensures 0 <= c[i].tot < TWO16
  {
    if i > 0 {
      TotInRange(c[1..], i - 1);
    }
  }

  lemma {:induction false} CatData(h: seq<Pb>, t: seq<Pb>)
    requires t != []
    ensures Data(Cat(h, t)) == Data(h) + Data(t) && Total(Cat(h, t)) == Total(h) + Total(t)
  {
    var c := Cat(h, t);
    AddTotFacts(h, t[0].tot);
    TotalSplit(c, |h|);
    assert c[..|h|] == AddTot(h, t[0].tot) && c[|h|..] == t;
  }

  /** Concatenation of consistent chains is consistent, whatever the lengths. */
  lemma {:induction false} CatConsistent(h: seq<Pb>, t: seq<Pb>)
    requires Consistent(h) && Consistent(t) && t != []
    ensures Consistent(Cat(h, t))
  {
    hide Data, Total, Low, Cat;
    if h != [] {
      CatConsistent(h[1..], t);
      CatData(h, t);
      LowFacts(Total(h), Total(t));
      CatHead(h, t);
    } else {
      CatNothing(t);
    }
  }

  lemma {:induction false} CatHead(h: seq<Pb>, t: seq<Pb>)
    requires h != [] && t != []
    ensures var c := Cat(h, t);
      c != [] && c[0] == h[0].(tot := Low(h[0].tot + t[0].tot)) && c[1..] == Cat(h[1..], t)
  {
  }

  lemma {:induction false} CatNothing(t: seq<Pb>)
    requires t != []
    ensures Cat([], t) == t
  {
  }

  // ---------------------------------------------------------------- delivery

  /** What a turn of the loop meets: a connection closed for reading, or an answer of the
      application to the receive callback. */
  datatype Answer = RxClosed | Taken | Refused | Aborted

  /** What the loop has handed up, what is kept for later, and whether it ended in an abort. */
  datatype Delivery = Delivery(up: seq<seq<Pb>>, kept: seq<Pb>, aborted: bool)

  function Deliver(c: seq<Pb>, answers: seq<Answer>): Delivery
    requires Consistent(c) && |answers| >= |c|
    decreases |c|
  {
    if c == [] then Delivery([], [], false)
    else
      SplitFacts(c);
      var (f, r) := Split(c);
      match answers[0]
      case RxClosed => Delivery([], [], true)
      case Aborted => Delivery([f], [], true)
      case Refused => Delivery([], if r != [] then Cat(f, r) else f, false)
      case Taken =>
        var d := Deliver(r, answers[1..]);
        d.(up := [f] + d.up)
  }

  function AllData(cs: seq<seq<Pb>>): seq<Byte> {
    if cs == [] then [] else Data(cs[0]) + AllData(cs[1..])
  }

  /** Every byte is handed up or kept, in order, in chains whose total length field is exact;
      a chain that is kept is again consistent. */
  lemma {:induction false} DeliverAll(c: seq<Pb>, answers: seq<Answer>)
    requires Consistent(c) && |answers| >= |c|
    ensures var d := Deliver(c, answers);
      && (forall i | 0 <= i < |d.up| :: Exact(d.up[i]))
      && AllData(d.up) <= Data(c)
      && (!d.aborted ==> AllData(d.up) + Data(d.kept) == Data(c) && Consistent(d.kept))
    decreases |c|
  {
    if c != [] {
      SplitFacts(c);
      var (f, r) := Split(c);
      var d := Deliver(c, answers);
      match answers[0]
      case RxClosed =>
      case Aborted =>
        assert AllData([f]) == Data(f);
      case Refused =>
        if r != [] {
          CatConsistent(f, r);
          CatData(f, r);
        } else {
          assert Data(f) + [] == Data(f);
        }
      case Taken =>
        DeliverAll(r, answers[1..]);
        DeliverMore(f, r, Deliver(r, answers[1..]));
    }
  }

  lemma {:induction false} DeliverMore(f: seq<Pb>, r: seq<Pb>, d: Delivery)
    ensures AllData([f] + d.up) == Data(f) + AllData(d.up)
    ensures Data(f) + (AllData(d.up) + Data(d.kept)) == Data(f) + AllData(d.up) + Data(d.kept)
    ensures AllData(d.up) <= Data(r) ==> Data(f) + AllData(d.up) <= Data(f) + Data(r)
  {
  }

  /** If the application takes everything, everything is handed up. */
  lemma {:induction false} DeliverEverything(c: seq<Pb>, answers: seq<Answer>)
    requires Consistent(c) && |answers| >= |c| && forall i | 0 <= i < |answers| :: answers[i] == Taken
    ensures var d := Deliver(c, answers); AllData(d.up) == Data(c) && d.kept == [] && !d.aborted
    decreases |c|
  {
    if c != [] {
      SplitFacts(c);
      var (f, r) := Split(c);
      DeliverEverything(r, answers[1..]);
      DeliverMore(f, r, Deliver(r, answers[1..]));
    }
  }

  /** The loop of tcp_input that hands up what arrived. */
  method DeliverLoop(c: seq<Pb>, answers: seq<Answer>) returns (d: Delivery)
    requires Consistent(c) && |answers| >= |c|
    ensures d == Deliver(c, answers)
  {
    hide Split, Consistent, Exact, Data;
    var recvData, up, i := c, [], 0;
    assert answers[0..] == answers;
    while recvData != []
      invariant Consistent(recvData) && i <= |answers| && |answers| - i >= |recvData|
      invariant var rest := Deliver(recvData, answers[i..]); rest.(up := up + rest.up) == Deliver(c, answers)
      decreases |recvData|
    {
      SplitFacts(recvData);
      var (f, r) := Split(recvData);
      assert answers[i..][0] == answers[i] && answers[i..][1..] == answers[i + 1..];
      match answers[i]
      case RxClosed =>
        return Delivery(up, [], true);
      case Aborted =>
        return Delivery(up + [f], [], true);
      case Refused =>
        if r != [] {
          f := Cat(f, r);
        }
        return Delivery(up, f, false);
      case Taken =>
        assert forall more :: up + ([f] + more) == up + [f] + more;
        recvData, up, i := r, up + [f], i + 1;
    }
    d := Delivery(up, [], false);
  }
}
