/** Both ends together: a sender that stays inside the window it is offered never makes the receive
    window wrap. */
module FlowControl {
  import opened Segments
  import opened SequenceNumbers
  import opened EndToEnd
  import opened QueueContents
  import S = SendQueues
  import SP = SendProgress
  import R = Reassembly
  import P = ReassemblyProofs
  import W = WindowReads

  // ---------------------------------------------------------------- the queue stays below the edge

  lemma {:induction false} ConsWithin(a: Segment, q: seq<Segment>, end: int)
    ensures EndsBy([a] + q, end) <==> a.End() <= end && EndsBy(q, end)
  {
    var r := [a] + q;
    assert forall i | 0 <= i < |q| :: r[i + 1] == q[i];
    if EndsBy(r, end) {
      assert r[0] == a;
    }
  }

  lemma {:induction false} AbsorbWithin(c: Segment, next: seq<Segment>, countFin: bool, end: int)
    requires R.Ordered(next, c.seqno - 1) && EndsBy(next, end)
    ensures EndsBy(R.Absorb(c, next, countFin).1, end)
    decreases |next|
  {
    if next != [] && (if countFin then c.seqno + c.TcpLen() else c.End()) >= next[0].End() {
      R.Weaken(next[1..], next[0].Last(), c.seqno - 1);
      AbsorbWithin(c.(fin := c.fin || next[0].fin), next[1..], countFin, end);
    }
  }

  lemma {:induction false} MergeWithin(c: Segment, next: seq<Segment>, countFin: bool, end: int)
    requires R.Ordered(next, c.seqno - 1) && EndsBy(next, end) && c.End() <= end
    ensures var r := R.Merge(c, next, countFin); r.0.End() <= end && EndsBy(r.1, end)
  {
    if !c.fin {
      AbsorbWithin(c, next, countFin, end);
    }
  }

  lemma {:induction false} OosInsertWithin(c: Segment, q: seq<Segment>, end: int)
    requires R.Ordered(q, c.seqno - 1) && EndsBy(q, end) && c.End() <= end
    ensures EndsBy(R.OosInsert(c, q), end)
  {
    hide R.Merge, EndsBy;
    MergeWithin(c, q, false, end);
    ConsWithin(R.Merge(c, q, false).0, R.Merge(c, q, false).1, end);
  }

  lemma {:induction false} AppendWithin(last: Segment, s: Segment, edge: int, end: int)
    requires last.seqno <= s.seqno <= edge && last.End() <= end && s.End() <= end
    ensures EndsBy([last.TrimTo(s.seqno), R.FitWindow(s, edge)], end)
  {
  }

  lemma {:induction false} EnqueueAfterWithin(prev: Segment, q: seq<Segment>, s: Segment, edge: int, end: int)
    requires q != [] && R.Ordered(q, prev.seqno) && prev.seqno < s.seqno <= edge
    requires prev.End() <= end && EndsBy(q, end) && s.End() <= end
    ensures EndsBy(R.EnqueueAfter(prev, q, s, edge), end)
    decreases |q|
  {
    hide R.OosInsert;
    ConsWithin(prev, q, end);
    if s.seqno <= q[0].seqno {
      R.Weaken(q, prev.seqno, s.seqno - 1);
      OosInsertWithin(s, q, end);
      ConsWithin(prev.TrimTo(s.seqno), R.OosInsert(s, q), end);
      ConsWithin(prev, R.OosInsert(s, q), end);
    } else if |q| == 1 {
      AppendWithin(q[0], s, edge, end);
      var tail := [q[0].TrimTo(s.seqno), R.FitWindow(s, edge)];
      ConsWithin(prev, tail, end);
      assert [prev] + tail == [prev, q[0].TrimTo(s.seqno), R.FitWindow(s, edge)];
    } else {
      R.Weaken(q[1..], q[0].Last(), q[0].seqno);
      EnqueueAfterWithin(q[0], q[1..], s, edge, end);
      ConsWithin(prev, R.EnqueueAfter(q[0], q[1..], s, edge), end);
    }
  }

  lemma {:induction false} EnqueueWithin(q: seq<Segment>, s: Segment, edge: int, end: int)
    requires s.seqno <= edge && (q != [] ==> R.Ordered(q, q[0].seqno - 1))
    requires EndsBy(q, end) && s.End() <= end
    ensures EndsBy(R.Enqueue(q, s, edge), end)
  {
    hide R.OosInsert, R.EnqueueAfter;
    if q != [] {
      if s.seqno <= q[0].seqno {
        R.Weaken(q, q[0].seqno - 1, s.seqno - 1);
        OosInsertWithin(s, q, end);
      } else if |q| == 1 {
        AppendWithin(q[0], s, edge, end);
      } else {
        R.Weaken(q[1..], q[0].Last(), q[0].seqno);
        EnqueueAfterWithin(q[0], q[1..], s, edge, end);
      }
    }
  }

  lemma {:induction false} DrainWithin(p: R.Pcb, end: int)
    requires EndsBy(p.ooseq, end)
    ensures EndsBy(R.Drain(p).pcb.ooseq, end)
    decreases |p.ooseq|
  {
    if p.ooseq != [] && p.ooseq[0].seqno == p.rcvNxt {
      DrainWithin(R.PopFirst(p), end);
    }
  }

  /** Segments below the edge that follow each other without a gap end there, or one past it for a
      FIN. */
  lemma {:induction false} ChainWithin(q: seq<Segment>, pos: int, end: int)
    requires R.Ordered(q, pos - 1) && EndsBy(q, end) && pos <= end
    ensures P.ChainEnd(q, pos) <= end + if P.ChainFin(q, pos) then 1 else 0
    decreases |q|
  {
    if q != [] && q[0].seqno == pos {
      if q[0].fin {
        assert q[1..] == [];
      } else {
        R.Weaken(q[1..], q[0].Last(), pos + q[0].TcpLen() - 1);
        ChainWithin(q[1..], pos + q[0].TcpLen(), end);
      }
    }
  }

  // ---------------------------------------------------------------- one arrival

  /** The window is not wrapped and nothing queued reaches past the edge. */
  predicate Below(p: R.Pcb) {
    0 <= p.rcvWnd <= R.TCP_WND && EndsBy(p.ooseq, P.Edge(p))
  }

  lemma {:induction false} InTurnBelow(p: R.Pcb, seg: Segment, segOk: bool, ackOk: bool)
    requires R.Ordered(p.ooseq, p.rcvNxt) && Below(p) && seg.End() <= P.Edge(p) && P.InTurn(p, seg)
    ensures Below(R.Input(p, seg, segOk, ackOk).pcb) && P.Edge(p) <= P.Edge(R.Input(p, seg, segOk, ackOk).pcb)
  {
    hide R.Merge, R.Drain, EndsBy;
    var s, e := R.LeftTrim(seg, p.rcvNxt), P.Edge(p);
    var w := R.FitWindow(s, e);
    var (c, rest) := R.Fitted(p, s);
    R.Weaken(p.ooseq, p.rcvNxt, p.rcvNxt - 1);
    MergeWithin(w, p.ooseq, true, e);
    P.MergeOrdered(w, p.ooseq, true);
    W.FinEndsMerge(w, p.ooseq);
    var a := R.Accept(p, c, rest);
    P.InputWrapsIff(p, seg, segOk, ackOk);
    if !c.fin {
      ChainWithin(rest, c.seqno + c.TcpLen(), e);
    } else {
      assert P.ChainEnd([], c.seqno + c.TcpLen()) == c.seqno + c.TcpLen();
    }
    DrainWithin(a, e);
    P.DrainAdvances(a);
    WithinMore(R.Drain(a).pcb.ooseq, e, e + 1);
  }

  lemma {:induction false} WithinMore(q: seq<Segment>, a: int, b: int)
    requires EndsBy(q, a) && a <= b
    ensures EndsBy(q, b)
  {
  }

  lemma {:induction false} InputBelow(p: R.Pcb, seg: Segment, segOk: bool, ackOk: bool)
    requires R.Ordered(p.ooseq, p.rcvNxt) && Below(p) && seg.End() <= P.Edge(p)
    ensures Below(R.Input(p, seg, segOk, ackOk).pcb) && P.Edge(p) <= P.Edge(R.Input(p, seg, segOk, ackOk).pcb)
  {
    hide R.Enqueue, R.Merge, R.Drain, EndsBy;
    if P.InTurn(p, seg) {
      InTurnBelow(p, seg, segOk, ackOk);
    } else {
      var s := R.LeftTrim(seg, p.rcvNxt);
      if 0 < seg.TcpLen() && !p.closed && p.rcvNxt < s.seqno < P.Edge(p) {
        if p.ooseq != [] {
          R.Weaken(p.ooseq, p.rcvNxt, p.ooseq[0].seqno - 1);
        }
        EnqueueWithin(p.ooseq, s, P.Edge(p), P.Edge(p));
      }
    }
  }

  lemma {:induction false} RecvedBelow(p: R.Pcb, n: nat)
    requires Below(p)
    ensures Below(R.Recved(p, n)) && P.Edge(p) <= P.Edge(R.Recved(p, n))
  {
    hide EndsBy;
    WithinMore(p.ooseq, P.Edge(p), P.Edge(R.Recved(p, n)));
  }

  // ---------------------------------------------------------------- whole runs

  /** The sender's window ends at the receiver's right edge or before it, as any window the receiver
      has announced does; and 32 bits tell its positions apart. */
  predicate Honest(y: System, a: Action) {
    a.Transmit? ==>
      && y.snd.lastack + a.wnd <= P.Edge(y.rcv.pcb)
      && forall i | 0 <= i < |y.snd.unsent| :: y.snd.unsent[i].s.End() - y.snd.lastack < TWO_32
  }

  predicate AllHonest(y: System, actions: seq<Action>)
    requires P.Sound(y.rcv) && AllPossible(y, actions)
    decreases |actions|
  {
    actions != [] ==> Honest(y, actions[0]) && AllHonest(Step(y, actions[0]), actions[1..])
  }

  /** Nothing on the wire or on the queue reaches past the receiver's right edge. */
  predicate Flows(y: System) {
    Below(y.rcv.pcb) && EndsBy(y.wire, P.Edge(y.rcv.pcb))
  }

  lemma {:induction false} SmallDistance(d: int, wnd: nat)
    requires d < TWO_32 && U32(d) <= wnd
    ensures d <= wnd
  {
  }

  lemma {:induction false} SentBelow(y: System, wnd: nat, pushNow: bool)
    requires Honest(y, Transmit(wnd, pushNow))
    ensures EndsBy(S.Output(y.snd, wnd, pushNow).1, P.Edge(y.rcv.pcb))
  {
    hide S.Output, U32;
    SP.OutputSends(y.snd, wnd, pushNow);
    var sent := S.Output(y.snd, wnd, pushNow).1;
    forall i | 0 <= i < |sent| ensures sent[i].End() <= P.Edge(y.rcv.pcb) {
      SmallDistance(y.snd.unsent[i].s.End() - y.snd.lastack, wnd);
    }
  }

  lemma {:induction false} JoinWithin(a: seq<Segment>, b: seq<Segment>, end: int)
    requires EndsBy(a, end) && EndsBy(b, end)
    ensures EndsBy(a + b, end)
  {
  }

  lemma {:induction false} StepFlows(y: System, a: Action)
    requires P.Sound(y.rcv) && Possible(y, a) && Flows(y) && Honest(y, a)
    ensures Flows(Step(y, a)) && P.Edge(y.rcv.pcb) <= P.Edge(Step(y, a).rcv.pcb)
  {
    hide R.Input, S.Output, S.Write, S.Ack, S.SendFin, R.Recved, EndsBy;
    match a
    case Transmit(wnd, pushNow) =>
      SentBelow(y, wnd, pushNow);
      JoinWithin(y.wire, S.Output(y.snd, wnd, pushNow).1, P.Edge(y.rcv.pcb));
    case Deliver(i, segOk, ackOk) =>
      AtIndex(y.wire, i, P.Edge(y.rcv.pcb));
      InputBelow(y.rcv.pcb, y.wire[i], segOk, ackOk);
      WithinMore(y.wire, P.Edge(y.rcv.pcb), P.Edge(Step(y, a).rcv.pcb));
    case Consume(n) =>
      RecvedBelow(y.rcv.pcb, n);
      WithinMore(y.wire, P.Edge(y.rcv.pcb), P.Edge(Step(y, a).rcv.pcb));
    case _ =>
  }

  lemma {:induction false} AtIndex(q: seq<Segment>, i: nat, end: int)
    requires EndsBy(q, end) && i < |q|
    ensures q[i].End() <= end
  {
  }

  lemma {:induction false} RunFlows(y: System, actions: seq<Action>)
    requires P.Sound(y.rcv) && AllPossible(y, actions) && Flows(y) && AllHonest(y, actions)
    ensures Flows(Run(y, actions)) && P.Edge(y.rcv.pcb) <= P.Edge(Run(y, actions).rcv.pcb)
    decreases |actions|
  {
    hide Flows, Honest, Step;
    if actions != [] {
      StepFlows(y, actions[0]);
      RunFlows(Step(y, actions[0]), actions[1..]);
    }
  }

  /** Over any run from a new connection in which every transmission respects a window the receiver
      can offer, careful or not: rcv_wnd stays between 0 and TCP_WND, and no segment on the wire or on
      the queue has a byte past the right edge. */
  lemma {:induction false} NeverOverrun(base: int, mss: nat, wndMax: nat, actions: seq<Action>)
    requires AllPossible(Start(base, mss, wndMax), actions) && AllHonest(Start(base, mss, wndMax), actions)
    ensures var y := Run(Start(base, mss, wndMax), actions);
      && 0 <= y.rcv.pcb.rcvWnd <= R.TCP_WND
      && (forall i | 0 <= i < |y.wire| :: y.wire[i].End() <= P.Edge(y.rcv.pcb))
      && (forall i | 0 <= i < |y.rcv.pcb.ooseq| :: y.rcv.pcb.ooseq[i].End() <= P.Edge(y.rcv.pcb))
  {
    RunFlows(Start(base, mss, wndMax), actions);
  }
}
