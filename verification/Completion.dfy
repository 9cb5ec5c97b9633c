/** What a run can still reach: from every intact state the whole stream, and from a careless close
    an end of the stream that comes too early. */
module Completion {
  import opened Segments
  import opened EndToEnd
  import S = SendQueues
  import R = Reassembly
  import P = ReassemblyProofs
  import Q = SendQueueProofs

  /** The largest window a peer can offer. */
  const WIDE: nat := 0xFFFF_FFFF

  // ---------------------------------------------------------------- everything on the wire

  lemma {:induction false} OutputEmpties(p: S.Snd)
    ensures var (p', sent) := S.Output(p, WIDE, true);
      p'.unsent == [] && forall x | x in p.unsent :: x.s in sent
    decreases |p.unsent|
  {
    if p.unsent != [] {
      OutputEmpties(S.OutputOne(p));
    }
  }

  ghost predicate OnWire(y: System) {
    forall x | Queued(y.snd, x) :: x.s in y.wire
  }

  /** The retransmission timeout followed by output under a wide window. */
  function Flushed(y: System): (y': System)
    requires P.Sound(y.rcv)
    ensures P.Sound(y'.rcv) && y'.rcv == y.rcv && y'.written == y.written
  {
    Step(Step(y, Timeout), Transmit(WIDE, true))
  }

  lemma {:induction false} FlushedOnWire(y: System)
    requires P.Sound(y.rcv) && NoEmpty(y.snd)
    ensures SameSegments(y.snd, Flushed(y).snd) && OnWire(Flushed(y)) && y.wire <= Flushed(y).wire
  {
    hide S.Output;
    var p := S.RexmitRto(y.snd);
    RtoSame(y.snd);
    OutputSame(p, WIDE, true);
    OutputEmpties(p);
    forall x | Queued(Flushed(y).snd, x) ensures x.s in Flushed(y).wire {
      assert Queued(y.snd, x);
      assert x in p.unsent;
    }
  }

  lemma {:induction false} IntactNoEmpty(y: System, base: int)
    requires Intact(y, base)
    ensures NoEmpty(y.snd)
  {
  }

  // ---------------------------------------------------------------- runs of two and more

  lemma {:induction false} TwoMore(y: System, base: int, a: Action, b: Action, rest: seq<Action>)
    requires P.Sound(y.rcv) && Possible(y, a) && Possible(Step(y, a), b)
    requires AllPossible(Step(Step(y, a), b), rest)
    ensures AllPossible(y, [a, b] + rest)
    ensures Run(y, [a, b] + rest) == Run(Step(Step(y, a), b), rest)
    ensures Careful(y, base, a) && Careful(Step(y, a), base, b) && AllCareful(Step(Step(y, a), b), base, rest) ==>
      AllCareful(y, base, [a, b] + rest)
  {
    hide Step, Possible, Careful;
    var all := [a, b] + rest;
    assert all[1..][0] == b && all[1..][1..] == rest;
    assert AllPossible(Step(y, a), all[1..]);
  }

  // ---------------------------------------------------------------- the receiver catches up

  /** The application reads what it has been given. */
  function ReadAll(p: R.Pcb): (n: nat)
    ensures R.Recved(p, n).rcvWnd == R.TCP_WND
  {
    if p.rcvWnd <= R.TCP_WND then R.TCP_WND - p.rcvWnd else 0
  }

  lemma {:induction false} Somewhere(s: Segment, wire: seq<Segment>) returns (i: nat)
    requires s in wire
    ensures i < |wire| && wire[i] == s
  {
    i :| 0 <= i < |wire| && wire[i] == s;
  }

  /** While anything is missing, a queued segment has it. */
  lemma {:induction false} NextQueued(y: System, base: int) returns (x: TxSeg)
    requires Intact(y, base) && y.rcv.pcb.rcvNxt < Limit(y, base)
    ensures Queued(y.snd, x) && x.s.seqno <= y.rcv.pcb.rcvNxt < x.Next() && !y.rcv.pcb.closed
  {
    var pos := y.rcv.pcb.rcvNxt;
    if pos < base + |y.written| {
      assert Held(y.snd, pos);
      x :| Queued(y.snd, x) && x.s.seqno <= pos < x.s.End();
    } else {
      assert FinHeld(y.snd);
      x :| Queued(y.snd, x) && x.s.fin;
    }
  }

  /** Reading everything and taking one segment that reaches rcvNxt. */
  lemma {:induction false} OneCloser(y: System, base: int, i: nat)
    requires P.Sound(y.rcv) && Intact(y, base) && OnWire(y) && i < |y.wire| && !y.rcv.pcb.closed
    requires y.wire[i].seqno <= y.rcv.pcb.rcvNxt < y.wire[i].seqno + y.wire[i].TcpLen()
    ensures var y1 := Step(y, Consume(ReadAll(y.rcv.pcb))); var y2 := Step(y1, Deliver(i, true, true));
      && Intact(y2, base) && OnWire(y2) && Limit(y2, base) == Limit(y, base) && y2.written == y.written
      && y2.snd == y.snd && y.rcv.pcb.rcvNxt < y2.rcv.pcb.rcvNxt
  {
    hide Intact, R.Input;
    var a, b := Consume(ReadAll(y.rcv.pcb)), Deliver(i, true, true);
    StepIntactIff(y, base, a);
    var y1 := Step(y, a);
    StepIntactIff(y1, base, b);
    P.InputProgress(y1.rcv.pcb, y.wire[i], true, true);
  }

  lemma {:induction false} WithinLimit(y: System, base: int)
    requires Intact(y, base)
    ensures y.rcv.pcb.rcvNxt <= Limit(y, base)
    ensures y.rcv.pcb.rcvNxt == Limit(y, base) ==>
      y.rcv.delivered == y.written && (y.snd.finQueued ==> y.rcv.eofs == 1)
  {
  }

  lemma {:induction false} CatchesUp(y: System, base: int) returns (actions: seq<Action>)
    requires P.Sound(y.rcv) && Intact(y, base) && OnWire(y)
    ensures AllPossible(y, actions) && AllCareful(y, base, actions)
    ensures var y' := Run(y, actions);
      && y'.snd == y.snd && y'.written == y.written && y'.rcv.delivered == y.written
      && (y.snd.finQueued ==> y'.rcv.eofs == 1)
    decreases Limit(y, base) - y.rcv.pcb.rcvNxt
  {
    hide Intact, Step, OnWire;
    WithinLimit(y, base);
    if y.rcv.pcb.rcvNxt == Limit(y, base) {
      actions := [];
    } else {
      var x := NextQueued(y, base);
      var i := OnWireAt(y, x);
      var a, b := Consume(ReadAll(y.rcv.pcb)), Deliver(i, true, true);
      WireStays(y, ReadAll(y.rcv.pcb));
      OneCloser(y, base, i);
      var y2 := Step(Step(y, a), b);
      WithinLimit(y2, base);
      var rest := CatchesUp(y2, base);
      TwoMore(y, base, a, b, rest);
      actions := [a, b] + rest;
    }
  }

  lemma {:induction false} OnWireAt(y: System, x: TxSeg) returns (i: nat)
    requires OnWire(y) && Queued(y.snd, x)
    ensures i < |y.wire| && y.wire[i] == x.s
  {
    i := Somewhere(x.s, y.wire);
  }

  lemma {:induction false} WireStays(y: System, n: nat)
    requires P.Sound(y.rcv)
    ensures Step(y, Consume(n)).wire == y.wire
  {
  }

  /** From every intact state some continuation, careful throughout, hands the receiving application
      everything written and, if the sender has closed, the end: a timeout, output, and the segments
      in order. */
  lemma {:induction false} Completes(y: System, base: int) returns (actions: seq<Action>)
    requires P.Sound(y.rcv) && Intact(y, base)
    ensures AllPossible(y, actions) && AllCareful(y, base, actions)
    ensures var y' := Run(y, actions);
      && y'.written == y.written && y'.rcv.delivered == y.written
      && (y.snd.finQueued ==> y'.rcv.eofs == 1)
  {
    hide Intact, OnWire, S.Output;
    var a, b := Timeout, Transmit(WIDE, true);
    IntactNoEmpty(y, base);
    FlushedOnWire(y);
    StepIntactIff(y, base, a);
    StepIntactIff(Step(y, a), base, b);
    var rest := CatchesUp(Flushed(y), base);
    TwoMore(y, base, a, b, rest);
    actions := [a, b] + rest;
  }

  /** So a careful run is never stuck: whatever the network has done, all of it can still arrive. */
  lemma {:induction false} NeverStuck(base: int, mss: nat, wndMax: nat, actions: seq<Action>)
    returns (more: seq<Action>)
    requires AllPossible(Start(base, mss, wndMax), actions)
    requires AllCareful(Start(base, mss, wndMax), base, actions)
    ensures var y := Run(Start(base, mss, wndMax), actions);
      && AllPossible(y, more) && AllCareful(y, base, more)
      && Run(y, more).rcv.delivered == y.written == Run(y, more).written
      && (y.snd.finQueued ==> Run(y, more).rcv.eofs == 1)
  {
    hide Step, Careful;
    var y0 := Start(base, mss, wndMax);
    var y := Run(y0, actions);
    RunGrows(y0, actions);
    RunKeeps(y0, base, y.written, actions);
    more := Completes(y, base);
  }

  // ---------------------------------------------------------------- the end too early

  /** x and any other queued segment have no byte in common. */
  ghost predicate Apart(p: S.Snd, x: TxSeg) {
    forall z | Queued(p, z) && z != x :: z.s.End() <= x.s.seqno || x.s.End() <= z.s.seqno
  }

  lemma {:induction false} TileApart(u: seq<TxSeg>, s: seq<TxSeg>, lo: int, hi: int, a: TxSeg, b: TxSeg)
    requires Q.Tile(u, s, lo, hi) && (a in u || a in s) && (b in u || b in s) && a != b
    ensures a.Next() <= b.s.seqno || b.Next() <= a.s.seqno
    decreases |u| + |s|
  {
    if u != [] && u[0].s.seqno == lo && lo < u[0].Next() && Q.Tile(u[1..], s, u[0].Next(), hi) {
      Q.TileBounds(u[1..], s, u[0].Next(), hi);
      if a != u[0] && b != u[0] {
        TileApart(u[1..], s, u[0].Next(), hi, a, b);
      }
    } else if s != [] {
      Q.TileBounds(u, s[1..], s[0].Next(), hi);
      if a != s[0] && b != s[0] {
        TileApart(u, s[1..], s[0].Next(), hi, a, b);
      }
    }
  }

  /** As long as the queues tile the sequence space no two segments overlap. */
  lemma {:induction false} TiledApart(p: S.Snd, x: TxSeg)
    requires Q.SenderInv(p) && Queued(p, x)
    ensures Apart(p, x)
  {
    forall z | Queued(p, z) && z != x ensures z.s.End() <= x.s.seqno || x.s.End() <= z.s.seqno {
      TileApart(p.unacked, p.unsent, Q.First(p.unacked, p.unsent, p.lbb), p.lbb, z, x);
    }
  }

  /** What has arrived so far is right, and the segment x is on the wire with a FIN; if the receiver
      has not reached it, it has nothing out of order and all before x is on the wire. */
  ghost predicate Doomed(y: System, base: int, x: Segment) {
    && P.Sound(y.rcv) && P.InOrderExactlyOnce(y.rcv, y.written, base)
    && CutOf(x, y.written, base) && !x.fin && |x.data| < R.TCP_WND
    && y.rcv.pcb.rcvNxt <= x.End() < base + |y.written|
    && x.(fin := true) in y.wire
    && (y.rcv.pcb.rcvNxt < x.seqno ==> y.rcv.pcb.ooseq == [] && WayTo(y, base, x.seqno))
  }

  ghost predicate WayTo(y: System, base: int, end: int) {
    forall pos | y.rcv.pcb.rcvNxt <= pos < end :: Leads(y, base, end, pos)
  }

  ghost predicate Leads(y: System, base: int, end: int, pos: int) {
    exists s :: s in y.wire && CutOf(s, y.written, base) && !s.fin && s.seqno <= pos < s.End() <= end
  }

  /** A segment in turn at an empty queue moves rcvNxt forwards, at most to its end. */
  lemma {:induction false} PlainInput(p: R.Pcb, s: Segment)
    requires p.ooseq == [] && !p.closed && 0 < p.rcvWnd && !s.fin && s.seqno <= p.rcvNxt < s.End()
    ensures var p' := R.Input(p, s, true, true).pcb; p'.ooseq == [] && p.rcvNxt < p'.rcvNxt <= s.End()
  {
    var t := R.LeftTrim(s, p.rcvNxt);
    var (c, rest) := R.Fitted(p, t);
    assert rest == [];
  }

  /** The marked segment ends the stream. */
  lemma {:induction false} EndInput(p: R.Pcb, m: Segment)
    requires R.Ordered(p.ooseq, p.rcvNxt) && !p.closed && p.rcvWnd == R.TCP_WND
    requires m.fin && |m.data| < R.TCP_WND && m.seqno <= p.rcvNxt <= m.End()
    ensures var o := R.Input(p, m, true, true);
      o.gotFin && o.data == m.data[p.rcvNxt - m.seqno..]
  {
    hide R.Absorb;
    var t := R.LeftTrim(m, p.rcvNxt);
    assert t.data == m.data[p.rcvNxt - m.seqno..];
    var (c, rest) := R.Fitted(p, t);
    assert c == t && rest == [];
    var a := R.Accept(p, c, rest);
    assert R.Drain(a) == R.Outcome(a, [], false);
    assert c.data + [] == c.data;
  }

  /** Reading everything and taking the segment at index i. */
  function Taken(y: System, i: nat): System
    requires P.Sound(y.rcv) && i < |y.wire|
  {
    Step(Step(y, Consume(ReadAll(y.rcv.pcb))), Deliver(i, true, true))
  }

  lemma {:induction false} DoomedMoves(y: System, base: int, x: Segment) returns (i: nat)
    requires Doomed(y, base, x) && y.rcv.pcb.rcvNxt < x.seqno
    ensures i < |y.wire| && Doomed(Taken(y, i), base, x) && Taken(y, i).written == y.written
    ensures y.rcv.pcb.rcvNxt < Taken(y, i).rcv.pcb.rcvNxt
  {
    hide R.Input, CutOf, R.Recved, P.InOrderExactlyOnce, P.Sound, Leads;
    i := NextOnWay(y, base, x);
    var s := y.wire[i];
    var y1 := Step(y, Consume(ReadAll(y.rcv.pcb)));
    P.StepDelivers(y.rcv, P.Consume(ReadAll(y.rcv.pcb)), y.written, base);
    P.StepDelivers(y1.rcv, P.Arrive(s, true, true), y.written, base);
    PlainAfterRead(y, base, s);
    WayStays(y, Taken(y, i), base, x.seqno);
  }

  lemma {:induction false} NextOnWay(y: System, base: int, x: Segment) returns (i: nat)
    requires Doomed(y, base, x) && y.rcv.pcb.rcvNxt < x.seqno
    ensures i < |y.wire| && CutOf(y.wire[i], y.written, base) && !y.wire[i].fin
    ensures y.wire[i].seqno <= y.rcv.pcb.rcvNxt < y.wire[i].End() <= x.seqno
  {
    hide CutOf, P.InOrderExactlyOnce, P.Sound;
    assert Leads(y, base, x.seqno, y.rcv.pcb.rcvNxt);
    var s :| s in y.wire && CutOf(s, y.written, base) && !s.fin && s.seqno <= y.rcv.pcb.rcvNxt < s.End() <= x.seqno;
    i := Somewhere(s, y.wire);
  }

  lemma {:induction false} WayStays(y: System, y': System, base: int, end: int)
    requires WayTo(y, base, end) && y'.wire == y.wire && y'.written == y.written
    requires y.rcv.pcb.rcvNxt <= y'.rcv.pcb.rcvNxt
    ensures WayTo(y', base, end)
  {
    hide CutOf;
    forall p | y'.rcv.pcb.rcvNxt <= p < end ensures Leads(y', base, end, p) {
      assert Leads(y, base, end, p);
    }
  }

  lemma {:induction false} PlainAfterRead(y: System, base: int, s: Segment)
    requires P.Sound(y.rcv) && P.InOrderExactlyOnce(y.rcv, y.written, base) && y.rcv.pcb.ooseq == [] && !s.fin
    requires s.seqno <= y.rcv.pcb.rcvNxt < s.End() <= base + |y.written|
    ensures var p1 := R.Recved(y.rcv.pcb, ReadAll(y.rcv.pcb)); var p' := R.Input(p1, s, true, true).pcb;
      p'.ooseq == [] && y.rcv.pcb.rcvNxt < p'.rcvNxt <= s.End()
  {
    PlainInput(R.Recved(y.rcv.pcb, ReadAll(y.rcv.pcb)), s);
  }

  lemma {:induction false} DoomedEnds(y: System, base: int, x: Segment) returns (i: nat)
    requires Doomed(y, base, x) && x.seqno <= y.rcv.pcb.rcvNxt
    ensures i < |y.wire| && Taken(y, i).written == y.written
    ensures Taken(y, i).rcv.eofs == 1 && Taken(y, i).rcv.delivered == y.written[..x.End() - base]
  {
    hide R.Input;
    var m := x.(fin := true);
    i := Somewhere(m, y.wire);
    var p := y.rcv.pcb;
    EndInput(R.Recved(p, ReadAll(p)), m);
    Spliced(y.written, x, base, p.rcvNxt);
  }

  lemma {:induction false} Spliced(written: seq<Byte>, x: Segment, base: int, pos: int)
    requires CutOf(x, written, base) && x.seqno <= pos <= x.End()
    ensures written[..pos - base] + x.data[pos - x.seqno..] == written[..x.End() - base]
  {
    assert x.data[pos - x.seqno..] == written[pos - base..x.End() - base];
  }

  lemma {:induction false} DoomedRuns(y: System, base: int, x: Segment) returns (actions: seq<Action>)
    requires Doomed(y, base, x)
    ensures AllPossible(y, actions)
    ensures var y' := Run(y, actions);
      y'.written == y.written && y'.rcv.eofs == 1 && y'.rcv.delivered == y.written[..x.End() - base]
    decreases x.End() - y.rcv.pcb.rcvNxt
  {
    hide Doomed, Step;
    DoomedBounds(y, base, x);
    var a := Consume(ReadAll(y.rcv.pcb));
    WireStays(y, ReadAll(y.rcv.pcb));
    if y.rcv.pcb.rcvNxt < x.seqno {
      var i := DoomedMoves(y, base, x);
      DoomedBounds(Taken(y, i), base, x);
      var rest := DoomedRuns(Taken(y, i), base, x);
      TwoMore(y, base, a, Deliver(i, true, true), rest);
      actions := [a, Deliver(i, true, true)] + rest;
    } else {
      var i := DoomedEnds(y, base, x);
      TwoMore(y, base, a, Deliver(i, true, true), []);
      actions := [a, Deliver(i, true, true)] + [];
    }
  }

  lemma {:induction false} DoomedBounds(y: System, base: int, x: Segment)
    requires Doomed(y, base, x)
    ensures P.Sound(y.rcv) && base <= x.End() < base + |y.written| && y.rcv.pcb.rcvNxt <= x.End()
  {
  }

  /** Everything the receiver still needs before x is on a queue, apart from x. */
  lemma {:induction false} WayAfterFlush(y: System, base: int, x: TxSeg, y': System)
    requires Intact(y, base) && !y.snd.finQueued && Queued(y.snd, x) && Apart(y.snd, x)
    requires y'.rcv == y.rcv && y'.written == y.written
    requires forall z | Queued(y.snd, z) && z != x :: z.s in y'.wire
    ensures WayTo(y', base, x.s.seqno)
  {
    forall pos | y'.rcv.pcb.rcvNxt <= pos < x.s.seqno ensures Leads(y', base, x.s.seqno, pos) {
      NoFinYet(y, base, y.written, x);
      assert Held(y.snd, pos);
      var z :| Queued(y.snd, z) && z.s.seqno <= pos < z.s.End();
      NoFinYet(y, base, y.written, z);
      assert z.s in y'.wire && z.s.End() <= x.s.seqno;
    }
  }

  /** After the close every segment is queued as before, but for the last unsent one, which has the
      FIN. */
  lemma {:induction false} ClosedQueues(p: S.Snd, ok: bool)
    requires p.unsent != [] && !p.unsent[|p.unsent| - 1].s.fin && NoEmpty(p)
    ensures S.SendFin(p, ok).Some?
    ensures var x := p.unsent[|p.unsent| - 1]; var p' := S.SendFin(p, ok).value;
      && NoEmpty(p') && Queued(p', x.(s := x.s.(fin := true)))
      && (forall z | Queued(p, z) && z != x :: Queued(p', z))
  {
    var q := p.unsent;
    var l := q[|q| - 1];
    var p' := S.SendFin(p, ok).value;
    assert p'.unsent[|q| - 1] == l.(s := l.s.(fin := true));
    forall z | Queued(p, z) && z != l ensures Queued(p', z) {
      if z in q {
        var i :| 0 <= i < |q| && q[i] == z;
        assert p'.unsent[i] == z;
      }
    }
  }

  /** From every close that puts the FIN on an older segment, some continuation tells the receiving
      application that the stream ends where that segment does, although more was written: if the
      receiver stands in the segment, or has nothing out of order and the segment overlaps no
      other. */
  lemma {:induction false} CarelessCloseEndsEarly(y: System, base: int, ok: bool) returns (actions: seq<Action>)
    requires P.Sound(y.rcv) && Intact(y, base) && !y.snd.finQueued && !TailIsNewest(y, base)
    requires var x := y.snd.unsent[|y.snd.unsent| - 1];
      && |x.s.data| < R.TCP_WND && y.rcv.pcb.rcvNxt <= x.s.End()
      && (x.s.seqno <= y.rcv.pcb.rcvNxt || (y.rcv.pcb.ooseq == [] && Apart(y.snd, x)))
    ensures AllPossible(Step(y, Close(ok)), actions)
    ensures var x := y.snd.unsent[|y.snd.unsent| - 1]; var y' := Run(Step(y, Close(ok)), actions);
      && y'.written == y.written && y'.rcv.eofs == 1
      && base <= x.s.End() < base + |y.written| && y'.rcv.delivered == y.written[..x.s.End() - base]
  {
    hide Intact, S.Output, S.SendFin, Apart;
    var x := y.snd.unsent[|y.snd.unsent| - 1];
    IntactNoEmpty(y, base);
    LastIsOld(y, base);
    ClosedQueues(y.snd, ok);
    var y1 := Step(y, Close(ok));
    FlushedOnWire(y1);
    var y3 := Flushed(y1);
    IsDoomed(y, base, x, y1, y3);
    var rest := DoomedRuns(y3, base, x.s);
    TwoMore(y1, base, Timeout, Transmit(WIDE, true), rest);
    actions := [Timeout, Transmit(WIDE, true)] + rest;
  }

  lemma {:induction false} LastIsOld(y: System, base: int)
    requires Intact(y, base) && !y.snd.finQueued && !TailIsNewest(y, base)
    ensures var x := y.snd.unsent[|y.snd.unsent| - 1];
      && !x.s.fin && base <= x.s.End() < base + |y.written| && CutOf(x.s, y.written, base) && Queued(y.snd, x)
  {
    NoFinYet(y, base, y.written, y.snd.unsent[|y.snd.unsent| - 1]);
  }

  lemma {:induction false} IsDoomed(y: System, base: int, x: TxSeg, y1: System, y3: System)
    requires P.Sound(y.rcv) && Intact(y, base) && !y.snd.finQueued && Queued(y.snd, x) && !x.s.fin
    requires x.s.End() < base + |y.written| && CutOf(x.s, y.written, base)
    requires |x.s.data| < R.TCP_WND && y.rcv.pcb.rcvNxt <= x.s.End()
    requires x.s.seqno <= y.rcv.pcb.rcvNxt || (y.rcv.pcb.ooseq == [] && Apart(y.snd, x))
    requires Queued(y1.snd, x.(s := x.s.(fin := true))) && forall z | Queued(y.snd, z) && z != x :: Queued(y1.snd, z)
    requires SameSegments(y1.snd, y3.snd) && OnWire(y3) && y3.rcv == y.rcv && y3.written == y.written
    ensures Doomed(y3, base, x.s)
  {
    forall z | Queued(y.snd, z) && z != x ensures z.s in y3.wire {
      assert Queued(y3.snd, z);
    }
    assert Queued(y3.snd, x.(s := x.s.(fin := true)));
    StreamSoFar(y, base);
    if y.rcv.pcb.rcvNxt < x.s.seqno {
      WayAfterFlush(y, base, x, y3);
    }
  }

  lemma {:induction false} StreamSoFar(y: System, base: int)
    requires Intact(y, base)
    ensures P.InOrderExactlyOnce(y.rcv, y.written, base)
  {
    P.LargerLimit(y.rcv.pcb, y.written, base, Limit(y, base), base + |y.written| + 1);
  }

  /** Otherwise the queue can already bridge the segment: the one with the FIN is then not taken in,
      and the missing first byte carries the receiver past it. */
  lemma {:induction false} BridgedSurvives(mss: nat)
    ensures var q := [Segment(1, [1], false), Segment(2, [2, 3], false)];
      var p := R.Pcb(0, 100, 100, 100, mss, q, false);
      && R.Ordered(q, 0)
      && R.Input(p, Segment(2, [2], true), true, true).pcb.ooseq == q
      && R.Input(p, Segment(0, [0], false), true, true).pcb.rcvNxt == 4
  {
    hide R.Drain;
    var a, b := Segment(1, [1], false), Segment(2, [2, 3], false);
    var q := [a, b];
    var p := R.Pcb(0, 100, 100, 100, mss, q, false);
    assert q[1..] == [b] && [b][1..] == [];
    assert R.Ordered([b], 1);
    assert R.Ordered(q, 0);
    var (c, rest) := R.Fitted(p, Segment(0, [0], false));
    assert c == Segment(0, [0], false) && rest == q;
    P.DrainWrapsIff(R.Accept(p, c, rest));
    assert P.ChainEnd([b], 2) == 4;
    assert P.ChainEnd(q, 1) == 4;
  }
}
