/** The receive window against what the application has read, and how far behind it the announced
    edge may be. */
module WindowReads {
  import opened Segments
  import opened Reassembly
  import opened ReassemblyProofs

  // ---------------------------------------------------------------- what arrives

  /** Draining moves rcvNxt by the bytes handed up, and one more for a FIN. */
  lemma {:induction false} DrainCounts(p: Pcb)
    requires Ordered(p.ooseq, p.rcvNxt - 1)
    ensures var o := Drain(p); o.pcb.rcvNxt == p.rcvNxt + |o.data| + if o.gotFin then 1 else 0
    decreases |p.ooseq|
  {
    if p.ooseq != [] && p.ooseq[0].seqno == p.rcvNxt {
      var s := p.ooseq[0];
      Weaken(p.ooseq[1..], s.Last(), p.rcvNxt + s.TcpLen() - 1);
      DrainCounts(PopFirst(p));
    }
  }

  lemma {:induction false} InSequenceCounts(p: Pcb, s: Segment)
    requires Ordered(p.ooseq, p.rcvNxt) && s.seqno == p.rcvNxt && 0 < p.rcvWnd && 0 < s.TcpLen()
    ensures var o := InSequence(p, s);
      && o.pcb.rcvNxt == p.rcvNxt + |o.data| + (if o.gotFin then 1 else 0)
      && Edge(o.pcb) == Edge(p)
  {
    hide Merge, Drain;
    var w := FitWindow(s, p.rcvNxt + p.rcvWnd);
    Weaken(p.ooseq, p.rcvNxt, p.rcvNxt - 1);
    MergeOrdered(w, p.ooseq, true);
    FinEndsMerge(w, p.ooseq);
    var (c, rest) := Fitted(p, s);
    DrainCounts(Accept(p, c, rest));
    DrainAdvances(Accept(p, c, rest));
    DrainNothing(Accept(p, c, rest));
  }

  lemma {:induction false} FinEndsMerge(c: Segment, next: seq<Segment>)
    requires Ordered(next, c.seqno - 1)
    ensures var r := Merge(c, next, true); r.0.fin ==> r.1 == []
  {
  }

  lemma {:induction false} DrainNothing(p: Pcb)
    ensures p.ooseq == [] ==> Drain(p) == Outcome(p, [], false)
  {
  }

  /** For any segment: the window shrinks by exactly the bytes handed up, FIN or not. */
  lemma {:induction false} InputCounts(p: Pcb, seg: Segment, segOk: bool, ackOk: bool)
    requires Ordered(p.ooseq, p.rcvNxt) && p.rcvWnd <= TCP_WND
    ensures var o := Input(p, seg, segOk, ackOk); o.pcb.rcvWnd == p.rcvWnd - |o.data|
  {
    hide Enqueue, Merge, Drain;
    if InTurn(p, seg) {
      InSequenceCounts(p, LeftTrim(seg, p.rcvNxt));
    }
  }

  // ---------------------------------------------------------------- what is read

  /** The window is what remains of TCP_WND beside the bytes handed up and not yet read. */
  predicate Tracks(h: History, consumed: nat) {
    consumed <= |h.delivered| && h.pcb.rcvWnd == TCP_WND - (|h.delivered| - consumed)
  }

  function Reads(e: Event): nat {
    if e.Consume? then e.n else 0
  }

  /** The application reads no more than it was given. */
  predicate Given(h: History, consumed: nat, e: Event) {
    consumed + Reads(e) <= |h.delivered|
  }

  predicate AllGiven(h: History, consumed: nat, es: seq<Event>)
    requires Sound(h)
    decreases |es|
  {
    es != [] ==> Given(h, consumed, es[0]) && AllGiven(Step(h, es[0]), consumed + Reads(es[0]), es[1..])
  }

  /** The field is not wrapped, or what is read unwraps it. */
  predicate Unwraps(h: History, e: Event) {
    e.Consume? ==> 0 <= h.pcb.rcvWnd + e.n
  }

  predicate AllUnwrap(h: History, es: seq<Event>)
    requires Sound(h)
    decreases |es|
  {
    es != [] ==> Unwraps(h, es[0]) && AllUnwrap(Step(h, es[0]), es[1..])
  }

  predicate AlwaysTracks(h: History, consumed: nat, es: seq<Event>)
    requires Sound(h)
    decreases |es|
  {
    Tracks(h, consumed) && (es != [] ==> AlwaysTracks(Step(h, es[0]), consumed + Reads(es[0]), es[1..]))
  }

  lemma {:induction false} StepTracksIff(h: History, consumed: nat, e: Event)
    requires Sound(h) && Tracks(h, consumed) && Given(h, consumed, e)
    ensures Tracks(Step(h, e), consumed + Reads(e)) <==> Unwraps(h, e)
  {
    hide Input;
    if e.Arrive? {
      InputCounts(h.pcb, e.seg, e.segOk, e.ackOk);
    }
  }

  /** Over any run with any segments, in which the application reads what it was given: rcv_wnd is
      TCP_WND less the unread bytes after every event if and only if no read finds it wrapped by more
      than it gives back. */
  lemma {:induction false} WindowTracksIff(h: History, consumed: nat, es: seq<Event>)
    requires Sound(h) && Tracks(h, consumed) && AllGiven(h, consumed, es)
    ensures AlwaysTracks(h, consumed, es) <==> AllUnwrap(h, es)
    decreases |es|
  {
    hide Step, Tracks, Unwraps;
    if es != [] {
      StepTracksIff(h, consumed, es[0]);
      if Unwraps(h, es[0]) {
        WindowTracksIff(Step(h, es[0]), consumed + Reads(es[0]), es[1..]);
      } else {
        TracksNoMore(Step(h, es[0]), consumed + Reads(es[0]), es[1..]);
      }
    }
  }

  lemma {:induction false} TracksNoMore(h: History, consumed: nat, es: seq<Event>)
    requires Sound(h) && !Tracks(h, consumed)
    ensures !AlwaysTracks(h, consumed, es)
  {
  }

  /** So with a window that stays sound it always is. */
  lemma {:induction false} SoundWindowTracks(h: History, consumed: nat, es: seq<Event>)
    requires Sound(h) && Tracks(h, consumed) && AllGiven(h, consumed, es) && WindowAlwaysOk(h, es)
    ensures AlwaysTracks(h, consumed, es)
  {
    SoundUnwraps(h, es);
    WindowTracksIff(h, consumed, es);
  }

  lemma {:induction false} SoundUnwraps(h: History, es: seq<Event>)
    requires Sound(h) && WindowAlwaysOk(h, es)
    ensures AllUnwrap(h, es)
    decreases |es|
  {
    hide Step;
    if es != [] {
      SoundUnwraps(Step(h, es[0]), es[1..]);
    }
  }

  // ---------------------------------------------------------------- what is announced

  /** After the application has read something and a header has gone out, the announced edge is the
      real one or less than the threshold behind it. */
  lemma {:induction false} ReadingIsAnnounced(p: Pcb, n: nat)
    requires p.annEdge <= Edge(Recved(p, n))
    ensures var p' := Announce(Recved(p, n));
      && p'.annEdge <= Edge(p')
      && (p'.annEdge < Edge(p') ==> Edge(p') - p'.annEdge < Threshold(p.mss))
  {
  }

  /** A segment that is not the next one expected is answered at once, with what the window is. */
  lemma {:induction false} OutOfTurnIsAnswered(p: Pcb, seg: Segment, segOk: bool)
    requires Ordered(p.ooseq, p.rcvNxt) && 0 < seg.TcpLen() && !p.closed && !InTurn(p, seg)
    ensures var p' := Input(p, seg, segOk, true).pcb;
      p'.annEdge == p.rcvNxt + p.annWnd && p'.rcvNxt == p.rcvNxt && p'.rcvWnd == p.rcvWnd
  {
    hide Enqueue, Merge;
  }

  /** The same after a segment in turn has been taken in, but for the position of a FIN. */
  lemma {:induction false} ArrivalIsAnnounced(p: Pcb, seg: Segment, segOk: bool, ackOk: bool)
    requires Ordered(p.ooseq, p.rcvNxt) && InTurn(p, seg) && p.annEdge <= Edge(p)
    ensures var o := Input(p, seg, segOk, ackOk); var p' := Announce(o.pcb);
      Edge(p') - p'.annEdge <= Threshold(p.mss) + (if o.gotFin then 1 else 0)
  {
    hide Merge, Drain;
    var (c, rest) := Fitted(p, LeftTrim(seg, p.rcvNxt));
    DrainUpdated(Accept(p, c, rest));
    DrainAdvances(Accept(p, c, rest));
  }
}
