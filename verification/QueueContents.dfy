/** Exactly which bytes the out-of-order queue holds after a segment has been taken in. */
module QueueContents {
  import opened Segments
  import opened Reassembly
  import opened ReassemblyProofs

  predicate Inside(a: Segment, x: int) {
    a.seqno <= x < a.End()
  }

  /** The part of a behind s, which is cut off when s starts inside a. */
  predicate Cuts(a: Segment, s: Segment, x: int) {
    !a.fin && a.seqno < s.seqno < a.End() && s.End() <= x < a.End()
  }

  /** Position x is held by a queued segment, and not in a part that s makes it give up. */
  ghost predicate Survives(q: seq<Segment>, s: Segment, x: int) {
    exists i :: 0 <= i < |q| && Inside(q[i], x) && !Cuts(q[i], s, x)
  }

  /** No queued segment reaches past a FIN. */
  predicate EndsBy(q: seq<Segment>, end: int) {
    forall i | 0 <= i < |q| :: q[i].End() <= end
  }

  // ---------------------------------------------------------------- lists

  lemma {:induction false} CoversCons(a: Segment, q: seq<Segment>, x: int)
    ensures Covers([a] + q, x) <==> Inside(a, x) || Covers(q, x)
  {
    var r := [a] + q;
    assert forall i | 0 <= i < |q| :: r[i + 1] == q[i];
    if Covers(r, x) {
      var i :| 0 <= i < |r| && r[i].seqno <= x < r[i].End();
      assert i == 0 || r[i] == q[i - 1];
    }
    if Inside(a, x) {
      CoveredBy(r, 0, x);
    } else if Covers(q, x) {
      ConsCovers(a, q, x);
    }
  }

  lemma {:induction false} CoversFirst(q: seq<Segment>, x: int)
    requires q != []
    ensures Covers(q, x) <==> Inside(q[0], x) || Covers(q[1..], x)
  {
    CoversCons(q[0], q[1..], x);
    assert [q[0]] + q[1..] == q;
  }

  lemma {:induction false} SurvivesFirst(q: seq<Segment>, s: Segment, x: int)
    requires q != []
    ensures Survives(q, s, x) <==> (Inside(q[0], x) && !Cuts(q[0], s, x)) || Survives(q[1..], s, x)
  {
    var t := q[1..];
    assert forall i | 0 <= i < |t| :: q[i + 1] == t[i];
    if Survives(q, s, x) {
      var i :| 0 <= i < |q| && Inside(q[i], x) && !Cuts(q[i], s, x);
      assert i == 0 || q[i] == t[i - 1];
    }
    if Survives(t, s, x) {
      var i :| 0 <= i < |t| && Inside(t[i], x) && !Cuts(t[i], s, x);
      assert Inside(q[i + 1], x) && !Cuts(q[i + 1], s, x);
    }
  }

  /** Nothing that starts at s or behind it is cut. */
  lemma {:induction false} BehindSurvives(q: seq<Segment>, s: Segment, x: int)
    requires Ordered(q, s.seqno - 1)
    ensures Survives(q, s, x) <==> Covers(q, x)
  {
    OrderedPairwise(q, s.seqno - 1);
    if Covers(q, x) {
      var i :| 0 <= i < |q| && q[i].seqno <= x < q[i].End();
      assert Inside(q[i], x) && !Cuts(q[i], s, x);
    }
  }

  // ---------------------------------------------------------------- merging

  lemma {:induction false} AbsorbExactly(c: Segment, next: seq<Segment>, countFin: bool, x: int)
    requires Ordered(next, c.seqno - 1) && (c.fin ==> next == [])
    ensures Inside(c, x) || Covers(Absorb(c, next, countFin).1, x) <==> Inside(c, x) || Covers(next, x)
    decreases |next|
  {
    if next != [] && c.End() >= next[0].End() {
      CoversFirst(next, x);
      OrderedPairwise(next, c.seqno - 1);
      Weaken(next[1..], next[0].Last(), c.seqno - 1);
      AbsorbExactly(c.(fin := next[0].fin), next[1..], countFin, x);
    }
  }

  /** Merging keeps every byte of both, and adds none. */
  lemma {:induction false} MergeExactly(c: Segment, next: seq<Segment>, countFin: bool, x: int)
    requires Ordered(next, c.seqno - 1) && (c.fin ==> EndsBy(next, c.End()))
    ensures var r := Merge(c, next, countFin);
      Inside(r.0, x) || Covers(r.1, x) <==> Inside(c, x) || Covers(next, x)
  {
    OrderedPairwise(next, c.seqno - 1);
    if c.fin {
      if Covers(next, x) {
        var i :| 0 <= i < |next| && next[i].seqno <= x < next[i].End();
        assert Inside(c, x);
      }
    } else {
      AbsorbExactly(c, next, countFin, x);
      var (c', rest) := Absorb(c, next, countFin);
      if rest != [] && rest[0].seqno <= x < c.End() {
        CoveredBy(rest, 0, x);
      }
    }
  }

  lemma {:induction false} OosInsertExactly(c: Segment, q: seq<Segment>, x: int)
    requires Ordered(q, c.seqno - 1) && (c.fin ==> EndsBy(q, c.End()))
    ensures Covers(OosInsert(c, q), x) <==> Inside(c, x) || Covers(q, x)
  {
    hide Merge;
    MergeExactly(c, q, false, x);
    var (c', rest) := Merge(c, q, false);
    CoversCons(c', rest, x);
  }

  // ---------------------------------------------------------------- the walk

  /** s fits a queue of pieces of the same stream: no FIN is passed. */
  predicate SameEnd(q: seq<Segment>, s: Segment) {
    && (s.fin ==> EndsBy(q, s.End()))
    && forall i | 0 <= i < |q| :: q[i].fin ==> s.End() <= q[i].End()
  }

  lemma {:induction false} PiecesSameEnd(q: seq<Segment>, s: Segment, stream: seq<Byte>, base: int, limit: int)
    requires AllPieces(q, stream, base, limit) && PieceOf(s, stream, base, limit)
    ensures SameEnd(q, s)
  {
  }

  lemma {:induction false} AppendExactly(last: Segment, s: Segment, edge: int, x: int)
    requires last.seqno < s.seqno <= edge && !last.fin && x < edge
    ensures Covers([last.TrimTo(s.seqno), FitWindow(s, edge)], x) <==>
      Inside(s, x) || (Inside(last, x) && !Cuts(last, s, x))
  {
    var a, b := last.TrimTo(s.seqno), FitWindow(s, edge);
    assert [a, b] == [a] + [b] && [b] == [b] + [];
    CoversCons(a, [b], x);
    CoversCons(b, [], x);
  }

  lemma {:induction false} EnqueueAfterExactly(prev: Segment, q: seq<Segment>, s: Segment, edge: int, x: int)
    requires q != [] && Ordered(q, prev.seqno) && prev.End() <= q[0].seqno && !prev.fin
    requires prev.seqno < s.seqno <= edge && SameEnd(q, s) && x < edge
    ensures Covers(EnqueueAfter(prev, q, s, edge), x) <==>
      Inside(s, x) || (Inside(prev, x) && !Cuts(prev, s, x)) || Survives(q, s, x)
    decreases |q|
  {
    hide Survives, Merge, OosInsert;
    var r := EnqueueAfter(prev, q, s, edge);
    OrderedPairwise(q, prev.seqno);
    if s.seqno <= q[0].seqno {
      Weaken(q, prev.seqno, s.seqno - 1);
      BehindSurvives(q, s, x);
      OosInsertExactly(s, q, x);
      CoversCons(prev.TrimTo(s.seqno), OosInsert(s, q), x);
      CoversCons(prev, OosInsert(s, q), x);
      CoversCons(prev, q, x);
      CoversFirst(q, x);
    } else if |q| == 1 {
      SurvivesFirst(q, s, x);
      NothingSurvives(s, x);
      CoversCons(prev, q, x);
      CoversFirst(q, x);
      if !q[0].fin {
        AppendExactly(q[0], s, edge, x);
        assert r == [prev] + [q[0].TrimTo(s.seqno), FitWindow(s, edge)];
        CoversCons(prev, [q[0].TrimTo(s.seqno), FitWindow(s, edge)], x);
      } else {
        NothingCovers(x);
        assert q[1..] == [];
      }
    } else {
      SurvivesFirst(q, s, x);
      Weaken(q[1..], q[0].Last(), q[0].seqno);
      EnqueueAfterExactly(q[0], q[1..], s, edge, x);
      CoversCons(prev, EnqueueAfter(q[0], q[1..], s, edge), x);
    }
  }

  lemma {:induction false} NothingSurvives(s: Segment, x: int)
    ensures !Survives([], s, x)
  {
  }

  lemma {:induction false} NothingCovers(x: int)
    ensures !Covers([], x)
  {
  }

  /** Exactly what is queued inside the window after a segment of the stream has been queued: the
      bytes of the segment, and every byte queued before but for the tail of a segment in which the
      new one starts. */
  lemma {:induction false} EnqueueExactly(q: seq<Segment>, s: Segment, edge: int, stream: seq<Byte>, base: int,
      limit: int, x: int)
    requires s.seqno <= edge && (q != [] ==> Ordered(q, q[0].seqno - 1))
    requires AllPieces(q, stream, base, limit) && PieceOf(s, stream, base, limit) && x < edge
    ensures Covers(Enqueue(q, s, edge), x) <==> Inside(s, x) || Survives(q, s, x)
  {
    hide Survives, Merge, OosInsert, PieceOf, AllPieces, EnqueueAfter;
    PiecesSameEnd(q, s, stream, base, limit);
    if q == [] {
      NothingSurvives(s, x);
      CoversFirst([s], x);
      NothingCovers(x);
      assert [s][1..] == [];
    } else if s.seqno <= q[0].seqno {
      Weaken(q, q[0].seqno - 1, s.seqno - 1);
      BehindSurvives(q, s, x);
      OosInsertExactly(s, q, x);
      CoversFirst(q, x);
    } else if |q| == 1 {
      SurvivesFirst(q, s, x);
      NothingSurvives(s, x);
      CoversFirst(q, x);
      NothingCovers(x);
      if !q[0].fin {
        AppendExactly(q[0], s, edge, x);
      }
    } else {
      SurvivesFirst(q, s, x);
      OrderedPairwise(q, q[0].seqno - 1);
      Weaken(q[1..], q[0].Last(), q[0].seqno);
      EnqueueAfterExactly(q[0], q[1..], s, edge, x);
    }
  }

  // ---------------------------------------------------------------- in sequence

  lemma {:induction false} DrainExactly(p: Pcb, x: int)
    requires Ordered(p.ooseq, p.rcvNxt - 1)
    ensures Covers(Drain(p).pcb.ooseq, x) <==> Covers(p.ooseq, x) && Drain(p).pcb.rcvNxt <= x
    decreases |p.ooseq|
  {
    OrderedPairwise(p.ooseq, p.rcvNxt - 1);
    if p.ooseq != [] && p.ooseq[0].seqno == p.rcvNxt {
      var s := p.ooseq[0];
      CoversFirst(p.ooseq, x);
      Weaken(p.ooseq[1..], s.Last(), p.rcvNxt + s.TcpLen() - 1);
      DrainAdvances(PopFirst(p));
      DrainExactly(PopFirst(p), x);
    }
  }

  /** An in-sequence segment takes off the queue exactly what is now delivered. */
  lemma {:induction false} InSequenceExactly(p: Pcb, s: Segment, stream: seq<Byte>, base: int, limit: int, x: int)
    requires Receiving(p, stream, base, limit) && PieceOf(s, stream, base, limit)
    requires s.seqno == p.rcvNxt && 0 < p.rcvWnd && 0 < s.TcpLen()
    ensures var p' := InSequence(p, s).pcb; Covers(p'.ooseq, x) <==> Covers(p.ooseq, x) && p'.rcvNxt <= x
  {
    hide Merge, Drain, PieceOf, AllPieces, Covers;
    var w := FitWindow(s, p.rcvNxt + p.rcvWnd);
    var (c, rest) := Fitted(p, s);
    Weaken(p.ooseq, p.rcvNxt, p.rcvNxt - 1);
    FitWindowPieces(s, p.rcvNxt + p.rcvWnd, stream, base, limit);
    PiecesSameEnd(p.ooseq, w, stream, base, limit);
    MergeExactly(w, p.ooseq, true, x);
    MergeOrdered(w, p.ooseq, true);
    DrainExactly(Accept(p, c, rest), x);
    InSequenceProgress(p, s);
    DrainAdvances(Accept(p, c, rest));
  }

  // ---------------------------------------------------------------- one arrival

  /** The receiver has the byte at x: delivered or queued. */
  ghost predicate Has(p: Pcb, x: int) {
    x < p.rcvNxt || Covers(p.ooseq, x)
  }

  /** The segment goes to the queue. */
  predicate Queues(p: Pcb, seg: Segment, segOk: bool) {
    segOk && 0 < seg.TcpLen() && !p.closed && p.rcvNxt < seg.seqno < Edge(p)
  }

  /** Whatever arrives, a byte the receiver has inside the window it keeps, but for the tail that a
      queued segment gives up; and a segment that is queued, or is in turn, it takes in whole. */
  lemma {:induction false} InputKeepsBytes(
    p: Pcb, seg: Segment, segOk: bool, ackOk: bool, stream: seq<Byte>, base: int, limit: int, x: int)
    requires Receiving(p, stream, base, limit) && PieceOf(seg, stream, base, limit) && x < Edge(p)
    ensures var p' := Input(p, seg, segOk, ackOk).pcb;
      && (Has(p, x) && (Queues(p, seg, segOk) ==> x < p.rcvNxt || Survives(p.ooseq, seg, x)) ==> Has(p', x))
      && (Inside(seg, x) && (Queues(p, seg, segOk) || InTurn(p, seg)) ==> Has(p', x))
  {
    hide Enqueue, Merge, Drain, Covers, PieceOf, AllPieces, Survives;
    var s := LeftTrim(seg, p.rcvNxt);
    if InTurn(p, seg) {
      LeftTrimPieces(seg, p.rcvNxt, stream, base, limit);
      InSequenceExactly(p, s, stream, base, limit, x);
      InSequenceProgress(p, s);
    } else if Queues(p, seg, segOk) {
      QueueExactly(p, seg, stream, base, limit, x);
    }
  }

  lemma {:induction false} QueueExactly(p: Pcb, s: Segment, stream: seq<Byte>, base: int, limit: int, x: int)
    requires Receiving(p, stream, base, limit) && PieceOf(s, stream, base, limit) && x < Edge(p)
    requires p.rcvNxt < s.seqno < Edge(p)
    ensures p.ooseq != [] ==> Ordered(p.ooseq, p.ooseq[0].seqno - 1)
    ensures Covers(Enqueue(p.ooseq, s, Edge(p)), x) <==> Inside(s, x) || Survives(p.ooseq, s, x)
  {
    hide Enqueue, Covers, PieceOf, AllPieces, Survives;
    if p.ooseq != [] {
      Weaken(p.ooseq, p.rcvNxt, p.ooseq[0].seqno - 1);
    }
    EnqueueExactly(p.ooseq, s, Edge(p), stream, base, limit, x);
  }

  // ---------------------------------------------------------------- the cut at the edge

  /** Cutting to the window keeps exactly the bytes before the edge, and the FIN if it fits too. */
  lemma {:induction false} FitWindowCuts(s: Segment, edge: int, x: int)
    requires s.seqno <= edge
    ensures var r := FitWindow(s, edge);
      && r.seqno + r.TcpLen() <= edge && r.data <= s.data
      && (Inside(r, x) <==> Inside(s, x) && x < edge)
      && (r.fin <==> s.fin && s.End() < edge)
  {
  }

  /** So a segment in turn never carries rcvNxt past the right edge by itself, however long it is. */
  lemma {:induction false} InTurnStopsAtEdge(p: Pcb, seg: Segment, segOk: bool, ackOk: bool)
    requires p.ooseq == [] && 0 <= p.rcvWnd
    ensures var p' := Input(p, seg, segOk, ackOk).pcb;
      && p'.rcvNxt <= Edge(p) && 0 <= p'.rcvWnd
      && (InTurn(p, seg) ==>
            p'.rcvNxt == if seg.seqno + seg.TcpLen() <= Edge(p) then seg.seqno + seg.TcpLen() else Edge(p))
  {
    if InTurn(p, seg) {
      var s := LeftTrim(seg, p.rcvNxt);
      FitWindowCuts(s, Edge(p), p.rcvNxt);
      var (c, rest) := Fitted(p, s);
      assert rest == [] && c == FitWindow(s, Edge(p));
    }
  }
}
