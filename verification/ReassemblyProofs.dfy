/** What the receive half guarantees: the shape of the out-of-order queue, in-order
    exactly-once delivery, progress, and the announced window. */
module ReassemblyProofs {
  import opened Segments
  import opened Reassembly

  // ---------------------------------------------------------------- the queue

  /** Ordered, spelled out on indices. */
  lemma {:induction false} OrderedPairwise(q: seq<Segment>, lo: int)
    requires Ordered(q, lo)
    ensures forall i | 0 <= i < |q| :: lo < q[i].seqno && 0 < q[i].TcpLen()
    ensures forall i, j | 0 <= i < j < |q| :: q[i].seqno < q[j].seqno && q[i].End() <= q[j].seqno
    ensures forall i | 0 <= i < |q| :: q[i].fin ==> i == |q| - 1
    decreases |q|
  {
    if q != [] {
      OrderedPairwise(q[1..], q[0].Last());
      assert forall i | 1 <= i < |q| :: q[i] == q[1..][i-1];
    }
  }

  /** A segment that c may be put in front of: at c's own position only a shorter one. */
  predicate FitsBefore(c: Segment, next: seq<Segment>) {
    && Ordered(next, c.seqno - 1)
    && 0 < c.TcpLen()
    && (next != [] && next[0].seqno == c.seqno ==> c.fin || |next[0].data| < |c.data|)
  }

  /** Merging leaves an ordered queue, and in-sequence merging leaves no overlap even when
      the FIN position is counted. */
  lemma {:induction false} MergeOrdered(c: Segment, next: seq<Segment>, countFin: bool)
    requires FitsBefore(c, next)
    ensures var r := Merge(c, next, countFin);
      && Ordered([r.0] + r.1, c.seqno - 1)
      && Ordered(r.1, c.seqno + r.0.TcpLen() - 1)
      && 0 < r.0.TcpLen()
  {
    var r := Merge(c, next, countFin);
    assert ([r.0] + r.1)[1..] == r.1;
    if !c.fin {
      NoSurvivorAt(c, next, countFin);
    }
  }

  lemma {:induction false} NoSurvivorAt(c: Segment, next: seq<Segment>, countFin: bool)
    requires FitsBefore(c, next) && !c.fin
    ensures var r := Absorb(c, next, countFin); r.1 != [] ==> c.seqno < r.1[0].seqno
  {
    if next != [] && c.End() >= next[0].End() {
      Weaken(next[1..], next[0].Last(), c.seqno);
      AbsorbKeepsOrder(c.(fin := next[0].fin), next[1..], countFin, c.seqno);
    }
  }

  lemma {:induction false} AbsorbKeepsOrder(c: Segment, next: seq<Segment>, countFin: bool, lo: int)
    requires Ordered(next, lo) && c.seqno - 1 <= lo
    ensures Ordered(next, c.seqno - 1)
    ensures Ordered(Absorb(c, next, countFin).1, lo)
    decreases |next|
  {
    if next != [] {
      Weaken(next[1..], next[0].Last(), lo);
      AbsorbKeepsOrder(c.(fin := c.fin || next[0].fin), next[1..], countFin, lo);
    }
  }

  /** Every branch of the walk leaves the queue from prev on ordered. */
  lemma {:induction false} EnqueueAfterOrdered(prev: Segment, q: seq<Segment>, s: Segment, edge: int, lo: int)
    requires q != [] && Ordered([prev] + q, lo) && prev.seqno < s.seqno < edge && 0 < s.TcpLen()
    ensures Ordered(q, prev.seqno)
    ensures Ordered(EnqueueAfter(prev, q, s, edge), lo)
    decreases |q|
  {
    assert ([prev] + q)[1..] == q;
    Weaken(q, prev.Last(), prev.seqno);
    var r := EnqueueAfter(prev, q, s, edge);
    if s.seqno <= q[0].seqno {
      if s.seqno < q[0].seqno || |s.data| > |q[0].data| {
        Weaken(q, prev.Last(), s.seqno - 1);
        MergeOrdered(s, q, false);
        assert r[1..] == OosInsert(s, q);
        Weaken(r[1..], s.seqno - 1, r[0].Last());
      }
    } else if |q| == 1 {
      if !q[0].fin {
        assert r[1..][1..] == [FitWindow(s, edge)];
        Weaken([FitWindow(s, edge)], s.seqno - 1, r[1].Last());
        assert r[1..][0] == r[1];
      }
    } else {
      assert [q[0]] + q[1..] == q;
      EnqueueAfterOrdered(q[0], q[1..], s, edge, prev.Last());
      assert r[1..] == EnqueueAfter(q[0], q[1..], s, edge);
    }
  }

  lemma {:induction false} EnqueueOrdered(q: seq<Segment>, s: Segment, edge: int, lo: int)
    requires Ordered(q, lo) && lo < s.seqno < edge && 0 < s.TcpLen()
    ensures q != [] ==> Ordered(q, q[0].seqno - 1)
    ensures Ordered(Enqueue(q, s, edge), lo)
  {
    if q != [] {
      Weaken(q, lo, q[0].seqno - 1);
      var r := Enqueue(q, s, edge);
      if s.seqno < q[0].seqno || (s.seqno == q[0].seqno && |s.data| > |q[0].data|) {
        Weaken(q, lo, s.seqno - 1);
        MergeOrdered(s, q, false);
        Weaken(r, s.seqno - 1, lo);
      } else if s.seqno != q[0].seqno && |q| == 1 && !q[0].fin {
        assert r[1..] == [FitWindow(s, edge)];
        Weaken(r[1..], s.seqno - 1, r[0].Last());
      } else if s.seqno != q[0].seqno && |q| > 1 {
        assert [q[0]] + q[1..] == q;
        EnqueueAfterOrdered(q[0], q[1..], s, edge, lo);
      }
    }
  }

  // ---------------------------------------------------------------- contents

  lemma {:induction false} AbsorbPieces(c: Segment, next: seq<Segment>, countFin: bool, stream: seq<Byte>, base: int,
      limit: int)
    requires Ordered(next, c.seqno - 1) && (c.fin ==> next == [])
    requires PieceOf(c, stream, base, limit) && AllPieces(next, stream, base, limit)
    ensures PieceOf(Absorb(c, next, countFin).0, stream, base, limit)
    ensures AllPieces(Absorb(c, next, countFin).1, stream, base, limit)
    decreases |next|
  {
    if next != [] && c.End() >= next[0].End() {
      Weaken(next[1..], next[0].Last(), c.seqno - 1);
      AbsorbPieces(c.(fin := next[0].fin), next[1..], countFin, stream, base, limit);
    }
  }

  lemma {:induction false} MergePieces(c: Segment, next: seq<Segment>, countFin: bool, stream: seq<Byte>, base: int,
      limit: int)
    requires Ordered(next, c.seqno - 1)
    requires PieceOf(c, stream, base, limit) && AllPieces(next, stream, base, limit)
    ensures PieceOf(Merge(c, next, countFin).0, stream, base, limit)
    ensures AllPieces(Merge(c, next, countFin).1, stream, base, limit)
  {
    if !c.fin {
      AbsorbPieces(c, next, countFin, stream, base, limit);
      var (c', rest) := Absorb(c, next, countFin);
      if rest != [] {
        TrimKeepsPiece(c', rest[0].seqno, stream, base, limit);
      }
    }
  }

  lemma {:induction false} FitWindowPieces(s: Segment, edge: int, stream: seq<Byte>, base: int, limit: int)
    requires PieceOf(s, stream, base, limit) && s.seqno <= edge
    ensures PieceOf(FitWindow(s, edge), stream, base, limit)
  {
    if edge < s.End() {
      assert s.data[..edge - s.seqno] == stream[s.seqno - base .. edge - base];
    }
  }

  lemma {:induction false} ConsPieces(a: Segment, q: seq<Segment>, stream: seq<Byte>, base: int, limit: int)
    requires PieceOf(a, stream, base, limit) && AllPieces(q, stream, base, limit)
    ensures AllPieces([a] + q, stream, base, limit)
  {
  }

  lemma {:induction false} OosInsertPieces(s: Segment, q: seq<Segment>, stream: seq<Byte>, base: int, limit: int)
    requires Ordered(q, s.seqno - 1)
    requires PieceOf(s, stream, base, limit) && AllPieces(q, stream, base, limit)
    ensures AllPieces(OosInsert(s, q), stream, base, limit)
  {
    MergePieces(s, q, false, stream, base, limit);
    ConsPieces(Merge(s, q, false).0, Merge(s, q, false).1, stream, base, limit);
  }

  /** Appending behind the last segment. */
  lemma {:induction false} AppendPieces(last: Segment, s: Segment, edge: int, stream: seq<Byte>, base: int, limit: int)
    requires last.seqno <= s.seqno <= edge && !last.fin
    requires PieceOf(last, stream, base, limit) && PieceOf(s, stream, base, limit)
    ensures AllPieces([last.TrimTo(s.seqno), FitWindow(s, edge)], stream, base, limit)
  {
    TrimKeepsPiece(last, s.seqno, stream, base, limit);
    FitWindowPieces(s, edge, stream, base, limit);
  }

  lemma {:induction false} EnqueueAfterPieces(prev: Segment, q: seq<Segment>, s: Segment, edge: int,
      stream: seq<Byte>, base: int, limit: int)
    requires q != [] && Ordered(q, prev.seqno) && prev.seqno < s.seqno <= edge && !prev.fin
    requires PieceOf(prev, stream, base, limit) && AllPieces(q, stream, base, limit) && PieceOf(s, stream, base, limit)
    ensures AllPieces(EnqueueAfter(prev, q, s, edge), stream, base, limit)
    decreases |q|
  {
    if s.seqno <= q[0].seqno {
      Weaken(q, prev.seqno, s.seqno - 1);
      OosInsertPieces(s, q, stream, base, limit);
      TrimKeepsPiece(prev, s.seqno, stream, base, limit);
      ConsPieces(prev.TrimTo(s.seqno), OosInsert(s, q), stream, base, limit);
      ConsPieces(prev, OosInsert(s, q), stream, base, limit);
      ConsPieces(prev, q, stream, base, limit);
    } else if |q| == 1 {
      ConsPieces(prev, q, stream, base, limit);
      if !q[0].fin {
        AppendPieces(q[0], s, edge, stream, base, limit);
        ConsPieces(prev, [q[0].TrimTo(s.seqno), FitWindow(s, edge)], stream, base, limit);
        assert EnqueueAfter(prev, q, s, edge) == [prev] + [q[0].TrimTo(s.seqno), FitWindow(s, edge)];
      }
    } else {
      Weaken(q[1..], q[0].Last(), q[0].seqno);
      EnqueueAfterPieces(q[0], q[1..], s, edge, stream, base, limit);
      ConsPieces(prev, EnqueueAfter(q[0], q[1..], s, edge), stream, base, limit);
    }
  }

  lemma {:induction false} EnqueuePieces(q: seq<Segment>, s: Segment, edge: int, stream: seq<Byte>, base: int,
      limit: int)
    requires s.seqno <= edge && (q != [] ==> Ordered(q, q[0].seqno - 1))
    requires AllPieces(q, stream, base, limit) && PieceOf(s, stream, base, limit)
    ensures AllPieces(Enqueue(q, s, edge), stream, base, limit)
  {
    if q != [] {
      if s.seqno <= q[0].seqno {
        Weaken(q, q[0].seqno - 1, s.seqno - 1);
        OosInsertPieces(s, q, stream, base, limit);
      } else if |q| == 1 {
        if !q[0].fin { AppendPieces(q[0], s, edge, stream, base, limit); }
      } else {
        Weaken(q[1..], q[0].Last(), q[0].seqno);
        EnqueueAfterPieces(q[0], q[1..], s, edge, stream, base, limit);
      }
    }
  }

  // ---------------------------------------------------------------- nothing queued is lost

  lemma {:induction false} CoveredBy(q: seq<Segment>, i: nat, x: int)
    requires i < |q| && q[i].seqno <= x < q[i].End()
    ensures Covers(q, x)
  {
  }

  lemma {:induction false} ConsCovers(a: Segment, q: seq<Segment>, x: int)
    requires Covers(q, x)
    ensures Covers([a] + q, x)
  {
    var i :| 0 <= i < |q| && q[i].seqno <= x < q[i].End();
    CoveredBy([a] + q, i + 1, x);
  }

  lemma {:induction false} OosInsertCovers(c: Segment, q: seq<Segment>, x: int)
    requires Ordered(q, c.seqno - 1) && c.seqno <= x < c.End()
    ensures Covers(OosInsert(c, q), x)
  {
    var (c', rest) := Merge(c, q, false);
    CoveredBy([c'] + rest, if x < c'.End() then 0 else 1, x);
  }

  lemma {:induction false} EnqueueAfterCovers(prev: Segment, q: seq<Segment>, s: Segment, edge: int, x: int)
    requires q != [] && Ordered(q, prev.seqno) && prev.seqno < s.seqno <= edge
    requires forall i | 0 <= i < |q| :: q[i].fin ==> s.End() <= q[i].End()
    requires s.seqno <= x < s.End() && x < edge
    ensures Covers(EnqueueAfter(prev, q, s, edge), x)
    decreases |q|
  {
    var r := EnqueueAfter(prev, q, s, edge);
    if s.seqno <= q[0].seqno {
      if s.seqno < q[0].seqno || |s.data| > |q[0].data| {
        Weaken(q, prev.seqno, s.seqno - 1);
        OosInsertCovers(s, q, x);
        ConsCovers(r[0], OosInsert(s, q), x);
      } else {
        CoveredBy(r, 1, x);
      }
    } else if |q| == 1 {
      CoveredBy(r, if q[0].fin then 1 else 2, x);
    } else {
      Weaken(q[1..], q[0].Last(), q[0].seqno);
      EnqueueAfterCovers(q[0], q[1..], s, edge, x);
      ConsCovers(prev, EnqueueAfter(q[0], q[1..], s, edge), x);
    }
  }

  /** Every in-window byte of a segment that is queued is on the queue afterwards, whatever
      is replaced, trimmed or ditched on the way. */
  lemma {:induction false} EnqueueCovers(q: seq<Segment>, s: Segment, edge: int, stream: seq<Byte>, base: int,
      limit: int, x: int)
    requires s.seqno <= edge && (q != [] ==> Ordered(q, q[0].seqno - 1))
    requires AllPieces(q, stream, base, limit) && PieceOf(s, stream, base, limit)
    requires s.seqno <= x < s.End() && x < edge
    ensures Covers(Enqueue(q, s, edge), x)
  {
    var r := Enqueue(q, s, edge);
    if q == [] {
      CoveredBy(r, 0, x);
    } else if s.seqno < q[0].seqno || (s.seqno == q[0].seqno && |s.data| > |q[0].data|) {
      Weaken(q, q[0].seqno - 1, s.seqno - 1);
      OosInsertCovers(s, q, x);
    } else if s.seqno == q[0].seqno {
      CoveredBy(r, 0, x);
    } else if |q| == 1 {
      CoveredBy(r, if q[0].fin then 0 else 1, x);
    } else {
      Weaken(q[1..], q[0].Last(), q[0].seqno);
      EnqueueAfterCovers(q[0], q[1..], s, edge, x);
    }
  }

  // ---------------------------------------------------------------- delivery

  /** The stream before position pos; the FIN position lies one past its end. */
  function Upto(stream: seq<Byte>, base: int, pos: int): seq<Byte>
    requires base <= pos
  {
    if pos - base <= |stream| then stream[..pos - base] else stream
  }

  /** rcvNxt is inside the stream or just past its FIN, the queue holds pieces of the stream
      beyond rcvNxt, and the connection is closed for reading exactly after the FIN. */
  predicate Receiving(p: Pcb, stream: seq<Byte>, base: int, limit: int) {
    && Ordered(p.ooseq, p.rcvNxt)
    && AllPieces(p.ooseq, stream, base, limit)
    && base <= p.rcvNxt <= base + |stream| + 1
    && p.rcvNxt <= limit
    && (p.closed <==> p.rcvNxt == base + |stream| + 1)
  }

  /** Starting at position from, the bytes handed over by o continue the stream exactly up
      to the new rcvNxt, and the FIN is reported when it is passed. */
  predicate Delivers(from: int, closed: bool, o: Outcome, stream: seq<Byte>, base: int, limit: int) {
    && Receiving(o.pcb, stream, base, limit)
    && base <= from <= o.pcb.rcvNxt
    && Upto(stream, base, o.pcb.rcvNxt) == Upto(stream, base, from) + o.data
    && (o.gotFin <==> o.pcb.closed && !closed)
  }

  lemma {:induction false} DeliverFirst(c: Segment, o: Outcome, stream: seq<Byte>, base: int, limit: int)
    requires PieceOf(c, stream, base, limit) && Delivers(c.seqno + c.TcpLen(), c.fin, o, stream, base, limit)
    ensures Delivers(c.seqno, false, Outcome(o.pcb, c.data + o.data, c.fin || o.gotFin), stream, base, limit)
  {
  }

  /** Delivering c and moving the rest of the queue up keeps the shape Drain needs. */
  predicate Draining(p: Pcb, stream: seq<Byte>, base: int, limit: int) {
    && Ordered(p.ooseq, p.rcvNxt - 1)
    && AllPieces(p.ooseq, stream, base, limit)
    && base <= p.rcvNxt <= base + |stream| + 1
    && p.rcvNxt <= limit
    && (p.closed <==> p.rcvNxt == base + |stream| + 1)
  }

  lemma {:induction false} AcceptDraining(p: Pcb, c: Segment, rest: seq<Segment>, stream: seq<Byte>, base: int,
      limit: int)
    requires !p.closed && c.seqno == p.rcvNxt && PieceOf(c, stream, base, limit)
    requires Ordered(rest, p.rcvNxt + c.TcpLen() - 1) && AllPieces(rest, stream, base, limit)
    ensures Draining(Accept(p, c, rest), stream, base, limit)
    ensures Accept(p, c, rest).closed == c.fin && Accept(p, c, rest).rcvNxt == c.seqno + c.TcpLen()
  {
  }

  lemma {:induction false} DrainDelivers(p: Pcb, stream: seq<Byte>, base: int, limit: int)
    requires Draining(p, stream, base, limit)
    ensures Delivers(p.rcvNxt, p.closed, Drain(p), stream, base, limit)
    decreases |p.ooseq|
  {
    if p.ooseq != [] && p.ooseq[0].seqno == p.rcvNxt {
      var s := p.ooseq[0];
      Weaken(p.ooseq[1..], s.Last(), p.rcvNxt + s.TcpLen() - 1);
      AcceptDraining(p, s, p.ooseq[1..], stream, base, limit);
      DrainDelivers(PopFirst(p), stream, base, limit);
      DeliverFirst(p.ooseq[0], Drain(PopFirst(p)), stream, base, limit);
    } else {
      Weaken(p.ooseq, p.rcvNxt - 1, p.rcvNxt);
    }
  }

  lemma {:induction false} FittedPieces(p: Pcb, s: Segment, stream: seq<Byte>, base: int, limit: int)
    requires Receiving(p, stream, base, limit)
    requires s.seqno == p.rcvNxt && 0 < p.rcvWnd && 0 < s.TcpLen() && PieceOf(s, stream, base, limit)
    ensures var (c, rest) := Fitted(p, s);
      && c.seqno == p.rcvNxt && PieceOf(c, stream, base, limit)
      && Ordered(rest, p.rcvNxt + c.TcpLen() - 1) && AllPieces(rest, stream, base, limit)
  {
    hide PieceOf, AllPieces, Merge;
    var w := FitWindow(s, p.rcvNxt + p.rcvWnd);
    FitWindowPieces(s, p.rcvNxt + p.rcvWnd, stream, base, limit);
    Weaken(p.ooseq, p.rcvNxt, p.rcvNxt - 1);
    var r := Merge(w, p.ooseq, true);
    assert Ordered(r.1, p.rcvNxt + r.0.TcpLen() - 1) by {
      MergeOrdered(w, p.ooseq, true);
    }
    MergePieces(w, p.ooseq, true, stream, base, limit);
  }

  lemma {:induction false} InSequenceDelivers(p: Pcb, s: Segment, stream: seq<Byte>, base: int, limit: int)
    requires Receiving(p, stream, base, limit) && !p.closed
    requires s.seqno == p.rcvNxt && 0 < p.rcvWnd && 0 < s.TcpLen() && PieceOf(s, stream, base, limit)
    ensures Delivers(p.rcvNxt, false, InSequence(p, s), stream, base, limit)
  {
    FittedPieces(p, s, stream, base, limit);
    var (c, rest) := Fitted(p, s);
    AcceptDraining(p, c, rest, stream, base, limit);
    DrainDelivers(Accept(p, c, rest), stream, base, limit);
    DeliverFirst(c, Drain(Accept(p, c, rest)), stream, base, limit);
  }

  lemma {:induction false} LeftTrimPieces(s: Segment, rcvNxt: int, stream: seq<Byte>, base: int, limit: int)
    requires PieceOf(s, stream, base, limit) && base <= rcvNxt
    ensures PieceOf(LeftTrim(s, rcvNxt), stream, base, limit)
  {
  }

  /** One arriving segment of the stream, whatever its position: what is handed over
      continues the stream exactly, and the queue stays ordered pieces of the stream. */
  lemma {:induction false} InputDelivers(p: Pcb, seg: Segment, segOk: bool, ackOk: bool, stream: seq<Byte>,
      base: int, limit: int)
    requires Receiving(p, stream, base, limit) && PieceOf(seg, stream, base, limit)
    ensures Delivers(p.rcvNxt, p.closed, Input(p, seg, segOk, ackOk), stream, base, limit)
  {
    var s := LeftTrim(seg, p.rcvNxt);
    LeftTrimPieces(seg, p.rcvNxt, stream, base, limit);
    if seg.TcpLen() != 0 && !p.closed && p.rcvNxt <= s.seqno <= p.rcvNxt + p.rcvWnd - 1 {
      if s.seqno == p.rcvNxt {
        InSequenceDelivers(p, s, stream, base, limit);
      } else {
        EnqueueOrdered(p.ooseq, s, p.rcvNxt + p.rcvWnd, p.rcvNxt);
        EnqueuePieces(p.ooseq, s, p.rcvNxt + p.rcvWnd, stream, base, limit);
      }
    }
  }

  // ---------------------------------------------------------------- progress

  lemma {:induction false} DrainAdvances(p: Pcb)
    ensures p.rcvNxt <= Drain(p).pcb.rcvNxt
    ensures Drain(p).pcb.rcvNxt + Drain(p).pcb.rcvWnd == p.rcvNxt + p.rcvWnd
    decreases |p.ooseq|
  {
    if p.ooseq != [] && p.ooseq[0].seqno == p.rcvNxt {
      DrainAdvances(PopFirst(p));
    }
  }

  lemma {:induction false} DrainPassesFirst(p: Pcb)
    ensures p.rcvNxt <= Drain(p).pcb.rcvNxt
    ensures p.ooseq != [] && p.ooseq[0].seqno == p.rcvNxt ==>
      p.rcvNxt + p.ooseq[0].TcpLen() <= Drain(p).pcb.rcvNxt
  {
    DrainAdvances(p);
    if p.ooseq != [] && p.ooseq[0].seqno == p.rcvNxt {
      DrainAdvances(PopFirst(p));
    }
  }

  /** What merging cuts off the end of c lies inside the first surviving segment. */
  lemma {:induction false} MergeShortens(c: Segment, next: seq<Segment>, countFin: bool)
    requires Ordered(next, c.seqno - 1)
    ensures var r := Merge(c, next, countFin);
      c.seqno + r.0.TcpLen() < c.seqno + c.TcpLen() ==>
        r.1 != [] && r.1[0].seqno == c.seqno + r.0.TcpLen() && c.seqno + c.TcpLen() < r.1[0].seqno + r.1[0].TcpLen()
  {
  }

  lemma {:induction false} InSequenceProgress(p: Pcb, s: Segment)
    requires Ordered(p.ooseq, p.rcvNxt) && s.seqno == p.rcvNxt && 0 < p.rcvWnd
    ensures var w := FitWindow(s, p.rcvNxt + p.rcvWnd);
      InSequence(p, s).pcb.rcvNxt >= w.seqno + w.TcpLen()
  {
    var w := FitWindow(s, p.rcvNxt + p.rcvWnd);
    Weaken(p.ooseq, p.rcvNxt, p.rcvNxt - 1);
    MergeShortens(w, p.ooseq, true);
    var (c, rest) := Fitted(p, s);
    DrainPassesFirst(Accept(p, c, rest));
  }

  /** A segment that reaches rcvNxt is delivered whole, or up to the right edge: what is cut
      off its end in favour of the queue is delivered from the queue in the same call. */
  lemma {:induction false} InputProgress(p: Pcb, seg: Segment, segOk: bool, ackOk: bool)
    requires Ordered(p.ooseq, p.rcvNxt) && !p.closed && 0 < p.rcvWnd
    requires seg.seqno <= p.rcvNxt < seg.seqno + seg.TcpLen()
    ensures var end := seg.seqno + seg.TcpLen();
      Input(p, seg, segOk, ackOk).pcb.rcvNxt >= if end < p.rcvNxt + p.rcvWnd then end else p.rcvNxt + p.rcvWnd
  {
    InSequenceProgress(p, LeftTrim(seg, p.rcvNxt));
  }

  // ---------------------------------------------------------------- the window

  /** The announced edge is behind what the next header would announce, which is behind
      the real right edge. */
  predicate WindowOk(p: Pcb) {
    && 0 <= p.rcvWnd <= TCP_WND
    && 0 <= p.annWnd
    && p.annEdge <= p.rcvNxt + p.annWnd <= p.rcvNxt + p.rcvWnd
  }

  lemma {:induction false} UpdateAnnWndOk(p: Pcb)
    requires 0 <= p.rcvWnd <= TCP_WND && p.annEdge <= p.rcvNxt + p.rcvWnd
    ensures WindowOk(UpdateAnnWnd(p))
  {
  }

  lemma {:induction false} DrainWindow(p: Pcb)
    requires WindowOk(p) && Drain(p).pcb.rcvNxt <= p.rcvNxt + p.rcvWnd
    ensures WindowOk(Drain(p).pcb) && Drain(p).pcb.annEdge == p.annEdge
    decreases |p.ooseq|
  {
    if p.ooseq != [] && p.ooseq[0].seqno == p.rcvNxt {
      var s := p.ooseq[0];
      DrainAdvances(PopFirst(p));
      UpdateAnnWndOk(p.(rcvNxt := p.rcvNxt + s.TcpLen(), rcvWnd := p.rcvWnd - s.TcpLen()));
      DrainWindow(PopFirst(p));
    }
  }

  /** The right edge of the receive window. */
  function Edge(p: Pcb): int {
    p.rcvNxt + p.rcvWnd
  }

  lemma {:induction false} InSequenceWindow(p: Pcb, s: Segment)
    requires Ordered(p.ooseq, p.rcvNxt) && s.seqno == p.rcvNxt && 0 < p.rcvWnd
    requires WindowOk(p) && InSequence(p, s).pcb.rcvNxt <= Edge(p)
    ensures WindowOk(InSequence(p, s).pcb)
    ensures InSequence(p, s).pcb.annEdge == p.annEdge && Edge(InSequence(p, s).pcb) == Edge(p)
  {
    var (c, rest) := Fitted(p, s);
    var p' := Accept(p, c, rest);
    DrainAdvances(p');
    UpdateAnnWndOk(p.(rcvNxt := p.rcvNxt + c.TcpLen(), rcvWnd := p.rcvWnd - c.TcpLen()));
    DrainWindow(p');
  }

  lemma {:induction false} LargerLimit(p: Pcb, stream: seq<Byte>, base: int, limit: int, limit': int)
    requires Receiving(p, stream, base, limit) && limit <= limit'
    ensures Receiving(p, stream, base, limit')
  {
  }

  /** A segment inside the right edge keeps the window sound and never moves an edge left. */
  lemma {:induction false} InputWindow(p: Pcb, seg: Segment, segOk: bool, ackOk: bool, stream: seq<Byte>, base: int)
    requires WindowOk(p) && Receiving(p, stream, base, Edge(p)) && PieceOf(seg, stream, base, Edge(p))
    ensures var p' := Input(p, seg, segOk, ackOk).pcb;
      && WindowOk(p') && p.annEdge <= p'.annEdge && Edge(p) <= Edge(p')
      && Receiving(p', stream, base, Edge(p'))
  {
    InputDelivers(p, seg, segOk, ackOk, stream, base, Edge(p));
    var o := Receive(p, seg, segOk, ackOk);
    var s := LeftTrim(seg, p.rcvNxt);
    if seg.TcpLen() != 0 && !p.closed && p.rcvNxt <= s.seqno <= p.rcvNxt + p.rcvWnd - 1 && s.seqno == p.rcvNxt {
      InSequenceWindow(p, s);
    }
    assert Edge(o.pcb) == Edge(p);
    LargerLimit(Input(p, seg, segOk, ackOk).pcb, stream, base, Edge(p), Edge(Input(p, seg, segOk, ackOk).pcb));
  }

  // ---------------------------------------------------------------- without any hypothesis

  lemma {:induction false} DrainOrdered(p: Pcb)
    requires Ordered(p.ooseq, p.rcvNxt - 1)
    ensures Ordered(Drain(p).pcb.ooseq, Drain(p).pcb.rcvNxt)
    decreases |p.ooseq|
  {
    if p.ooseq != [] && p.ooseq[0].seqno == p.rcvNxt {
      var s := p.ooseq[0];
      Weaken(p.ooseq[1..], s.Last(), p.rcvNxt + s.TcpLen() - 1);
      DrainOrdered(PopFirst(p));
    } else {
      Weaken(p.ooseq, p.rcvNxt - 1, p.rcvNxt);
    }
  }

  lemma {:induction false} InSequenceOrdered(p: Pcb, s: Segment)
    requires Ordered(p.ooseq, p.rcvNxt) && s.seqno == p.rcvNxt && 0 < p.rcvWnd && 0 < s.TcpLen()
    ensures Ordered(InSequence(p, s).pcb.ooseq, InSequence(p, s).pcb.rcvNxt)
  {
    Weaken(p.ooseq, p.rcvNxt, p.rcvNxt - 1);
    MergeOrdered(FitWindow(s, p.rcvNxt + p.rcvWnd), p.ooseq, true);
    var (c, rest) := Fitted(p, s);
    DrainOrdered(Accept(p, c, rest));
  }

  /** The queue stays ordered and beyond rcvNxt for any segment at all. */
  lemma {:induction false} InputOrdered(p: Pcb, seg: Segment, segOk: bool, ackOk: bool)
    requires Ordered(p.ooseq, p.rcvNxt)
    ensures var p' := Input(p, seg, segOk, ackOk).pcb; Ordered(p'.ooseq, p'.rcvNxt)
  {
    var s := LeftTrim(seg, p.rcvNxt);
    if seg.TcpLen() != 0 && !p.closed && p.rcvNxt <= s.seqno <= p.rcvNxt + p.rcvWnd - 1 {
      if s.seqno == p.rcvNxt {
        InSequenceOrdered(p, s);
      } else {
        EnqueueOrdered(p.ooseq, s, p.rcvNxt + p.rcvWnd, p.rcvNxt);
      }
    }
  }

  // ---------------------------------------------------------------- whole runs

  /** A segment arrives, the application consumes bytes, or any header is sent. */
  datatype Event = Arrive(seg: Segment, segOk: bool, ackOk: bool) | Consume(n: nat) | Transmit

  /** The connection with everything handed to the application so far. */
  datatype History = History(pcb: Pcb, delivered: seq<Byte>, eofs: nat)

  predicate Sound(h: History) {
    Ordered(h.pcb.ooseq, h.pcb.rcvNxt)
  }

  function Step(h: History, e: Event): (h': History)
    requires Sound(h)
    ensures Sound(h')
  {
    match e
    case Arrive(seg, segOk, ackOk) =>
      InputOrdered(h.pcb, seg, segOk, ackOk);
      var o := Input(h.pcb, seg, segOk, ackOk);
      History(o.pcb, h.delivered + o.data, h.eofs + if o.gotFin then 1 else 0)
    case Consume(n) => h.(pcb := Recved(h.pcb, n))
    case Transmit => h.(pcb := Announce(h.pcb))
  }

  function Run(h: History, events: seq<Event>): (h': History)
    requires Sound(h)
    ensures Sound(h')
    decreases |events|
  {
    if events == [] then h else Run(Step(h, events[0]), events[1..])
  }

  /** Everything delivered so far is the stream up to rcvNxt, and the end of the stream has
      been reported once if it has been reached. */
  predicate InOrderExactlyOnce(h: History, stream: seq<Byte>, base: int) {
    && Receiving(h.pcb, stream, base, base + |stream| + 1)
    && h.delivered == Upto(stream, base, h.pcb.rcvNxt)
    && h.eofs == if h.pcb.closed then 1 else 0
  }

  lemma {:induction false} StepDelivers(h: History, e: Event, stream: seq<Byte>, base: int)
    requires InOrderExactlyOnce(h, stream, base)
    requires e.Arrive? ==> CutOf(e.seg, stream, base)
    ensures InOrderExactlyOnce(Step(h, e), stream, base)
  {
    if e.Arrive? {
      InputDelivers(h.pcb, e.seg, e.segOk, e.ackOk, stream, base, base + |stream| + 1);
    }
  }

  /** In-order exactly-once delivery: segments cut from one stream in any order, with loss,
      duplication and overlap, allocation failures, and inside the window or not. */
  lemma {:induction false} Delivery(h: History, events: seq<Event>, stream: seq<Byte>, base: int)
    requires InOrderExactlyOnce(h, stream, base)
    requires forall i | 0 <= i < |events| :: events[i].Arrive? ==> CutOf(events[i].seg, stream, base)
    ensures InOrderExactlyOnce(Run(h, events), stream, base)
    decreases |events|
  {
    if events != [] {
      StepDelivers(h, events[0], stream, base);
      Delivery(Step(h, events[0]), events[1..], stream, base);
    }
  }

  /** The peer respects the right edge as it stands at every arrival. */
  predicate PeerWithinEdge(h: History, events: seq<Event>, stream: seq<Byte>, base: int)
    requires Sound(h)
    decreases |events|
  {
    events == [] ||
    (&& (events[0].Arrive? ==> PieceOf(events[0].seg, stream, base, Edge(h.pcb)))
     && PeerWithinEdge(Step(h, events[0]), events[1..], stream, base))
  }

  lemma {:induction false} StepWindow(h: History, e: Event, stream: seq<Byte>, base: int)
    requires WindowOk(h.pcb) && Receiving(h.pcb, stream, base, Edge(h.pcb))
    requires e.Arrive? ==> PieceOf(e.seg, stream, base, Edge(h.pcb))
    ensures var p' := Step(h, e).pcb;
      && WindowOk(p') && h.pcb.annEdge <= p'.annEdge && Edge(h.pcb) <= Edge(p')
      && Receiving(p', stream, base, Edge(p'))
  {
    match e
    case Arrive(seg, segOk, ackOk) => InputWindow(h.pcb, seg, segOk, ackOk, stream, base);
    case Consume(n) => LargerLimit(h.pcb, stream, base, Edge(h.pcb), Edge(Recved(h.pcb, n)));
    case Transmit =>
  }

  /** The next header announces an edge no further left than the last one did. */
  predicate EdgeAhead(p: Pcb) {
    p.annEdge <= p.rcvNxt + p.annWnd
  }

  lemma {:induction false} DrainEdge(p: Pcb)
    requires EdgeAhead(p)
    ensures EdgeAhead(Drain(p).pcb) && Drain(p).pcb.annEdge == p.annEdge
    decreases |p.ooseq|
  {
    if p.ooseq != [] && p.ooseq[0].seqno == p.rcvNxt {
      DrainEdge(PopFirst(p));
    }
  }

  lemma {:induction false} InputEdge(p: Pcb, seg: Segment, segOk: bool, ackOk: bool)
    requires Ordered(p.ooseq, p.rcvNxt) && EdgeAhead(p)
    ensures var p' := Input(p, seg, segOk, ackOk).pcb; EdgeAhead(p') && p.annEdge <= p'.annEdge
  {
    hide Enqueue, Merge, Drain;
    var s := LeftTrim(seg, p.rcvNxt);
    if seg.TcpLen() != 0 && !p.closed && s.seqno == p.rcvNxt <= p.rcvNxt + p.rcvWnd - 1 {
      var (c, rest) := Fitted(p, s);
      DrainEdge(Accept(p, c, rest));
    }
  }

  /** Section 4.2.2.16 of RFC 1122: over any run, with any segments at all from the peer, the
      announced right edge never moves left. */
  lemma {:induction false} WindowNeverShrinks(h: History, events: seq<Event>)
    requires Sound(h) && EdgeAhead(h.pcb)
    ensures EdgeAhead(Run(h, events).pcb) && h.pcb.annEdge <= Run(h, events).pcb.annEdge
    decreases |events|
  {
    if events != [] {
      if events[0].Arrive? {
        InputEdge(h.pcb, events[0].seg, events[0].segOk, events[0].ackOk);
      }
      WindowNeverShrinks(Step(h, events[0]), events[1..]);
    }
  }

  /** With a peer that respects the right edge it also never passes rcvNxt + rcvWnd, and rcvWnd
      stays between 0 and TCP_WND. */
  lemma {:induction false} WindowWithinEdge(h: History, events: seq<Event>, stream: seq<Byte>, base: int)
    requires WindowOk(h.pcb) && Receiving(h.pcb, stream, base, Edge(h.pcb))
    requires PeerWithinEdge(h, events, stream, base)
    ensures WindowOk(Run(h, events).pcb)
    decreases |events|
  {
    if events != [] {
      StepWindow(h, events[0], stream, base);
      WindowWithinEdge(Step(h, events[0]), events[1..], stream, base);
    }
  }

  /** From a fresh connection: both theorems at once, for every run. */
  lemma {:induction false} FreshConnection(events: seq<Event>, stream: seq<Byte>, base: int, mss: nat)
    requires forall i | 0 <= i < |events| :: events[i].Arrive? ==> CutOf(events[i].seg, stream, base)
    ensures var h := Run(History(Fresh(base, mss), [], 0), events);
      && InOrderExactlyOnce(h, stream, base)
      && base <= h.pcb.annEdge
      && (PeerWithinEdge(History(Fresh(base, mss), [], 0), events, stream, base) ==> WindowOk(h.pcb))
  {
    var h := History(Fresh(base, mss), [], 0);
    Delivery(h, events, stream, base);
    WindowNeverShrinks(h, events);
    if PeerWithinEdge(h, events, stream, base) {
      WindowWithinEdge(h, events, stream, base);
    }
  }

  // ---------------------------------------------------------------- when the peer overruns

  /** Where the queued segments that follow pos without a gap end. */
  function ChainEnd(q: seq<Segment>, pos: int): int
    decreases |q|
  {
    if q != [] && q[0].seqno == pos then ChainEnd(q[1..], pos + q[0].TcpLen()) else pos
  }

  /** Delivering from the queue wraps rcv_wnd exactly when the queued chain passes the edge. */
  lemma {:induction false} DrainWrapsIff(p: Pcb)
    ensures 0 <= Drain(p).pcb.rcvWnd <==> ChainEnd(p.ooseq, p.rcvNxt) <= Edge(p)
    ensures Drain(p).pcb.rcvNxt == ChainEnd(p.ooseq, p.rcvNxt)
    decreases |p.ooseq|
  {
    DrainAdvances(p);
    if p.ooseq != [] && p.ooseq[0].seqno == p.rcvNxt {
      DrainWrapsIff(PopFirst(p));
    }
  }

  /** Whether a FIN is among them. */
  predicate ChainFin(q: seq<Segment>, pos: int)
    decreases |q|
  {
    q != [] && q[0].seqno == pos && (q[0].fin || ChainFin(q[1..], pos + q[0].TcpLen()))
  }

  lemma {:induction false} DrainFin(p: Pcb)
    ensures Drain(p).gotFin == ChainFin(p.ooseq, p.rcvNxt)
    decreases |p.ooseq|
  {
    if p.ooseq != [] && p.ooseq[0].seqno == p.rcvNxt {
      DrainFin(PopFirst(p));
    }
  }

  /** The segment, without what lies before rcvNxt, is the next one expected. */
  predicate InTurn(p: Pcb, seg: Segment) {
    0 < seg.TcpLen() && !p.closed && 0 < p.rcvWnd && LeftTrim(seg, p.rcvNxt).seqno == p.rcvNxt
  }

  /** Whether the segment fits: with the queued ones that follow it without a gap it ends at the
      right edge or before it, not counting a FIN, whose position is given back. */
  predicate FitsEdge(p: Pcb, seg: Segment)
    requires Ordered(p.ooseq, p.rcvNxt) && InTurn(p, seg)
  {
    var (c, rest) := Fitted(p, LeftTrim(seg, p.rcvNxt));
    var pos := c.seqno + c.TcpLen();
    ChainEnd(rest, pos) <= Edge(p) + if c.fin || ChainFin(rest, pos) then 1 else 0
  }

  /** Any segment at all: rcv_wnd wraps exactly when the segment is in turn and what it releases
      from the queue passes the right edge. */
  lemma {:induction false} InputWrapsIff(p: Pcb, seg: Segment, segOk: bool, ackOk: bool)
    requires Ordered(p.ooseq, p.rcvNxt) && 0 <= p.rcvWnd <= TCP_WND
    ensures 0 <= Input(p, seg, segOk, ackOk).pcb.rcvWnd <==> (InTurn(p, seg) ==> FitsEdge(p, seg))
  {
    hide Enqueue, Merge, Drain;
    if InTurn(p, seg) {
      var s := LeftTrim(seg, p.rcvNxt);
      var (c, rest) := Fitted(p, s);
      DrainWrapsIff(Accept(p, c, rest));
      DrainFin(Accept(p, c, rest));
      DrainAdvances(Accept(p, c, rest));
    }
  }

  // ---------------------------------------------------------------- when the window stays sound

  /** The announced window is the one the last move of rcvNxt computed. */
  predicate Updated(p: Pcb) {
    UpdateAnnWnd(p) == p
  }

  lemma {:induction false} DrainUpdated(p: Pcb)
    requires Updated(p)
    ensures Updated(Drain(p).pcb) && Drain(p).pcb.annEdge == p.annEdge && Drain(p).pcb.mss == p.mss
    decreases |p.ooseq|
  {
    if p.ooseq != [] && p.ooseq[0].seqno == p.rcvNxt {
      DrainUpdated(PopFirst(p));
    }
  }

  /** Whether the segment, with the queued ones that follow it without a gap, leaves the window
      sound: it ends at the right edge or before it, or only a FIN is past the edge and the edge is
      not far enough ahead of the announced one to be announced itself. */
  predicate LeavesWindow(p: Pcb, seg: Segment)
    requires Ordered(p.ooseq, p.rcvNxt) && InTurn(p, seg)
  {
    var (c, rest) := Fitted(p, LeftTrim(seg, p.rcvNxt));
    var pos := c.seqno + c.TcpLen();
    var end := ChainEnd(rest, pos);
    || end <= Edge(p)
    || (end == Edge(p) + 1 && (c.fin || ChainFin(rest, pos)) && Edge(p) < p.annEdge + Threshold(p.mss))
  }

  /** The window after a move of rcvNxt to end, and perhaps the credit for a FIN. */
  lemma {:induction false} MovedWindowIff(p: Pcb, credit: bool)
    requires Updated(p) && Edge(p) <= p.rcvNxt + TCP_WND && p.annEdge <= Edge(p) && p.rcvWnd < TCP_WND
    ensures WindowOk(if credit then p.(rcvWnd := p.rcvWnd + 1) else p) <==>
      0 <= p.rcvWnd || (p.rcvWnd == -1 && credit && Edge(p) < p.annEdge + Threshold(p.mss))
  {
  }

  /** Any segment at all keeps the window sound exactly when it is out of turn or leaves it so. */
  lemma {:induction false} InputWindowIff(p: Pcb, seg: Segment, segOk: bool, ackOk: bool)
    requires Ordered(p.ooseq, p.rcvNxt) && WindowOk(p)
    ensures WindowOk(Input(p, seg, segOk, ackOk).pcb) <==> (InTurn(p, seg) ==> LeavesWindow(p, seg))
  {
    hide Enqueue, Merge, Drain;
    if InTurn(p, seg) {
      var s := LeftTrim(seg, p.rcvNxt);
      var (c, rest) := Fitted(p, s);
      var a := Accept(p, c, rest);
      assert 0 < c.TcpLen() by {
        FittedNotEmpty(p, s);
      }
      DrainWrapsIff(a);
      DrainFin(a);
      DrainAdvances(a);
      DrainUpdated(a);
      MovedWindowIff(Drain(a).pcb, c.fin || ChainFin(rest, c.seqno + c.TcpLen()));
    }
  }

  lemma {:induction false} FittedNotEmpty(p: Pcb, s: Segment)
    requires Ordered(p.ooseq, p.rcvNxt) && s.seqno == p.rcvNxt && 0 < p.rcvWnd && 0 < s.TcpLen()
    ensures 0 < Fitted(p, s).0.TcpLen()
  {
    hide Merge;
    Weaken(p.ooseq, p.rcvNxt, p.rcvNxt - 1);
    MergeOrdered(FitWindow(s, p.rcvNxt + p.rcvWnd), p.ooseq, true);
  }

  predicate Considerate(h: History, e: Event)
    requires Sound(h)
  {
    e.Arrive? && InTurn(h.pcb, e.seg) ==> LeavesWindow(h.pcb, e.seg)
  }

  predicate AllConsiderate(h: History, events: seq<Event>)
    requires Sound(h)
    decreases |events|
  {
    events == [] || (Considerate(h, events[0]) && AllConsiderate(Step(h, events[0]), events[1..]))
  }

  predicate WindowAlwaysOk(h: History, events: seq<Event>)
    requires Sound(h)
    decreases |events|
  {
    WindowOk(h.pcb) && (events != [] ==> WindowAlwaysOk(Step(h, events[0]), events[1..]))
  }

  lemma {:induction false} StepWindowIff(h: History, e: Event)
    requires Sound(h) && WindowOk(h.pcb)
    ensures WindowOk(Step(h, e).pcb) <==> Considerate(h, e)
  {
    hide Input, LeavesWindow, InTurn;
    if e.Arrive? {
      InputWindowIff(h.pcb, e.seg, e.segOk, e.ackOk);
    }
  }

  /** Over any run, with any segments at all: the window stays sound after every event if and only if
      no arrival carries rcvNxt past the right edge, a lone FIN under a close announced edge
      excepted. */
  lemma {:induction false} WindowRunIff(h: History, events: seq<Event>)
    requires Sound(h) && WindowOk(h.pcb)
    ensures WindowAlwaysOk(h, events) <==> AllConsiderate(h, events)
    decreases |events|
  {
    hide Step, Considerate, WindowOk;
    if events != [] {
      StepWindowIff(h, events[0]);
      if Considerate(h, events[0]) {
        WindowRunIff(Step(h, events[0]), events[1..]);
      } else {
        WindowBroken(Step(h, events[0]), events[1..]);
      }
    }
  }

  lemma {:induction false} WindowBroken(h: History, events: seq<Event>)
    requires Sound(h) && !WindowOk(h.pcb)
    ensures !WindowAlwaysOk(h, events)
  {
  }

  /** A FIN one past the edge: rcv_wnd gets its position back, but rcv_ann_wnd was computed before
      that and stays wrapped. */
  lemma {:induction false} FinWrapsAnnounced()
    ensures var p := Pcb(0, 4, 4, 0, 1, [], false);
      var p1 := Input(p, Segment(1, [1, 2, 3], true), true, false).pcb;
      && WindowOk(p) && WindowOk(p1) && Ordered(p1.ooseq, p1.rcvNxt)
      && var p2 := Input(p1, Segment(0, [0], false), true, true).pcb;
         p2.rcvWnd == 0 && p2.annWnd == -1
  {
    var p := Pcb(0, 4, 4, 0, 1, [], false);
    var late := Segment(1, [1, 2, 3], true);
    InputOrdered(p, late, true, false);
    assert Input(p, late, true, false).pcb == p.(ooseq := [late]);
    FirstReleasesFin(p.(ooseq := [late]), late);
  }

  lemma {:induction false} FirstReleasesFin(p: Pcb, late: Segment)
    requires late == Segment(1, [1, 2, 3], true) && p == Pcb(0, 4, 4, 0, 1, [late], false)
    ensures Ordered(p.ooseq, p.rcvNxt)
    ensures var p' := Input(p, Segment(0, [0], false), true, true).pcb; p'.rcvWnd == 0 && p'.annWnd == -1
  {
    hide Drain;
    var first := Segment(0, [0], false);
    var (c, rest) := Fitted(p, first);
    assert c == first && rest == [late];
    var a := Accept(p, c, rest);
    assert ChainEnd([late], 1) == 5 by {
      assert [late][1..] == [];
    }
    DrainWrapsIff(a);
    DrainFin(a);
    DrainAdvances(a);
    DrainUpdated(a);
  }

  /** A first out-of-order segment is queued uncut, so a peer that overruns the edge makes
      the window wrap, although delivery stays exact. */
  lemma {:induction false} OverrunWraps(mss: nat)
    ensures var p := Pcb(0, 4, 4, 4, mss, [], false);
      var p1 := Input(p, Segment(1, [1, 2, 3, 4, 5], false), true, true).pcb;
      && Ordered(p1.ooseq, p1.rcvNxt)
      && Input(p1, Segment(0, [0], false), true, true).pcb.rcvWnd == -2
  {
    var p := Pcb(0, 4, 4, 4, mss, [], false);
    var late := Segment(1, [1, 2, 3, 4, 5], false);
    var first := Segment(0, [0], false);
    InputOrdered(p, late, true, true);
    var p1 := Input(p, late, true, true).pcb;
    assert p1.ooseq == [late];
    var (c, rest) := Fitted(p1, first);
    assert c == first && rest == [late];
    var p2 := Accept(p1, c, rest);
    assert ChainEnd(p2.ooseq[1..], 6) == 6;
    DrainWrapsIff(p2);
    DrainAdvances(p2);
  }
}
