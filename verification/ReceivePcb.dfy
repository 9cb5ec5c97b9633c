/** The receive path as the stack runs it: a pcb updated in place, loops over the queue, and
    comparisons made through the 32-bit macros.  Every method is tied to the functions of
    Reassembly. */
module ReceivePcb {
  import opened SequenceNumbers
  import opened Segments
  import R = Reassembly
  import Proofs = ReassemblyProofs

  /** Positions the macros can compare with each other: all within a quarter range of a. */
  predicate Near(x: int, a: int) {
    -0x2000_0000 <= x - a < 0x2000_0000
  }

  predicate NearSegment(s: Segment, a: int) {
    Near(s.seqno, a) && |s.data| < 0x1_0000
  }

  predicate NearQueue(q: seq<Segment>, a: int) {
    forall i | 0 <= i < |q| :: NearSegment(q[i], a)
  }

  /** tcp_oos_insert_segment. */
  method OosInsertSegment(cseg: Segment, following: seq<Segment>, ghost a: int) returns (q: seq<Segment>)
    requires R.Ordered(following, cseg.seqno - 1)
    requires NearSegment(cseg, a) && NearQueue(following, a)
    ensures q == R.OosInsert(cseg, following)
  {
    var c, next := cseg, following;
    if c.fin {
      next := [];
    } else {
      while next != [] && SeqGeq(c.seqno + |c.data|, next[0].seqno + |next[0].data|)
        invariant R.Ordered(next, cseg.seqno - 1) && NearQueue(next, a)
        invariant c.seqno == cseg.seqno && c.data == cseg.data
        invariant R.Absorb(c, next, false) == R.Absorb(cseg, following, false)
        decreases |next|
      {
        R.Weaken(next[1..], next[0].Last(), cseg.seqno - 1);
        if next[0].fin {
          c := c.(fin := true);
        }
        next := next[1..];
      }
      if next != [] && SeqGt(c.seqno + |c.data|, next[0].seqno) {
        c := c.(data := c.data[..next[0].seqno - c.seqno]);
      }
    }
    q := [c] + next;
  }

  /** The walk may stand at index i: everything before it has been passed. */
  predicate Standing(q: seq<Segment>, i: nat, s: Segment, edge: int) {
    && i < |q| && s.seqno <= edge
    && R.Ordered(q[i..], q[i].seqno - 1)
    && (0 < i ==> q[i-1].seqno < s.seqno && R.Ordered(q[i..], q[i-1].seqno))
  }

  /** The queue that results when the walk stands at index i. */
  ghost function From(q: seq<Segment>, i: nat, s: Segment, edge: int): seq<Segment>
    requires Standing(q, i, s, edge)
  {
    if i == 0 then
      assert q[0..] == q;
      R.Enqueue(q, s, edge)
    else q[..i-1] + R.EnqueueAfter(q[i-1], q[i..], s, edge)
  }

  lemma {:induction false} MoveOne(q: seq<Segment>, i: nat, tail: seq<Segment>)
    requires 0 < i <= |q|
    ensures q[..i-1] + ([q[i-1]] + tail) == q[..i] + tail
  {
  }

  lemma {:induction false} FromEqual(q: seq<Segment>, i: nat, s: Segment, edge: int)
    requires Standing(q, i, s, edge) && s.seqno == q[i].seqno
    ensures From(q, i, s, edge) == if |s.data| > |q[i].data| then q[..i] + R.OosInsert(s, q[i..]) else q
  {
    assert q[i..][0] == q[i];
    if i == 0 {
      assert q[0..] == q;
    } else if |s.data| > |q[i].data| {
      MoveOne(q, i, R.OosInsert(s, q[i..]));
    } else {
      MoveOne(q, i, q[i..]);
      assert q[..i] + q[i..] == q;
    }
  }

  lemma {:induction false} FromBefore(q: seq<Segment>, i: nat, s: Segment, edge: int)
    requires Standing(q, i, s, edge) && s.seqno < q[i].seqno
    ensures R.Ordered(q[i..], s.seqno - 1)
    ensures From(q, i, s, edge) ==
      (if i == 0 then [] else q[..i-1] + [q[i-1].TrimTo(s.seqno)]) + R.OosInsert(s, q[i..])
  {
    R.Weaken(q[i..], q[i].seqno - 1, s.seqno - 1);
    assert q[i..][0] == q[i];
    if i == 0 {
      assert q[0..] == q;
    }
  }

  lemma {:induction false} FromLast(q: seq<Segment>, i: nat, s: Segment, edge: int)
    requires Standing(q, i, s, edge) && q[i].seqno < s.seqno && i == |q| - 1
    ensures From(q, i, s, edge) ==
      if q[i].fin then q else q[..i] + [q[i].TrimTo(s.seqno), R.FitWindow(s, edge)]
  {
    assert q[i..] == [q[i]];
    if i == 0 {
      assert q[0..] == q;
    } else if q[i].fin {
      MoveOne(q, i, q[i..]);
    } else {
      MoveOne(q, i, [q[i].TrimTo(s.seqno), R.FitWindow(s, edge)]);
      assert [q[i-1], q[i].TrimTo(s.seqno), R.FitWindow(s, edge)]
          == [q[i-1]] + [q[i].TrimTo(s.seqno), R.FitWindow(s, edge)];
    }
  }

  lemma {:induction false} StandingNext(q: seq<Segment>, i: nat, s: Segment, edge: int)
    requires Standing(q, i, s, edge) && q[i].seqno < s.seqno && i < |q| - 1
    ensures Standing(q, i + 1, s, edge)
  {
    assert q[i..][0] == q[i] && q[i..][1..] == q[i+1..];
    R.Weaken(q[i+1..], q[i].Last(), q[i].seqno);
    R.Weaken(q[i+1..], q[i].Last(), q[i+1].seqno - 1);
  }

  lemma {:induction false} FromNext(q: seq<Segment>, i: nat, s: Segment, edge: int)
    requires Standing(q, i, s, edge) && q[i].seqno < s.seqno && i < |q| - 1
    ensures Standing(q, i + 1, s, edge)
    ensures From(q, i, s, edge) == From(q, i + 1, s, edge)
  {
    StandingNext(q, i, s, edge);
    assert q[i..][0] == q[i] && q[i..][1..] == q[i+1..];
    if i == 0 {
      assert q[0..] == q;
    } else {
      MoveOne(q, i, R.EnqueueAfter(q[i], q[i+1..], s, edge));
    }
  }

  /** Cuts the end of the previous segment off where the new one starts. */
  method TrimEnd(prev: Segment, pos: int, ghost a: int) returns (r: Segment)
    requires NearSegment(prev, a) && Near(pos, a) && prev.seqno <= pos
    ensures r == prev.TrimTo(pos)
  {
    r := prev;
    if SeqGt(prev.seqno + |prev.data|, pos) {
      r := prev.(data := prev.data[..pos - prev.seqno]);
    }
  }

  /** Cuts a segment that overruns the receive window. */
  method FitWindow(s: Segment, edge: int, ghost a: int) returns (r: Segment)
    requires NearSegment(s, a) && Near(edge, a) && s.seqno <= edge
    ensures r == R.FitWindow(s, edge)
  {
    r := s;
    if SeqGt(s.seqno + s.TcpLen(), edge) {
      r := Segment(s.seqno, s.data[..edge - s.seqno], false);
    }
  }

  /** The search for the place of an out-of-sequence segment. */
  method QueueSegment(q: seq<Segment>, s: Segment, edge: int, ghost a: int) returns (r: seq<Segment>)
    requires s.seqno <= edge && (q != [] ==> R.Ordered(q, q[0].seqno - 1))
    requires NearSegment(s, a) && NearQueue(q, a) && Near(edge, a)
    ensures r == R.Enqueue(q, s, edge)
  {
    if q == [] {
      return [s];
    }
    assert q[0..] == q;
    var i := 0;
    while true
      invariant Standing(q, i, s, edge) && From(q, i, s, edge) == R.Enqueue(q, s, edge)
      decreases |q| - i
    {
      if s.seqno == q[i].seqno {
        FromEqual(q, i, s, edge);
        if |s.data| <= |q[i].data| {
          return q;
        }
        var tail := OosInsertSegment(s, q[i..], a);
        return q[..i] + tail;
      }
      if i == 0 && SeqLt(s.seqno, q[i].seqno) {
        FromBefore(q, i, s, edge);
        r := OosInsertSegment(s, q[i..], a);
        return;
      }
      if 0 < i && SeqBetween(s.seqno, q[i-1].seqno + 1, q[i].seqno - 1) {
        FromBefore(q, i, s, edge);
        var prev := TrimEnd(q[i-1], s.seqno, a);
        var tail := OosInsertSegment(s, q[i..], a);
        return q[..i-1] + [prev] + tail;
      }
      if i == |q| - 1 && SeqGt(s.seqno, q[i].seqno) {
        FromLast(q, i, s, edge);
        if q[i].fin {
          return q;
        }
        var last := TrimEnd(q[i], s.seqno, a);
        var fitted := FitWindow(s, edge, a);
        return q[..i] + [last, fitted];
      }
      FromNext(q, i, s, edge);
      i := i + 1;
    }
  }

  /** In-sequence data against the queue: a FIN bins the queue, otherwise covered segments go,
      their FIN is taken over, and the segment gives way to the first one left. */
  method TrimToQueue(inseg: Segment, queue: seq<Segment>, ghost a: int) returns (c: Segment, next: seq<Segment>)
    requires R.Ordered(queue, inseg.seqno - 1)
    requires NearSegment(inseg, a) && NearQueue(queue, a)
    ensures (c, next) == R.Merge(inseg, queue, true)
    ensures NearSegment(c, a) && NearQueue(next, a)
  {
    c, next := inseg, queue;
    if c.fin {
      next := [];
    } else {
      while next != [] && SeqGeq(c.seqno + c.TcpLen(), next[0].seqno + |next[0].data|)
        invariant R.Ordered(next, inseg.seqno - 1) && NearQueue(next, a)
        invariant c.seqno == inseg.seqno && c.data == inseg.data
        invariant R.Absorb(c, next, true) == R.Absorb(inseg, queue, true)
        decreases |next|
      {
        R.Weaken(next[1..], next[0].Last(), inseg.seqno - 1);
        if next[0].fin {
          c := c.(fin := true);
        }
        next := next[1..];
      }
      if next != [] && SeqGt(c.seqno + c.TcpLen(), next[0].seqno) {
        c := c.(data := c.data[..next[0].seqno - c.seqno]);
      }
    }
  }

  /** All positions of the pcb, its edge included, lie where the macros can compare them. */
  predicate Comparable(p: R.Pcb, a: int) {
    && -0x4000_0000 <= p.rcvNxt - a < 0x4000_0000
    && -0x4000_0000 <= p.annEdge - a < 0x3000_0000
    && -0x4000_0000 <= p.rcvNxt + p.rcvWnd - a < 0x4000_0000
    && NearQueue(p.ooseq, a)
  }

  class TcpPcb {
    var rcvNxt: int
    var rcvWnd: int
    var rcvAnnWnd: int
    var rcvAnnRightEdge: int
    var mss: nat
    var ooseq: seq<Segment>
    var closed: bool

    ghost function Value(): R.Pcb
      reads this
    {
      R.Pcb(rcvNxt, rcvWnd, rcvAnnWnd, rcvAnnRightEdge, mss, ooseq, closed)
    }

    constructor (base: int, peerMss: nat)
      ensures Value() == R.Fresh(base, peerMss)
    {
      rcvNxt, rcvWnd, rcvAnnWnd, rcvAnnRightEdge := base, R.TCP_WND, R.TCP_WND, base;
      mss, ooseq, closed := peerMss, [], false;
    }

    /** tcp_update_rcv_ann_wnd: returns by how much the announced edge could move. */
    method UpdateRcvAnnWnd(ghost a: int) returns (inflation: int)
      requires Comparable(Value(), a)
      modifies this`rcvAnnWnd
      ensures Value() == R.UpdateAnnWnd(old(Value()))
      ensures inflation == if rcvNxt + rcvWnd >= rcvAnnRightEdge + R.Threshold(mss)
                           then rcvNxt + rcvWnd - rcvAnnRightEdge else 0
    {
      var newRightEdge := rcvNxt + rcvWnd;
      if SeqGeq(newRightEdge, rcvAnnRightEdge + R.Threshold(mss)) {
        rcvAnnWnd := rcvWnd;
        inflation := newRightEdge - rcvAnnRightEdge;
      } else {
        if SeqGt(rcvNxt, rcvAnnRightEdge) {
          rcvAnnWnd := 0;
        } else {
          rcvAnnWnd := rcvAnnRightEdge - rcvNxt;
        }
        inflation := 0;
      }
    }

    /** tcp_recved: a change of the threshold or more is announced at once, if a header goes out
        (sent). */
    method Recved(n: nat, sent: bool, ghost a: int) returns (update: bool)
      requires Comparable(Value(), a) && Comparable(R.Recved(Value(), n), a)
      modifies this
      ensures var p := R.Recved(old(Value()), n); var gain := p.rcvNxt + p.rcvWnd - p.annEdge;
        && (update <==> gain >= R.Threshold(p.mss) && gain >= R.TCP_WND_UPDATE_THRESHOLD)
        && Value() == if update && sent then R.Announce(p) else p
    {
      rcvWnd := rcvWnd + n;
      if rcvWnd < 0 || rcvWnd > R.TCP_WND {
        rcvWnd := R.TCP_WND;
      }
      var inflation := UpdateRcvAnnWnd(a);
      update := inflation >= R.TCP_WND_UPDATE_THRESHOLD;
      if update && sent {
        Announce();
      }
    }

    /** Takes c into the stream; rest is what stays queued. */
    method Accept(c: Segment, rest: seq<Segment>, ghost a: int)
      requires Comparable(Value(), a) && c.seqno == rcvNxt && NearSegment(c, a) && NearQueue(rest, a)
      modifies this
      ensures Value() == R.Accept(old(Value()), c, rest) && Comparable(Value(), a)
    {
      rcvNxt := rcvNxt + c.TcpLen();
      rcvWnd := rcvWnd - c.TcpLen();
      var _ := UpdateRcvAnnWnd(a);
      if c.fin {
        closed := true;
      }
      ooseq := rest;
    }

    /** Hands over the segments on the queue that are now in sequence. */
    method DrainQueue(ghost a: int) returns (data: seq<Byte>, gotFin: bool)
      requires Comparable(Value(), a)
      modifies this
      ensures R.Outcome(Value(), data, gotFin) == R.Drain(old(Value()))
      ensures Comparable(Value(), a)
    {
      data, gotFin := [], false;
      while ooseq != [] && ooseq[0].seqno == rcvNxt
        invariant Comparable(Value(), a)
        invariant var o := R.Drain(Value());
          R.Drain(old(Value())) == R.Outcome(o.pcb, data + o.data, gotFin || o.gotFin)
        decreases |ooseq|
      {
        var cseg := ooseq[0];
        ghost var o := R.Drain(R.PopFirst(Value()));
        assert data + (cseg.data + o.data) == data + cseg.data + o.data;
        Accept(cseg, ooseq[1..], a);
        data := data + cseg.data;
        if cseg.fin {
          gotFin := true;
        }
      }
    }

    /** The incoming segment is the next in sequence. */
    method InSequence(s: Segment, ghost a: int) returns (data: seq<Byte>, gotFin: bool)
      requires R.Ordered(ooseq, rcvNxt) && s.seqno == rcvNxt && 0 < rcvWnd < 0x4000_0000
      requires Comparable(Value(), a) && NearSegment(s, a) && Near(rcvNxt + rcvWnd, a)
      modifies this
      ensures R.Outcome(Value(), data, gotFin) == R.InSequence(old(Value()), s)
    {
      hide R.Drain, R.Merge, R.Accept;
      R.Weaken(ooseq, rcvNxt, s.seqno - 1);
      var inseg := FitWindow(s, rcvNxt + rcvWnd, a);
      var c, rest := TrimToQueue(inseg, ooseq, a);
      Accept(c, rest, a);
      data, gotFin := DrainQueue(a);
      data, gotFin := c.data + data, c.fin || gotFin;
    }

    /** Any outgoing header announces the window. */
    method Announce()
      modifies this`rcvAnnRightEdge
      ensures Value() == R.Announce(old(Value()))
    {
      rcvAnnRightEdge := rcvNxt + rcvAnnWnd;
    }

    /** The data part of tcp_receive. */
    method Receive(seg: Segment, segOk: bool, ackOk: bool, ghost a: int) returns (data: seq<Byte>, gotFin: bool)
      requires R.Ordered(ooseq, rcvNxt) && -0x1000_0000 < rcvWnd < 0x1000_0000
      requires Comparable(Value(), a) && NearSegment(seg, a) && Near(rcvNxt, a) && Near(rcvNxt + rcvWnd, a)
      modifies this
      ensures R.Outcome(Value(), data, gotFin) == R.Receive(old(Value()), seg, segOk, ackOk)
    {
      data, gotFin := [], false;
      if seg.TcpLen() == 0 || closed {
        return;
      }
      var s := seg;
      if SeqBetween(rcvNxt, s.seqno + 1, s.seqno + s.TcpLen() - 1) {
        s := Segment(rcvNxt, s.data[rcvNxt - s.seqno..], s.fin);
      }
      if SeqBetween(s.seqno, rcvNxt, rcvNxt + rcvWnd - 1) {
        if rcvNxt == s.seqno {
          data, gotFin := InSequence(s, a);
        } else {
          var edge := rcvNxt + rcvWnd;
          if ackOk {
            Announce();
          }
          if segOk {
            ooseq := QueueSegment(ooseq, s, edge, a);
          }
        }
      } else if ackOk {
        Announce();
      }
    }

    /** tcp_input around it: the position of a FIN goes back to the window, unless the application
        refused data, which then has to be taken first. */
    method Input(seg: Segment, segOk: bool, ackOk: bool, refused: bool, ghost a: int)
      returns (data: seq<Byte>, gotFin: bool)
      requires R.Ordered(ooseq, rcvNxt) && -0x1000_0000 < rcvWnd < 0x1000_0000
      requires Comparable(Value(), a) && NearSegment(seg, a) && Near(rcvNxt, a) && Near(rcvNxt + rcvWnd, a)
      modifies this
      ensures R.Outcome(Value(), data, gotFin) ==
              if refused then R.Receive(old(Value()), seg, segOk, ackOk) else R.Input(old(Value()), seg, segOk, ackOk)
      ensures R.Ordered(ooseq, rcvNxt)
    {
      Proofs.InputOrdered(Value(), seg, segOk, ackOk);
      data, gotFin := Receive(seg, segOk, ackOk, a);
      if gotFin && !refused {
        CreditFin();
      }
    }

    method CreditFin()
      modifies this`rcvWnd
      ensures rcvWnd == if old(rcvWnd) != R.TCP_WND then old(rcvWnd) + 1 else old(rcvWnd)
    {
      if rcvWnd != R.TCP_WND {
        rcvWnd := rcvWnd + 1;
      }
    }

    /** tcp_process_refused_data once the application takes what it refused before: together with the
        call that was refused, the pcb is the one of a call that was not. */
    method TakeRefused(gotFin: bool, ghost before: R.Pcb, ghost seg: Segment, ghost segOk: bool, ghost ackOk: bool)
      requires R.Ordered(before.ooseq, before.rcvNxt)
      requires Value() == R.Receive(before, seg, segOk, ackOk).pcb
      requires gotFin == R.Receive(before, seg, segOk, ackOk).gotFin
      modifies this`rcvWnd
      ensures Value() == R.Input(before, seg, segOk, ackOk).pcb
    {
      if gotFin {
        CreditFin();
      }
    }
  }
}
