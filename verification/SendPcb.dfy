/** The send path as the stack runs it: queues relinked in place, segmentation into local
    variables with one commit at the end, comparisons through the 32-bit macros.  Every
    method is tied to the functions of SendQueues. */
module SendPcb {
  import opened SequenceNumbers
  import opened Segments
  import S = SendQueues
  import opened Wrappers

  type TxSeg = S.TxSeg

  predicate Near(x: int, a: int) {
    -0x2000_0000 <= x - a < 0x2000_0000
  }

  predicate NearQueue(q: seq<TxSeg>, a: int) {
    forall i | 0 <= i < |q| :: Near(q[i].s.seqno, a) && |q[i].s.data| < 0x1_0000
  }

  predicate Comparable(p: S.Snd, a: int) {
    Near(p.lastack, a) && -0x4000_0000 <= p.nxt - a < 0x4000_0000 && NearQueue(p.unacked, a) && NearQueue(p.unsent, a)
  }

  lemma {:induction false} InsertStep(q: seq<TxSeg>, x: TxSeg, i: nat)
    requires i < |q| && q[i].s.seqno < x.s.seqno
    ensures q[..i] + S.InsertBefore(q[i..], x) == q[..i+1] + S.InsertBefore(q[i+1..], x)
  {
    assert q[i..][1..] == q[i+1..];
    assert q[..i+1] == q[..i] + [q[i]];
  }

  /** Walks to the first segment that does not start before x and links x in there. */
  method LinkSorted(q: seq<TxSeg>, x: TxSeg, ghost a: int) returns (r: seq<TxSeg>)
    requires NearQueue(q, a) && Near(x.s.seqno, a)
    ensures r == S.InsertBefore(q, x)
  {
    hide SeqDiff;
    var i := 0;
    assert q[..0] + S.InsertBefore(q[0..], x) == S.InsertBefore(q, x) by { assert q[0..] == q; }
    while i < |q| && SeqLt(q[i].s.seqno, x.s.seqno)
      invariant 0 <= i <= |q|
      invariant S.InsertBefore(q, x) == q[..i] + S.InsertBefore(q[i..], x)
    {
      InsertStep(q, x, i);
      i := i + 1;
    }
    assert q[..i] + ([x] + q[i..]) == q[..i] + [x] + q[i..];
    r := q[..i] + [x] + q[i..];
  }

  lemma {:induction false} InsertNear(q: seq<TxSeg>, x: TxSeg, a: int)
    requires NearQueue(q, a) && NearQueue([x], a)
    ensures NearQueue(S.InsertBefore(q, x), a)
    decreases |q|
  {
    assert Near([x][0].s.seqno, a);
    if q != [] && q[0].s.seqno < x.s.seqno {
      InsertNear(q[1..], x, a);
    }
  }

  /** Frees the acknowledged segments at the front of a queue. */
  method FreeAcked(q: seq<TxSeg>, ackno: int, ghost a: int) returns (r: seq<TxSeg>, freed: int)
    requires NearQueue(q, a) && Near(ackno, a)
    ensures r == S.DropAcked(q, ackno) && NearQueue(r, a)
    ensures freed == S.Pbufs(q) - S.Pbufs(r)
  {
    hide SeqDiff;
    r, freed := q, 0;
    while r != [] && SeqLeq(r[0].Next(), ackno)
      invariant NearQueue(r, a)
      invariant S.DropAcked(q, ackno) == S.DropAcked(r, ackno)
      invariant freed == S.Pbufs(q) - S.Pbufs(r)
      decreases |r|
    {
      freed := freed + r[0].pbufs;
      r := r[1..];
    }
  }

  /** The segments made so far followed by those still to come, if they all can be made. */
  ghost function Made(queue: seq<TxSeg>, rest: Option<seq<TxSeg>>): Option<seq<TxSeg>> {
    if rest.None? then None else Some(queue + rest.value)
  }

  lemma {:induction false} SplitStep(queue: seq<TxSeg>, bytes: seq<Byte>, at: nat, pos: int, m: nat, queuelen: int,
      left: nat)
    requires at < |bytes| && 0 < left && queuelen + 2 <= S.TCP_SND_QUEUELEN
    ensures var n := if |bytes| - at > m then m else |bytes| - at;
      Made(queue, S.Split(bytes[at..], pos, m, queuelen, left))
        == Made(queue + [S.TxSeg(Segment(pos, bytes[at..at + n], false), 2)],
                S.Split(bytes[at + n..], pos + n, m, queuelen + 2, left - 1))
  {
    var n := if |bytes| - at > m then m else |bytes| - at;
    assert bytes[at..][..n] == bytes[at..at + n] && bytes[at..][n..] == bytes[at + n..];
    var seg := S.TxSeg(Segment(pos, bytes[at..at + n], false), 2);
    var rest := S.Split(bytes[at + n..], pos + n, m, queuelen + 2, left - 1);
    if rest.Some? {
      assert queue + ([seg] + rest.value) == queue + [seg] + rest.value;
    }
  }

  lemma {:induction false} SplitEnds(bytes: seq<Byte>, pos: int, m: nat, queuelen: int, left: nat)
    ensures bytes == [] ==> S.Split(bytes, pos, m, queuelen, left) == Some([])
    ensures bytes != [] && (left == 0 || queuelen + 2 > S.TCP_SND_QUEUELEN) ==>
      S.Split(bytes, pos, m, queuelen, left).None?
  {
  }

  /** Phase 3 of tcp_write: new segments, chained in a local queue. */
  method CreateSegments(bytes: seq<Byte>, pos0: int, mssLocal: nat, queuelen0: int, budget: nat)
      returns (ok: bool, queue: seq<TxSeg>)
    ensures ok == S.Split(bytes, pos0, mssLocal, queuelen0, budget).Some?
    ensures ok ==> queue == S.Split(bytes, pos0, mssLocal, queuelen0, budget).value
  {
    hide S.Split;
    ghost var goal := S.Split(bytes, pos0, mssLocal, queuelen0, budget);
    var pos, queuelen, left := 0, queuelen0, budget;
    queue := [];
    assert goal.Some? ==> [] + goal.value == goal.value;
    assert bytes[0..] == bytes;
    while pos < |bytes|
      invariant 0 <= pos <= |bytes|
      invariant goal == Made(queue, S.Split(bytes[pos..], pos0 + pos, mssLocal, queuelen, left))
      decreases S.TCP_SND_QUEUELEN + 2 - queuelen
    {
      var n := |bytes| - pos;
      var seglen := if n > mssLocal then mssLocal else n;
      SplitEnds(bytes[pos..], pos0 + pos, mssLocal, queuelen, left);
      if left == 0 { return false, queue; }
      if queuelen + 2 > S.TCP_SND_QUEUELEN { return false, queue; }
      SplitStep(queue, bytes, pos, pos0 + pos, mssLocal, queuelen, left);
      left := left - 1;
      queuelen := queuelen + 2;
      queue := queue + [S.TxSeg(Segment(pos0 + pos, bytes[pos..pos + seglen], false), 2)];
      pos := pos + seglen;
    }
    SplitEnds(bytes[pos..], pos0 + pos, mssLocal, queuelen, left);
    assert queue + [] == queue;
    ok := true;
  }

  class TcpPcb {
    var unacked: seq<TxSeg>
    var unsent: seq<TxSeg>
    var sndLbb: int
    var sndNxt: int
    var lastack: int
    var sndBuf: int
    var sndQueuelen: int
    var mss: nat
    var sndWndMax: nat
    var finQueued: bool

    ghost function Value(): S.Snd
      reads this
    {
      S.Snd(unacked, unsent, sndLbb, sndNxt, lastack, sndBuf, sndQueuelen, mss, sndWndMax, finQueued)
    }

    constructor (iss: int, peerMss: nat, wnd: nat)
      ensures Value() == S.Fresh(iss, peerMss, wnd)
    {
      unacked, unsent := [], [];
      sndLbb, sndNxt, lastack := iss, iss, iss;
      sndBuf, sndQueuelen := S.TCP_SND_BUF, 0;
      mss, sndWndMax, finQueued := peerMss, wnd, false;
    }

    /** Phase 2 of tcp_write: how much fits onto the last unsent segment, and the unsent queue
        with that much chained on. */
    method GrowLast(arg: seq<Byte>) returns (pos: nat, kept: seq<TxSeg>)
      ensures pos == S.Extension(Value(), |arg|) && kept == S.Kept(Value(), arg, pos)
    {
      pos, kept := 0, unsent;
      if unsent != [] {
        var mssLocal := if mss < sndWndMax / 2 then mss else sndWndMax / 2;
        var last := unsent[|unsent|-1];
        var space := S.SpaceAfter(mssLocal, |last.s.data|);
        if space > 0 && |last.s.data| > 0 && |arg| > 0 {
          pos := if space < |arg| then space else |arg|;
          kept := unsent[..|unsent|-1] + [S.TxSeg(last.s.(data := last.s.data + arg[..pos]), last.pbufs + 1)];
        }
      }
    }

    /** tcp_write: everything is recorded in local variables and committed at the end, so a
        failure at any point changes nothing. */
    method Write(arg: seq<Byte>, budget: nat) returns (ok: bool)
      modifies this
      ensures ok == S.Write(old(Value()), arg, budget).Some?
      ensures Value() == if ok then S.Write(old(Value()), arg, budget).value else old(Value())
    {
      hide S.SpaceAfter, S.ExtendLast, S.Split;
      if finQueued { return false; }
      if arg == [] { return true; }
      if |arg| > sndBuf || sndQueuelen >= S.TCP_SND_QUEUELEN { return false; }

      var pos, kept := GrowLast(arg);
      var used := if pos > 0 then 1 else 0;
      if budget < used { return false; }
      var mssLocal := if mss < sndWndMax / 2 then mss else sndWndMax / 2;
      var queue;
      ok, queue := CreateSegments(arg[pos..], sndLbb + pos, mssLocal, sndQueuelen + used, budget - used);
      if ok {
        unsent := kept + queue;
        sndLbb := sndLbb + |arg|;
        sndBuf := sndBuf - |arg|;
        sndQueuelen := sndQueuelen + used + 2 * |queue|;
      }
    }

    /** One turn of the loop of tcp_output: the first unsent segment goes on the wire and to
        its place on the unacked queue. */
    method OutputSegment(ghost a: int) returns (seg: Segment)
      requires unsent != [] && Comparable(Value(), a)
      modifies this
      ensures Value() == S.OutputOne(old(Value())) && seg == old(unsent[0].s)
      ensures Comparable(Value(), a) && |unsent| == old(|unsent|) - 1
    {
      hide SeqDiff;
      var x := unsent[0];
      seg := x.s;
      unsent := unsent[1..];
      if SeqLt(sndNxt, x.Next()) {
        sndNxt := x.Next();
      }
      if x.s.TcpLen() > 0 {
        if unacked == [] {
          unacked := [x];
        } else if SeqLt(x.s.seqno, unacked[|unacked|-1].s.seqno) {
          unacked := LinkSorted(unacked, x, a);
          InsertNear(old(unacked), x, a);
        } else {
          unacked := unacked + [x];
        }
      }
    }

    /** tcp_output: the loop that sends while window and Nagle allow. */
    method Output(wnd: nat, pushNow: bool, ghost a: int) returns (sent: seq<Segment>)
      requires Comparable(Value(), a)
      modifies this
      ensures (Value(), sent) == S.Output(old(Value()), wnd, pushNow)
    {
      hide U32, S.OutputOne;
      sent := [];
      assert [] + S.Output(Value(), wnd, pushNow).1 == S.Output(Value(), wnd, pushNow).1;
      while unsent != [] && U32(unsent[0].s.seqno - lastack + |unsent[0].s.data|) <= wnd
        invariant Comparable(Value(), a)
        invariant var r := S.Output(Value(), wnd, pushNow);
          S.Output(old(Value()), wnd, pushNow) == (r.0, sent + r.1)
        decreases |unsent|
      {
        if !(unacked == [] || pushNow || |unsent| > 1 || |unsent[0].s.data| >= mss
             || sndBuf == 0 || sndQueuelen >= S.TCP_SND_QUEUELEN) {
          break;
        }
        ghost var r := S.Output(S.OutputOne(Value()), wnd, pushNow);
        var seg := OutputSegment(a);
        assert sent + ([seg] + r.1) == sent + [seg] + r.1;
        sent := sent + [seg];
      }
      assert sent + [] == sent;
    }
  
    /** tcp_rexmit: requeue the first unacked segment, keeping the unsent queue sorted. */
    method Rexmit(ghost a: int)
      requires Comparable(Value(), a)
      modifies this
      ensures Value() == S.Rexmit(old(Value())) && Comparable(Value(), a)
    {
      if unacked == [] { return; }
      var seg := unacked[0];
      unacked := unacked[1..];
      unsent := LinkSorted(unsent, seg, a);
      InsertNear(old(unsent), seg, a);
    }

    /** tcp_rexmit_rto: all unacked segments go to the head of the unsent queue. */
    method RexmitRto()
      modifies this
      ensures Value() == S.RexmitRto(old(Value()))
    {
      if unacked == [] {
        assert unacked + unsent == unsent;
        return;
      }
      unsent := unacked + unsent;
      unacked := [];
    }

    /** New data is acknowledged: send buffer space comes back and segments are freed. */
    method TakeAck(ackno: int, ghost a: int)
      requires Comparable(Value(), a) && Near(ackno, a)
      modifies this
      ensures Value() == S.TakeAck(old(Value()), ackno) && Comparable(Value(), a)
    {
      hide S.DropAcked, S.Pbufs;
      var u, freed := FreeAcked(unacked, ackno, a);
      sndBuf := sndBuf + (ackno - lastack);
      lastack := ackno;
      unacked := u;
      sndQueuelen := sndQueuelen - freed;
    }

    /** ACK processing of tcp_receive on the unacked queue. */
    method AckUnacked(ackno: int, fast: bool, ghost a: int)
      requires Comparable(Value(), a) && Near(ackno, a)
      modifies this
      ensures Value() == S.AckUnacked(old(Value()), ackno, fast) && Comparable(Value(), a)
    {
      hide SeqDiff, S.Rexmit, S.TakeAck;
      if SeqLeq(ackno, lastack) {
        if fast {
          Rexmit(a);
        }
      } else if SeqBetween(ackno, lastack + 1, sndNxt) {
        TakeAck(ackno, a);
      }
    }

    /** ACK processing of tcp_receive, as far as the queues go. */
    method Ack(ackno: int, fast: bool, ghost a: int)
      requires Comparable(Value(), a) && Near(ackno, a)
      modifies this
      ensures Value() == S.Ack(old(Value()), ackno, fast)
    {
      hide SeqDiff, S.AckUnacked;
      AckUnacked(ackno, fast, a);
      if SeqLeq(ackno, sndNxt) {
        var freed;
        unsent, freed := FreeAcked(unsent, ackno, a);
        sndQueuelen := sndQueuelen - freed;
      }
    }

    /** tcp_enqueue_flags for a FIN. */
    method EnqueueFin(alloc: bool) returns (ok: bool)
      modifies this
      ensures ok == S.EnqueueFin(old(Value()), alloc).Some?
      ensures Value() == if ok then S.EnqueueFin(old(Value()), alloc).value else old(Value())
    {
      if sndQueuelen >= S.TCP_SND_QUEUELEN || sndBuf == 0 || !alloc { return false; }
      unsent := unsent + [S.TxSeg(Segment(sndLbb, [], true), 1)];
      sndLbb := sndLbb + 1;
      sndBuf := sndBuf - 1;
      finQueued := true;
      sndQueuelen := sndQueuelen + 1;
      ok := true;
    }

    /** tcp_send_fin: try the last unsent segment first. */
    method SendFin(alloc: bool) returns (ok: bool)
      modifies this
      ensures ok == S.SendFin(old(Value()), alloc).Some?
      ensures Value() == if ok then S.SendFin(old(Value()), alloc).value else old(Value())
    {
      if unsent != [] {
        var last := unsent[|unsent|-1];
        if !last.s.fin {
          unsent := unsent[..|unsent|-1] + [last.(s := last.s.(fin := true))];
          finQueued := true;
          return true;
        }
      }
      ok := EnqueueFin(alloc);
    }
  }
}
