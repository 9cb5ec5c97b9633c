/** The receive half of a TCP connection as a function of values: trimming, the
    out-of-order queue, delivery and the receive window. */
module Reassembly {
  import opened Segments

  const TCP_WND: int := 0x8000

  /** TCP_WND / 4 expands to 1 << 15 / 4, that is 1 << 3. */
  const TCP_WND_UPDATE_THRESHOLD: int := 8

  /** The fields of the pcb that receiving touches.  closed stands for "state is CLOSE_WAIT
      or later", the test that makes tcp_receive ignore segment text.  rcvWnd is unsigned in
      the pcb; here it goes below zero exactly when the 32-bit field wraps, and the signed
      comparison macros read such a field as the negative value. */
  datatype Pcb = Pcb(rcvNxt: int, rcvWnd: int, annWnd: int, annEdge: int, mss: nat,
                     ooseq: seq<Segment>, closed: bool)

  /** What one call hands to the application. */
  datatype Outcome = Outcome(pcb: Pcb, data: seq<Byte>, gotFin: bool)

  // ---------------------------------------------------------------- the window

  /** A connection as tcp_alloc and the handshake leave it. */
  function Fresh(base: int, mss: nat): Pcb {
    Pcb(base, TCP_WND, TCP_WND, base, mss, [], false)
  }

  /** TCP_WND / 2 expands to 1 << 15 / 2, that is 1 << 7. */
  function Threshold(mss: nat): nat {
    if mss < 128 then mss else 128
  }

  function UpdateAnnWnd(p: Pcb): (r: Pcb)
    ensures r == p.(annWnd := r.annWnd)
  {
    if p.rcvNxt + p.rcvWnd >= p.annEdge + Threshold(p.mss) then p.(annWnd := p.rcvWnd)
    else if p.rcvNxt > p.annEdge then p.(annWnd := 0)
    else p.(annWnd := p.annEdge - p.rcvNxt)
  }

  /** rcv_nxt moves over n positions. */
  function Advance(p: Pcb, n: nat): (r: Pcb)
    ensures r == p.(rcvNxt := p.rcvNxt + n, rcvWnd := p.rcvWnd - n, annWnd := r.annWnd)
  {
    UpdateAnnWnd(p.(rcvNxt := p.rcvNxt + n, rcvWnd := p.rcvWnd - n))
  }

  /** Any outgoing header announces the window. */
  function Announce(p: Pcb): Pcb {
    p.(annEdge := p.rcvNxt + p.annWnd)
  }

  /** The application consumed n bytes; a wrapped field compares above TCP_WND as well. */
  function Recved(p: Pcb, n: nat): Pcb {
    UpdateAnnWnd(p.(rcvWnd := if 0 <= p.rcvWnd + n <= TCP_WND then p.rcvWnd + n else TCP_WND))
  }

  // ---------------------------------------------------------------- the queue

  /** The order of the queue: positions above lo, nothing empty, each segment beyond the
      last position of the one before it, a FIN only on the last one. */
  predicate Ordered(q: seq<Segment>, lo: int) {
    q == [] ||
    (&& lo < q[0].seqno
     && 0 < q[0].TcpLen()
     && (q[0].fin ==> |q| == 1)
     && Ordered(q[1..], q[0].Last()))
  }

  lemma {:induction false} Weaken(q: seq<Segment>, lo: int, lo': int)
    requires Ordered(q, lo) && (q != [] ==> lo' < q[0].seqno)
    ensures Ordered(q, lo')
  {
  }

  /** Deletes the segments at the front of next that c covers, taking over their FIN.
      The in-sequence code counts a FIN taken over when it tests the next segment. */
  function Absorb(c: Segment, next: seq<Segment>, countFin: bool): (r: (Segment, seq<Segment>))
    requires Ordered(next, c.seqno - 1)
    ensures r.0.seqno == c.seqno && r.0.data == c.data
    ensures Ordered(r.1, c.seqno - 1)
    ensures !c.fin && r.0.fin ==> r.1 == []
    ensures !c.fin && r.1 != [] ==> c.End() < r.1[0].End()
    decreases |next|
  {
    if next != [] && (if countFin then c.seqno + c.TcpLen() else c.End()) >= next[0].End() then
      Weaken(next[1..], next[0].Last(), c.seqno - 1);
      Absorb(c.(fin := c.fin || next[0].fin), next[1..], countFin)
    else
      (c, next)
  }

  /** c placed in front of next: a FIN bins everything behind it, otherwise covered segments
      go and c gives way to the first survivor. */
  function Merge(c: Segment, next: seq<Segment>, countFin: bool): (r: (Segment, seq<Segment>))
    requires Ordered(next, c.seqno - 1)
    ensures r.0.seqno == c.seqno && r.0.data <= c.data
  {
    if c.fin then (c, [])
    else
      var (c', rest) := Absorb(c, next, countFin);
      if rest != [] && c'.seqno + c'.TcpLen() > rest[0].seqno then
        (c'.TrimTo(rest[0].seqno), rest)
      else
        (c', rest)
  }

  function OosInsert(c: Segment, next: seq<Segment>): seq<Segment>
    requires Ordered(next, c.seqno - 1)
  {
    var (c', rest) := Merge(c, next, false);
    [c'] + rest
  }

  /** The part of s inside the window ending at edge; a FIN that falls outside is dropped. */
  function FitWindow(s: Segment, edge: int): Segment
    requires s.seqno <= edge
  {
    if s.seqno + s.TcpLen() > edge then s.TrimTo(edge).(fin := false) else s
  }

  /** The walk over the queue: prev has been passed, q is what follows it.  Yields the
      queue from prev on. */
  function EnqueueAfter(prev: Segment, q: seq<Segment>, s: Segment, edge: int): seq<Segment>
    requires q != [] && Ordered(q, prev.seqno) && prev.seqno < s.seqno <= edge
    decreases |q|
  {
    if s.seqno <= q[0].seqno then
      if s.seqno < q[0].seqno then [prev.TrimTo(s.seqno)] + OosInsert(s, q)
      else if |s.data| > |q[0].data| then [prev] + OosInsert(s, q)
      else [prev] + q
    else if |q| == 1 then
      if q[0].fin then [prev] + q
      else [prev, q[0].TrimTo(s.seqno), FitWindow(s, edge)]
    else
      Weaken(q[1..], q[0].Last(), q[0].seqno);
      [prev] + EnqueueAfter(q[0], q[1..], s, edge)
  }

  function Enqueue(q: seq<Segment>, s: Segment, edge: int): seq<Segment>
    requires s.seqno <= edge && (q != [] ==> Ordered(q, q[0].seqno - 1))
  {
    if q == [] then [s]
    else if s.seqno < q[0].seqno || (s.seqno == q[0].seqno && |s.data| > |q[0].data|) then
      OosInsert(s, q)
    else if s.seqno == q[0].seqno then q
    else if |q| == 1 then
      if q[0].fin then q else [q[0].TrimTo(s.seqno), FitWindow(s, edge)]
    else
      Weaken(q[1..], q[0].Last(), q[0].seqno);
      EnqueueAfter(q[0], q[1..], s, edge)
  }

  // ---------------------------------------------------------------- one segment

  /** Removes what lies before rcvNxt from a segment that straddles it. */
  function LeftTrim(s: Segment, rcvNxt: int): (r: Segment)
    ensures r.seqno + r.TcpLen() == s.seqno + s.TcpLen() && r.fin == s.fin
  {
    if s.seqno + 1 <= rcvNxt <= s.seqno + s.TcpLen() - 1 then
      Segment(rcvNxt, s.data[rcvNxt - s.seqno..], s.fin)
    else s
  }

  /** The pcb after the first queued segment has been taken off and delivered. */
  function PopFirst(p: Pcb): Pcb
    requires p.ooseq != []
  {
    Accept(p, p.ooseq[0], p.ooseq[1..])
  }

  /** Moves the in-sequence front of the queue to the application. */
  function Drain(p: Pcb): (r: Outcome)
    decreases |p.ooseq|
  {
    if p.ooseq != [] && p.ooseq[0].seqno == p.rcvNxt then
      var o := Drain(PopFirst(p));
      Outcome(o.pcb, p.ooseq[0].data + o.data, p.ooseq[0].fin || o.gotFin)
    else
      Outcome(p, [], false)
  }

  /** The next expected segment, cut to the window and to what the queue already holds. */
  function Fitted(p: Pcb, s: Segment): (Segment, seq<Segment>)
    requires Ordered(p.ooseq, p.rcvNxt) && s.seqno == p.rcvNxt && 0 < p.rcvWnd
  {
    Weaken(p.ooseq, p.rcvNxt, s.seqno - 1);
    Merge(FitWindow(s, p.rcvNxt + p.rcvWnd), p.ooseq, true)
  }

  function Accept(p: Pcb, c: Segment, rest: seq<Segment>): Pcb {
    Advance(p, c.TcpLen()).(ooseq := rest, closed := p.closed || c.fin)
  }

  function InSequence(p: Pcb, s: Segment): Outcome
    requires Ordered(p.ooseq, p.rcvNxt) && s.seqno == p.rcvNxt && 0 < p.rcvWnd
  {
    var (c, rest) := Fitted(p, s);
    var o := Drain(Accept(p, c, rest));
    Outcome(o.pcb, c.data + o.data, c.fin || o.gotFin)
  }

  /** segOk and ackOk say whether the segment copy and the ACK header could be allocated. */
  function OutOfSequence(p: Pcb, s: Segment, segOk: bool, ackOk: bool): Pcb
    requires Ordered(p.ooseq, p.rcvNxt) && s.seqno < p.rcvNxt + p.rcvWnd
  {
    var p' := if ackOk then Announce(p) else p;
    if segOk then p'.(ooseq := Enqueue(p.ooseq, s, p.rcvNxt + p.rcvWnd)) else p'
  }

  function Receive(p: Pcb, seg: Segment, segOk: bool, ackOk: bool): Outcome
    requires Ordered(p.ooseq, p.rcvNxt)
  {
    if seg.TcpLen() == 0 || p.closed then Outcome(p, [], false)
    else
      var s := LeftTrim(seg, p.rcvNxt);
      if p.rcvNxt <= s.seqno <= p.rcvNxt + p.rcvWnd - 1 then
        if s.seqno == p.rcvNxt then InSequence(p, s)
        else Outcome(OutOfSequence(p, s, segOk, ackOk), [], false)
      else
        Outcome(if ackOk then Announce(p) else p, [], false)
  }

  /** tcp_input gives back the position of a FIN, which the application never reads. */
  function Input(p: Pcb, seg: Segment, segOk: bool, ackOk: bool): Outcome
    requires Ordered(p.ooseq, p.rcvNxt)
  {
    var o := Receive(p, seg, segOk, ackOk);
    if o.gotFin && o.pcb.rcvWnd != TCP_WND then
      o.(pcb := o.pcb.(rcvWnd := o.pcb.rcvWnd + 1))
    else o
  }
}
