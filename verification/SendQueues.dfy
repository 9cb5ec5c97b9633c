/** The send half of an established TCP connection as a function of values: segmentation,
    the unsent and unacked queues, acknowledgment and retransmission. */
module SendQueues {
  import opened SequenceNumbers
  import opened Segments
  import opened Wrappers

  const TCP_SND_BUF: int := 0x2_0000
  const TCP_SND_QUEUELEN: nat := 64

  /** A queued segment with the number of pbufs that hold it. */
  datatype TxSeg = TxSeg(s: Segment, pbufs: nat) {
    /** One past the sequence space the segment uses. */
    function Next(): int {
      s.seqno + s.TcpLen()
    }
  }

  /** lbb is snd_lbb, the position of the next byte to be written; nxt is snd_nxt.  finQueued
      stands for the states in which tcp_write refuses data because a FIN is queued. */
  datatype Snd = Snd(unacked: seq<TxSeg>, unsent: seq<TxSeg>, lbb: int, nxt: int, lastack: int,
                     buf: int, queuelen: int, mss: nat, wndMax: nat, finQueued: bool)

  function Fresh(iss: int, mss: nat, wndMax: nat): Snd {
    Snd([], [], iss, iss, iss, TCP_SND_BUF, 0, mss, wndMax, false)
  }

  // ---------------------------------------------------------------- tcp_write

  /** Segments are no larger than half the largest window ever offered. */
  function MssLocal(p: Snd): nat {
    if p.mss < p.wndMax / 2 then p.mss else p.wndMax / 2
  }

  /** Room at the end of the last unsent segment, an unsigned 16-bit difference. */
  function SpaceAfter(mssLocal: nat, len: nat): (r: nat)
    ensures len <= mssLocal < 0x1_0000 ==> r == mssLocal - len
  {
    (mssLocal - len) % 0x1_0000
  }

  function Space(p: Snd): nat
    requires p.unsent != []
  {
    SpaceAfter(MssLocal(p), |p.unsent[|p.unsent|-1].s.data|)
  }

  /** How many of n bytes are chained onto the last unsent segment. */
  function Extension(p: Snd, n: nat): (r: nat)
    ensures r <= n && (r > 0 ==> p.unsent != [])
  {
    if p.unsent == [] || p.unsent[|p.unsent|-1].s.data == [] then 0
    else if Space(p) < n then Space(p) else n
  }

  /** New segments for the bytes that did not fit: two pbufs each, refused when the queue
      would grow past its limit or an allocation fails (budget many succeed). */
  function Split(bytes: seq<Byte>, pos: int, maxLen: nat, queuelen: int, budget: nat): Option<seq<TxSeg>>
    decreases TCP_SND_QUEUELEN + 2 - queuelen
  {
    if bytes == [] then Some([])
    else if budget == 0 || queuelen + 2 > TCP_SND_QUEUELEN then None
    else
      var n := if |bytes| > maxLen then maxLen else |bytes|;
      var first := TxSeg(Segment(pos, bytes[..n], false), 2);
      match Split(bytes[n..], pos + n, maxLen, queuelen + 2, budget - 1)
      case None => None
      case Some(rest) => Some([first] + rest)
  }

  function ExtendLast(q: seq<TxSeg>, bytes: seq<Byte>): seq<TxSeg>
    requires q != []
  {
    var l := q[|q|-1];
    q[..|q|-1] + [TxSeg(l.s.(data := l.s.data + bytes), l.pbufs + 1)]
  }

  /** One pbuf is chained onto the last segment when it grows. */
  function Used(ext: nat): nat {
    if ext > 0 then 1 else 0
  }

  /** The unsent queue after ext bytes of arg went to its last segment. */
  function Kept(p: Snd, arg: seq<Byte>, ext: nat): seq<TxSeg>
    requires ext <= |arg| && (ext > 0 ==> p.unsent != [])
  {
    if ext > 0 then ExtendLast(p.unsent, arg[..ext]) else p.unsent
  }

  /** The new segments for the remaining bytes. */
  function Added(p: Snd, arg: seq<Byte>, ext: nat, budget: nat): Option<seq<TxSeg>>
    requires ext <= |arg|
  {
    if budget < Used(ext) then None
    else Split(arg[ext..], p.lbb + ext, MssLocal(p), p.queuelen + Used(ext), budget - Used(ext))
  }

  function Commit(p: Snd, arg: seq<Byte>, ext: nat, added: seq<TxSeg>): Snd
    requires ext <= |arg| && (ext > 0 ==> p.unsent != [])
  {
    p.(unsent := Kept(p, arg, ext) + added, lbb := p.lbb + |arg|, buf := p.buf - |arg|,
       queuelen := p.queuelen + Used(ext) + 2 * |added|)
  }

  /** tcp_write without copying.  None: an error was returned. */
  function Write(p: Snd, arg: seq<Byte>, budget: nat): Option<Snd> {
    if p.finQueued then None
    else if arg == [] then Some(p)
    else if |arg| > p.buf || p.queuelen >= TCP_SND_QUEUELEN then None
    else
      var ext := Extension(p, |arg|);
      match Added(p, arg, ext, budget)
      case None => None
      case Some(added) => Some(Commit(p, arg, ext, added))
  }

  // ---------------------------------------------------------------- tcp_output

  /** In front of the first segment that does not start earlier. */
  function InsertBefore(q: seq<TxSeg>, x: TxSeg): seq<TxSeg> {
    if q == [] || !(q[0].s.seqno < x.s.seqno) then [x] + q
    else [q[0]] + InsertBefore(q[1..], x)
  }

  function PutUnacked(q: seq<TxSeg>, x: TxSeg): seq<TxSeg> {
    if q != [] && x.s.seqno < q[|q|-1].s.seqno then InsertBefore(q, x) else q + [x]
  }

  /** Nagle's test; pushNow stands for TF_NODELAY, TF_INFR, TF_NAGLEMEMERR and TF_FIN. */
  predicate MayOutput(p: Snd, wnd: nat, pushNow: bool) {
    && p.unsent != []
    && U32(p.unsent[0].s.End() - p.lastack) <= wnd
    && (|| p.unacked == [] || pushNow || |p.unsent| > 1 || |p.unsent[0].s.data| >= p.mss
        || p.buf == 0 || p.queuelen >= TCP_SND_QUEUELEN)
  }

  function OutputOne(p: Snd): Snd
    requires p.unsent != []
  {
    var x := p.unsent[0];
    p.(unsent := p.unsent[1..],
       nxt := if p.nxt < x.Next() then x.Next() else p.nxt,
       unacked := if x.s.TcpLen() > 0 then PutUnacked(p.unacked, x) else p.unacked)
  }

  /** Sends while window and Nagle allow; yields the segments put on the wire. */
  function Output(p: Snd, wnd: nat, pushNow: bool): (r: (Snd, seq<Segment>))
    decreases |p.unsent|
  {
    if MayOutput(p, wnd, pushNow) then
      var (p', sent) := Output(OutputOne(p), wnd, pushNow);
      (p', [p.unsent[0].s] + sent)
    else (p, [])
  }

  // ---------------------------------------------------------------- acknowledgment

  function Pbufs(q: seq<TxSeg>): nat {
    if q == [] then 0 else q[0].pbufs + Pbufs(q[1..])
  }

  function DropAcked(q: seq<TxSeg>, ackno: int): (r: seq<TxSeg>)
    ensures |r| <= |q| && r == q[|q| - |r|..]
  {
    if q != [] && q[0].Next() <= ackno then DropAcked(q[1..], ackno) else q
  }

  /** ackno acknowledges new data. */
  function TakeAck(p: Snd, ackno: int): Snd {
    var u := DropAcked(p.unacked, ackno);
    p.(buf := p.buf + (ackno - p.lastack), lastack := ackno, unacked := u,
       queuelen := p.queuelen - (Pbufs(p.unacked) - Pbufs(u)))
  }

  /** An ACK against the unacked queue; fast says that this is the third duplicate. */
  function AckUnacked(p: Snd, ackno: int, fast: bool): Snd {
    if ackno <= p.lastack then if fast then Rexmit(p) else p
    else if ackno <= p.nxt then TakeAck(p, ackno)
    else p
  }

  /** Segments requeued for retransmission may be acknowledged on the unsent queue. */
  function AckUnsent(p: Snd, ackno: int): Snd {
    if ackno <= p.nxt then
      var s := DropAcked(p.unsent, ackno);
      p.(unsent := s, queuelen := p.queuelen - (Pbufs(p.unsent) - Pbufs(s)))
    else p
  }

  function Ack(p: Snd, ackno: int, fast: bool): Snd {
    AckUnsent(AckUnacked(p, ackno, fast), ackno)
  }

  // ---------------------------------------------------------------- retransmission

  /** tcp_rexmit: the first unacked segment goes back to the unsent queue. */
  function Rexmit(p: Snd): Snd {
    if p.unacked == [] then p
    else p.(unacked := p.unacked[1..], unsent := InsertBefore(p.unsent, p.unacked[0]))
  }

  /** tcp_rexmit_rto, before it calls tcp_output. */
  function RexmitRto(p: Snd): Snd {
    p.(unsent := p.unacked + p.unsent, unacked := [])
  }

  // ---------------------------------------------------------------- closing

  function EnqueueFin(p: Snd, ok: bool): Option<Snd> {
    if p.queuelen >= TCP_SND_QUEUELEN || p.buf == 0 || !ok then None
    else Some(p.(unsent := p.unsent + [TxSeg(Segment(p.lbb, [], true), 1)], lbb := p.lbb + 1,
                 buf := p.buf - 1, queuelen := p.queuelen + 1, finQueued := true))
  }

  /** tcp_send_fin: the FIN rides on the last unsent segment if there is one without FIN. */
  function SendFin(p: Snd, ok: bool): Option<Snd> {
    if p.unsent != [] && !p.unsent[|p.unsent|-1].s.fin then
      var l := p.unsent[|p.unsent|-1];
      Some(p.(unsent := p.unsent[..|p.unsent|-1] + [l.(s := l.s.(fin := true))], finQueued := true))
    else EnqueueFin(p, ok)
  }
}
