/** One direction of a connection: the send half, a network that may lose, duplicate and
    reorder segments, and the receive half. */
module EndToEnd {
  import opened Segments
  import S = SendQueues
  import R = Reassembly
  import P = ReassemblyProofs
  import Q = SendQueueProofs
  import SP = SendProgress
  import opened Wrappers

  type TxSeg = S.TxSeg

  /** written is everything tcp_write accepted; wire is every segment ever sent. */
  datatype System = System(snd: S.Snd, rcv: P.History, wire: seq<Segment>, written: seq<Byte>)

  datatype Action =
    | AppWrite(arg: seq<Byte>, budget: nat)
    | Transmit(wnd: nat, pushNow: bool)
    | AckArrives(ackno: int, fast: bool)
    | Timeout
    | Close(ok: bool)
    | Deliver(i: nat, segOk: bool, ackOk: bool)
    | Consume(n: nat)

  /** What the environment can do: it delivers segments that were sent and acknowledgment
      numbers the receiver has reached. */
  predicate Possible(y: System, a: Action) {
    match a
    case Deliver(i, segOk, ackOk) => i < |y.wire|
    case AckArrives(ackno, fast) => ackno <= y.rcv.pcb.rcvNxt
    case _ => true
  }

  function Step(y: System, a: Action): (y': System)
    requires P.Sound(y.rcv) && Possible(y, a)
    ensures P.Sound(y'.rcv)
  {
    match a
    case AppWrite(arg, budget) =>
      (match S.Write(y.snd, arg, budget)
       case None => y
       case Some(p) => y.(snd := p, written := y.written + arg))
    case Transmit(wnd, pushNow) =>
      var (p, sent) := S.Output(y.snd, wnd, pushNow);
      y.(snd := p, wire := y.wire + sent)
    case AckArrives(ackno, fast) => y.(snd := S.Ack(y.snd, ackno, fast))
    case Timeout => y.(snd := S.RexmitRto(y.snd))
    case Close(ok) =>
      if y.snd.finQueued then y
      else
        (match S.SendFin(y.snd, ok)
         case None => y
         case Some(p) => y.(snd := p))
    case Deliver(i, segOk, ackOk) => y.(rcv := P.Step(y.rcv, P.Arrive(y.wire[i], segOk, ackOk)))
    case Consume(n) => y.(rcv := P.Step(y.rcv, P.Consume(n)))
  }

  function Start(base: int, mss: nat, wndMax: nat): System {
    System(S.Fresh(base, mss, wndMax), P.History(R.Fresh(base, mss), [], 0), [], [])
  }

  /** The last unsent segment, if any, is the newest one. */
  predicate TailIsNewest(y: System, base: int) {
    y.snd.unsent == [] || y.snd.unsent[|y.snd.unsent|-1].s.End() == base + |y.written|
  }

  /** tcp_write and tcp_send_fin touch the last unsent segment; that is harmless when it is
      the newest one, when it is left alone, or when the call is refused. */
  predicate Careful(y: System, base: int, a: Action) {
    match a
    case AppWrite(arg, budget) =>
      TailIsNewest(y, base) || S.Extension(y.snd, |arg|) == 0 || S.Write(y.snd, arg, budget).None?
    case Close(ok) =>
      TailIsNewest(y, base) || y.snd.finQueued
    case _ => true
  }

  // ---------------------------------------------------------------- the invariant

  predicate Queued(p: S.Snd, x: TxSeg) {
    x in p.unacked || x in p.unsent
  }

  /** Position pos is a payload byte of a queued segment. */
  ghost predicate Held(p: S.Snd, pos: int) {
    exists x :: Queued(p, x) && x.s.seqno <= pos < x.s.End()
  }

  ghost predicate Has(q: seq<TxSeg>, pos: int) {
    exists x :: x in q && x.s.seqno <= pos < x.s.End()
  }

  /** One past the sequence space used so far. */
  function Limit(y: System, base: int): int {
    base + |y.written| + if y.snd.finQueued then 1 else 0
  }

  /** whole is the stream as it will be at the end of the run: every segment anywhere is a
      piece of it that lies in the part written so far. */
  ghost predicate PiecesOnly(y: System, base: int, whole: seq<Byte>) {
    && y.written <= whole
    && (y.snd.finQueued ==> y.written == whole)
    && (!y.snd.finQueued ==> y.snd.lbb == base + |y.written|)
    && (forall x | Queued(y.snd, x) :: PieceOf(x.s, whole, base, Limit(y, base)) && 0 < x.s.TcpLen())
    && (forall s | s in y.wire :: PieceOf(s, whole, base, Limit(y, base)))
  }

  /** Whatever the sender may still have to repeat is on one of its queues. */
  ghost predicate HoldsUnacked(y: System, base: int) {
    && y.snd.lastack <= y.rcv.pcb.rcvNxt
    && (forall pos | y.snd.lastack <= pos < base + |y.written| :: Held(y.snd, pos))
  }

  ghost predicate FinHeld(p: S.Snd) {
    exists x :: Queued(p, x) && x.s.fin
  }

  /** So is the end of the stream, until the receiver has it. */
  ghost predicate HoldsFin(y: System) {
    y.snd.finQueued && !y.rcv.pcb.closed ==> FinHeld(y.snd)
  }

  /** The receiver has handed over exactly the stream up to rcvNxt. */
  ghost predicate Delivered(h: P.History, base: int, limit: int, whole: seq<Byte>) {
    && P.Receiving(h.pcb, whole, base, limit)
    && h.delivered == P.Upto(whole, base, h.pcb.rcvNxt)
    && h.eofs == if h.pcb.closed then 1 else 0
  }

  ghost predicate Inv(y: System, base: int, whole: seq<Byte>) {
    && PiecesOnly(y, base, whole)
    && HoldsUnacked(y, base)
    && HoldsFin(y)
    && Delivered(y.rcv, base, Limit(y, base), whole)
  }

  // ---------------------------------------------------------------- moving segments about

  lemma {:induction false} InsertMembers(q: seq<TxSeg>, x: TxSeg, z: TxSeg)
    ensures z in S.InsertBefore(q, x) <==> z in q || z == x
    decreases |q|
  {
    if q != [] && q[0].s.seqno < x.s.seqno {
      InsertMembers(q[1..], x, z);
    }
  }

  lemma {:induction false} OutputOneSame(p: S.Snd, z: TxSeg)
    requires p.unsent != [] && 0 < p.unsent[0].s.TcpLen()
    ensures Queued(S.OutputOne(p), z) <==> Queued(p, z)
  {
    InsertMembers(p.unacked, p.unsent[0], z);
  }

  /** Only segments move: fields the invariant depends on, and the set of queued segments. */
  ghost predicate SameSegments(p: S.Snd, p': S.Snd) {
    && p'.lbb == p.lbb && p'.lastack == p.lastack && p'.finQueued == p.finQueued
    && (forall z :: Queued(p', z) <==> Queued(p, z))
  }

  ghost predicate NoEmpty(p: S.Snd) {
    forall x | Queued(p, x) :: 0 < x.s.TcpLen()
  }

  lemma {:induction false} OutputSame(p: S.Snd, wnd: nat, pushNow: bool)
    requires NoEmpty(p)
    ensures SameSegments(p, S.Output(p, wnd, pushNow).0)
    ensures forall s | s in S.Output(p, wnd, pushNow).1 :: exists x :: Queued(p, x) && x.s == s
    decreases |p.unsent|
  {
    if S.MayOutput(p, wnd, pushNow) {
      assert Queued(p, p.unsent[0]);
      forall z ensures Queued(S.OutputOne(p), z) <==> Queued(p, z) {
        OutputOneSame(p, z);
      }
      OutputSame(S.OutputOne(p), wnd, pushNow);
    }
  }

  lemma {:induction false} RexmitSame(p: S.Snd)
    ensures SameSegments(p, S.Rexmit(p))
  {
    if p.unacked != [] {
      forall z ensures Queued(S.Rexmit(p), z) <==> Queued(p, z) {
        InsertMembers(p.unsent, p.unacked[0], z);
      }
    }
  }

  lemma {:induction false} RtoSame(p: S.Snd)
    ensures SameSegments(p, S.RexmitRto(p))
  {
  }

  lemma {:induction false} SameKeeps(y: System, p: S.Snd, base: int, whole: seq<Byte>)
    requires Inv(y, base, whole) && SameSegments(y.snd, p)
    ensures Inv(y.(snd := p), base, whole)
  {
    forall pos | p.lastack <= pos < base + |y.written| ensures Held(p, pos) {
      assert Held(y.snd, pos);
      var x :| Queued(y.snd, x) && x.s.seqno <= pos < x.s.End();
      assert Queued(p, x);
    }
    if FinHeld(y.snd) {
      var x :| Queued(y.snd, x) && x.s.fin;
      assert Queued(p, x);
    }
  }

  lemma {:induction false} TransmitKeeps(y: System, base: int, whole: seq<Byte>, wnd: nat, pushNow: bool)
    requires Inv(y, base, whole)
    ensures var (p, sent) := S.Output(y.snd, wnd, pushNow); Inv(y.(snd := p, wire := y.wire + sent), base, whole)
  {
    OutputSame(y.snd, wnd, pushNow);
    SameKeeps(y, S.Output(y.snd, wnd, pushNow).0, base, whole);
  }

  // ---------------------------------------------------------------- acknowledgments

  lemma {:induction false} AckQueued(p: S.Snd, ackno: int, fast: bool, z: TxSeg)
    ensures Queued(S.Ack(p, ackno, fast), z) ==> Queued(p, z)
    ensures Queued(p, z) && S.Ack(p, ackno, fast).lastack < z.Next() ==> Queued(S.Ack(p, ackno, fast), z)
  {
    hide S.Rexmit, S.DropAcked;
    var p1 := S.AckUnacked(p, ackno, fast);
    if ackno <= p.lastack {
      RexmitSame(p);
    } else {
      SP.DropStays(p.unacked, ackno, z);
    }
    SP.DropStays(p1.unsent, ackno, z);
  }

  lemma {:induction false} AckFields(p: S.Snd, ackno: int, fast: bool)
    ensures var p' := S.Ack(p, ackno, fast);
      && p'.lbb == p.lbb && p'.finQueued == p.finQueued
      && p.lastack <= p'.lastack && (p'.lastack == p.lastack || p'.lastack == ackno)
  {
    hide S.DropAcked, S.Pbufs, S.InsertBefore;
  }

  /** A FIN leaves the queues only when it is acknowledged, that is after the receiver took it. */
  lemma {:induction false} AckKeepsFin(y: System, base: int, whole: seq<Byte>, ackno: int, fast: bool)
    requires Inv(y, base, whole) && ackno <= y.rcv.pcb.rcvNxt
    ensures HoldsFin(y.(snd := S.Ack(y.snd, ackno, fast)))
  {
    hide S.Ack, Held;
    var p := S.Ack(y.snd, ackno, fast);
    AckFields(y.snd, ackno, fast);
    if y.snd.finQueued && !y.rcv.pcb.closed {
      var x :| Queued(y.snd, x) && x.s.fin;
      assert x.Next() == base + |whole| + 1;
      AckQueued(y.snd, ackno, fast, x);
      assert Queued(p, x);
    }
  }

  lemma {:induction false} AckKeeps(y: System, base: int, whole: seq<Byte>, ackno: int, fast: bool)
    requires Inv(y, base, whole) && ackno <= y.rcv.pcb.rcvNxt
    ensures Inv(y.(snd := S.Ack(y.snd, ackno, fast)), base, whole)
  {
    hide S.Ack, PieceOf, Queued, Delivered, HoldsFin;
    var p := S.Ack(y.snd, ackno, fast);
    AckFields(y.snd, ackno, fast);
    AckKeepsFin(y, base, whole, ackno, fast);
    forall z ensures Queued(p, z) ==> Queued(y.snd, z) {
      AckQueued(y.snd, ackno, fast, z);
    }
    forall pos | p.lastack <= pos < base + |y.written| ensures Held(p, pos) {
      assert Held(y.snd, pos);
      var x :| Queued(y.snd, x) && x.s.seqno <= pos < x.s.End();
      AckQueued(y.snd, ackno, fast, x);
      assert Queued(p, x);
    }
  }

  // ---------------------------------------------------------------- writing and closing

  /** All of q consists of pieces below limit. */
  ghost predicate AllBelow(q: seq<TxSeg>, whole: seq<Byte>, base: int, limit: int) {
    forall x | x in q :: PieceOf(x.s, whole, base, limit) && 0 < x.s.TcpLen()
  }

  lemma {:induction false} HasAppend(a: seq<TxSeg>, b: seq<TxSeg>, pos: int)
    requires Has(a, pos) || Has(b, pos)
    ensures Has(a + b, pos)
  {
  }

  /** New segments are pieces of the stream they extend, and hold all of the new bytes. */
  lemma {:induction false} SplitPieces(bytes: seq<Byte>, pos: int, m: nat, queuelen: int, budget: nat,
      whole: seq<Byte>, base: int)
    requires S.Split(bytes, pos, m, queuelen, budget).Some?
    requires base <= pos && pos + |bytes| <= base + |whole| && bytes == whole[pos - base .. pos - base + |bytes|]
    ensures AllBelow(S.Split(bytes, pos, m, queuelen, budget).value, whole, base, pos + |bytes|)
    ensures forall k | pos <= k < pos + |bytes| :: Has(S.Split(bytes, pos, m, queuelen, budget).value, k)
    decreases S.TCP_SND_QUEUELEN + 2 - queuelen
  {
    hide S.Split;
    if bytes != [] {
      var n := if |bytes| > m then m else |bytes|;
      SplitHead(bytes, pos, m, queuelen, budget);
      assert bytes[n..] == whole[pos + n - base .. pos - base + |bytes|];
      SplitPieces(bytes[n..], pos + n, m, queuelen + 2, budget - 1, whole, base);
      assert bytes[..n] == whole[pos - base .. pos + n - base];
      ConsPieces(S.TxSeg(Segment(pos, bytes[..n], false), 2),
                 S.Split(bytes[n..], pos + n, m, queuelen + 2, budget - 1).value, whole, base, pos, pos + |bytes|);
    } else {
      Q.SplitNothing(pos, m, queuelen, budget);
    }
  }

  lemma {:induction false} SplitHead(bytes: seq<Byte>, pos: int, m: nat, queuelen: int, budget: nat)
    requires bytes != [] && S.Split(bytes, pos, m, queuelen, budget).Some?
    ensures var n := if |bytes| > m then m else |bytes|;
      && 0 < n && 0 < budget && queuelen + 2 <= S.TCP_SND_QUEUELEN
      && var rest := S.Split(bytes[n..], pos + n, m, queuelen + 2, budget - 1);
        rest.Some? && S.Split(bytes, pos, m, queuelen, budget).value
          == [S.TxSeg(Segment(pos, bytes[..n], false), 2)] + rest.value
  {
    if m == 0 {
      Q.ZeroMssFails(bytes, pos, queuelen, budget);
    }
  }

  lemma {:induction false} ConsPieces(first: TxSeg, rest: seq<TxSeg>, whole: seq<Byte>, base: int, pos: int, end: int)
    requires first.s.seqno == pos && first.s.data != [] && PieceOf(first.s, whole, base, end)
    requires AllBelow(rest, whole, base, end) && forall k | first.s.End() <= k < end :: Has(rest, k)
    ensures AllBelow([first] + rest, whole, base, end)
    ensures forall k | pos <= k < end :: Has([first] + rest, k)
  {
    forall k | pos <= k < end ensures Has([first] + rest, k) {
      if k < first.s.End() {
        assert first in [first];
        assert Has([first], k);
      }
      HasAppend([first], rest, k);
    }
  }

  /** Growing the newest segment by the next ext bytes of the stream. */
  lemma {:induction false} ExtendPieces(q: seq<TxSeg>, bytes: seq<Byte>, whole: seq<Byte>, base: int, end: int)
    requires q != [] && q[|q|-1].s.End() == end && base <= end && end + |bytes| <= base + |whole| && 0 < |bytes|
    requires bytes == whole[end - base .. end - base + |bytes|]
    requires AllBelow(q, whole, base, end)
    ensures var k := S.ExtendLast(q, bytes);
      && AllBelow(k, whole, base, end + |bytes|)
      && (forall pos | Has(q, pos) || end <= pos < end + |bytes| :: Has(k, pos))
  {
  }

  lemma {:induction false} KeptPieces(y: System, base: int, whole: seq<Byte>, arg: seq<Byte>, ext: nat)
    requires PiecesOnly(y, base, whole) && !y.snd.finQueued && y.written + arg <= whole
    requires ext <= |arg| && (ext > 0 ==> y.snd.unsent != [] && TailIsNewest(y, base))
    ensures var k := S.Kept(y.snd, arg, ext); var end := base + |y.written|;
      && AllBelow(k, whole, base, end + ext)
      && (forall pos | Has(y.snd.unsent, pos) || end <= pos < end + ext :: Has(k, pos))
  {
    var q := y.snd.unsent;
    assert forall x | x in q :: Queued(y.snd, x);
    if ext > 0 {
      assert arg[..ext] == whole[|y.written| .. |y.written| + ext];
      ExtendPieces(q, arg[..ext], whole, base, base + |y.written|);
    }
  }

  lemma {:induction false} AddedPieces(y: System, base: int, whole: seq<Byte>, arg: seq<Byte>, ext: nat, budget: nat)
    requires PiecesOnly(y, base, whole) && !y.snd.finQueued && y.written + arg <= whole
    requires ext <= |arg| && S.Added(y.snd, arg, ext, budget).Some?
    ensures var t := S.Added(y.snd, arg, ext, budget).value; var end := base + |y.written|;
      && AllBelow(t, whole, base, end + |arg|)
      && (forall pos | end + ext <= pos < end + |arg| :: Has(t, pos))
  {
    assert arg[ext..] == whole[|y.written| + ext .. |y.written| + |arg|];
    SplitPieces(arg[ext..], base + |y.written| + ext, S.MssLocal(y.snd), y.snd.queuelen + S.Used(ext),
                budget - S.Used(ext), whole, base);
  }

  /** The unsent queue after a write, wherever its last segment was left alone or newest. */
  lemma {:induction false} CommitPieces(y: System, base: int, whole: seq<Byte>, arg: seq<Byte>, ext: nat, budget: nat)
    requires PiecesOnly(y, base, whole) && !y.snd.finQueued && y.written + arg <= whole
    requires ext <= |arg| && (ext > 0 ==> y.snd.unsent != [] && TailIsNewest(y, base))
    requires S.Added(y.snd, arg, ext, budget).Some?
    ensures var u := S.Kept(y.snd, arg, ext) + S.Added(y.snd, arg, ext, budget).value; var end := base + |y.written|;
      && AllBelow(u, whole, base, end + |arg|)
      && (forall pos | Has(y.snd.unsent, pos) || end <= pos < end + |arg| :: Has(u, pos))
  {
    hide S.Kept, S.Added, PiecesOnly;
    KeptPieces(y, base, whole, arg, ext);
    AddedPieces(y, base, whole, arg, ext, budget);
    var end := base + |y.written|;
    var k, t := S.Kept(y.snd, arg, ext), S.Added(y.snd, arg, ext, budget).value;
    forall pos | Has(y.snd.unsent, pos) || end <= pos < end + |arg| ensures Has(k + t, pos) {
      if !Has(k, pos) { assert Has(t, pos); }
      HasAppend(k, t, pos);
    }
  }

  lemma {:induction false} HeldIsHas(p: S.Snd, pos: int)
    ensures Held(p, pos) <==> Has(p.unacked, pos) || Has(p.unsent, pos)
  {
  }

  lemma {:induction false} WriteKeeps(y: System, base: int, whole: seq<Byte>, arg: seq<Byte>, budget: nat)
    requires Inv(y, base, whole) && Careful(y, base, AppWrite(arg, budget))
    requires S.Write(y.snd, arg, budget).Some? && y.written + arg <= whole
    ensures Inv(y.(snd := S.Write(y.snd, arg, budget).value, written := y.written + arg), base, whole)
  {
    var p := S.Write(y.snd, arg, budget).value;
    var y' := y.(snd := p, written := y.written + arg);
    if arg == [] {
      assert y.written + arg == y.written;
    } else {
      CommitPieces(y, base, whole, arg, S.Extension(y.snd, |arg|), budget);
      forall pos | p.lastack <= pos < base + |y'.written| ensures Held(p, pos) {
        HeldIsHas(p, pos);
        if pos < base + |y.written| {
          assert Held(y.snd, pos);
          HeldIsHas(y.snd, pos);
        }
      }
      P.LargerLimit(y.rcv.pcb, whole, base, Limit(y, base), Limit(y', base));
    }
  }

  /** The segments queued after closing: the old ones, the last perhaps with a FIN, or one more. */
  lemma {:induction false} CloseQueued(y: System, base: int, whole: seq<Byte>, ok: bool, x: TxSeg)
    requires PiecesOnly(y, base, whole) && TailIsNewest(y, base) && !y.snd.finQueued
    requires S.SendFin(y.snd, ok).Some? && y.written == whole && Queued(S.SendFin(y.snd, ok).value, x)
    ensures PieceOf(x.s, whole, base, Limit(y, base) + 1) && 0 < x.s.TcpLen()
  {
  }

  lemma {:induction false} CloseHolds(p: S.Snd, ok: bool, pos: int)
    requires S.SendFin(p, ok).Some? && Held(p, pos)
    ensures Held(S.SendFin(p, ok).value, pos)
  {
  }

  lemma {:induction false} CloseHoldsFin(p: S.Snd, ok: bool)
    requires S.SendFin(p, ok).Some?
    ensures FinHeld(S.SendFin(p, ok).value)
  {
    var p' := S.SendFin(p, ok).value;
    var x := p'.unsent[|p'.unsent| - 1];
    assert Queued(p', x) && x.s.fin;
  }

  lemma {:induction false} CloseKeeps(y: System, base: int, whole: seq<Byte>, ok: bool)
    requires Inv(y, base, whole) && Careful(y, base, Close(ok)) && !y.snd.finQueued
    requires S.SendFin(y.snd, ok).Some? && y.written == whole
    ensures Inv(y.(snd := S.SendFin(y.snd, ok).value), base, whole)
  {
    var p := S.SendFin(y.snd, ok).value;
    forall x | Queued(p, x) ensures PieceOf(x.s, whole, base, Limit(y, base) + 1) && 0 < x.s.TcpLen() {
      CloseQueued(y, base, whole, ok, x);
    }
    forall pos | p.lastack <= pos < base + |y.written| ensures Held(p, pos) {
      assert Held(y.snd, pos);
      CloseHolds(y.snd, ok, pos);
    }
    CloseHoldsFin(y.snd, ok);
    P.LargerLimit(y.rcv.pcb, whole, base, Limit(y, base), Limit(y, base) + 1);
  }

  lemma {:induction false} DeliverKeeps(y: System, base: int, whole: seq<Byte>, i: nat, segOk: bool, ackOk: bool)
    requires Inv(y, base, whole) && i < |y.wire|
    ensures Inv(y.(rcv := P.Step(y.rcv, P.Arrive(y.wire[i], segOk, ackOk))), base, whole)
  {
    P.InputDelivers(y.rcv.pcb, y.wire[i], segOk, ackOk, whole, base, Limit(y, base));
  }

  /** A careful step keeps the invariant. */
  lemma {:induction false} StepKeeps(y: System, base: int, whole: seq<Byte>, a: Action)
    requires Inv(y, base, whole) && Possible(y, a) && Careful(y, base, a)
    requires var y' := Step(y, a); y'.written <= whole && (y'.snd.finQueued ==> y'.written == whole)
    ensures Inv(Step(y, a), base, whole)
  {
    match a
    case AppWrite(arg, budget) =>
      if S.Write(y.snd, arg, budget).Some? { WriteKeeps(y, base, whole, arg, budget); }
    case Transmit(wnd, pushNow) => TransmitKeeps(y, base, whole, wnd, pushNow);
    case AckArrives(ackno, fast) => AckKeeps(y, base, whole, ackno, fast);
    case Timeout => RtoSame(y.snd); SameKeeps(y, S.RexmitRto(y.snd), base, whole);
    case Close(ok) =>
      if !y.snd.finQueued && S.SendFin(y.snd, ok).Some? { CloseKeeps(y, base, whole, ok); }
    case Deliver(i, segOk, ackOk) => DeliverKeeps(y, base, whole, i, segOk, ackOk);
    case Consume(n) =>
  }

  // ---------------------------------------------------------------- careless steps

  /** Every queued segment ends inside the stream written so far and carries no FIN yet. */
  lemma {:induction false} NoFinYet(y: System, base: int, whole: seq<Byte>, x: TxSeg)
    requires PiecesOnly(y, base, whole) && !y.snd.finQueued && Queued(y.snd, x)
    ensures !x.s.fin && x.s.End() <= base + |y.written|
  {
  }

  /** New segments start where they are told to. */
  lemma {:induction false} SplitStarts(bytes: seq<Byte>, pos: int, m: nat, queuelen: int, budget: nat, x: TxSeg)
    requires S.Split(bytes, pos, m, queuelen, budget).Some? && x in S.Split(bytes, pos, m, queuelen, budget).value
    ensures pos <= x.s.seqno
    decreases S.TCP_SND_QUEUELEN + 2 - queuelen
  {
    var n := if |bytes| > m then m else |bytes|;
    var rest := S.Split(bytes[n..], pos + n, m, queuelen + 2, budget - 1).value;
    if x in rest {
      SplitStarts(bytes[n..], pos + n, m, queuelen + 2, budget - 1, x);
    }
  }

  /** The position of the last byte that went to an older segment is in no segment at all, so that
      byte can never be delivered. */
  lemma {:induction false} CarelessWriteLoses(y: System, base: int, whole: seq<Byte>, arg: seq<Byte>, budget: nat)
    requires Inv(y, base, whole) && S.Write(y.snd, arg, budget).Some?
    requires !Careful(y, base, AppWrite(arg, budget))
    ensures var pos := base + |y.written| + S.Extension(y.snd, |arg|) - 1;
      && base + |y.rcv.delivered| <= pos < base + |y.written + arg|
      && !Held(S.Write(y.snd, arg, budget).value, pos)
  {
    var ext := S.Extension(y.snd, |arg|);
    var p := S.Write(y.snd, arg, budget).value;
    var pos := base + |y.written| + ext - 1;
    var added := S.Added(y.snd, arg, ext, budget).value;
    forall x | Queued(p, x) ensures !(x.s.seqno <= pos < x.s.End()) {
      if x in added {
        SplitStarts(arg[ext..], y.snd.lbb + ext, S.MssLocal(y.snd), y.snd.queuelen + S.Used(ext),
                    budget - S.Used(ext), x);
      } else {
        KeptEnds(y, base, whole, arg, ext, x);
      }
    }
  }

  lemma {:induction false} KeptEnds(y: System, base: int, whole: seq<Byte>, arg: seq<Byte>, ext: nat, x: TxSeg)
    requires PiecesOnly(y, base, whole) && !y.snd.finQueued && 0 < ext <= |arg| && y.snd.unsent != []
    requires !TailIsNewest(y, base) && (x in y.snd.unacked || x in S.Kept(y.snd, arg, ext))
    ensures x.s.End() < base + |y.written| + ext
  {
    var q := y.snd.unsent;
    var last := q[|q|-1];
    NoFinYet(y, base, whole, last);
    if Queued(y.snd, x) {
      NoFinYet(y, base, whole, x);
    } else {
      assert x.s.End() == last.s.End() + ext;
    }
  }

  /** A write keeps the invariant exactly when it is careful. */
  lemma {:induction false} WriteKeepsIff(y: System, base: int, whole: seq<Byte>, arg: seq<Byte>, budget: nat)
    requires Inv(y, base, whole) && S.Write(y.snd, arg, budget).Some? && y.written + arg <= whole
    ensures Inv(y.(snd := S.Write(y.snd, arg, budget).value, written := y.written + arg), base, whole)
       <==> Careful(y, base, AppWrite(arg, budget))
  {
    if Careful(y, base, AppWrite(arg, budget)) {
      WriteKeeps(y, base, whole, arg, budget);
    } else {
      CarelessWriteLoses(y, base, whole, arg, budget);
    }
  }

  /** Closing keeps the invariant exactly when it is careful: a FIN on an older segment sits in
      the middle of the stream. */
  lemma {:induction false} CloseKeepsIff(y: System, base: int, whole: seq<Byte>, ok: bool)
    requires Inv(y, base, whole) && !y.snd.finQueued && S.SendFin(y.snd, ok).Some? && y.written == whole
    ensures Inv(y.(snd := S.SendFin(y.snd, ok).value), base, whole) <==> TailIsNewest(y, base)
  {
    if TailIsNewest(y, base) {
      CloseKeeps(y, base, whole, ok);
    } else {
      var q := y.snd.unsent;
      NoFinYet(y, base, whole, q[|q|-1]);
      var p := S.SendFin(y.snd, ok).value;
      var x := p.unsent[|q|-1];
      assert Queued(p, x) && x.s.fin && x.s.End() == q[|q|-1].s.End();
    }
  }

  /** The exact condition for every step: whatever else happens, only a careless write or close
      breaks the connection, and each of them does. */
  lemma {:induction false} StepKeepsIff(y: System, base: int, whole: seq<Byte>, a: Action)
    requires Inv(y, base, whole) && Possible(y, a)
    requires var y' := Step(y, a); y'.written <= whole && (y'.snd.finQueued ==> y'.written == whole)
    ensures Inv(Step(y, a), base, whole) <==> Careful(y, base, a)
  {
    if Careful(y, base, a) {
      StepKeeps(y, base, whole, a);
    } else if a.AppWrite? {
      WriteKeepsIff(y, base, whole, a.arg, a.budget);
    } else {
      CloseKeepsIff(y, base, whole, a.ok);
    }
  }

  // ---------------------------------------------------------------- whole runs

  function Run(y: System, actions: seq<Action>): (y': System)
    requires P.Sound(y.rcv) && AllPossible(y, actions)
    ensures P.Sound(y'.rcv)
    decreases |actions|
  {
    if actions == [] then y else Run(Step(y, actions[0]), actions[1..])
  }

  predicate AllPossible(y: System, actions: seq<Action>)
    requires P.Sound(y.rcv)
    decreases |actions|
  {
    actions == [] || (Possible(y, actions[0]) && AllPossible(Step(y, actions[0]), actions[1..]))
  }

  predicate AllCareful(y: System, base: int, actions: seq<Action>)
    requires P.Sound(y.rcv) && AllPossible(y, actions)
    decreases |actions|
  {
    actions == [] || (Careful(y, base, actions[0]) && AllCareful(Step(y, actions[0]), base, actions[1..]))
  }

  /** What is written only grows, and not at all once the FIN is queued. */
  lemma {:induction false} RunGrows(y: System, actions: seq<Action>)
    requires P.Sound(y.rcv) && AllPossible(y, actions)
    ensures y.written <= Run(y, actions).written
    ensures y.snd.finQueued ==> Run(y, actions).written == y.written
    decreases |actions|
  {
    if actions != [] {
      StepGrows(y, actions[0]);
      RunGrows(Step(y, actions[0]), actions[1..]);
    }
  }

  lemma {:induction false} StepGrows(y: System, a: Action)
    requires P.Sound(y.rcv) && Possible(y, a)
    ensures y.written <= Step(y, a).written
    ensures y.snd.finQueued ==> Step(y, a).written == y.written && Step(y, a).snd.finQueued
  {
    if a.Transmit? {
      OutputKeepsFin(y.snd, a.wnd, a.pushNow);
    }
  }

  lemma {:induction false} OutputKeepsFin(p: S.Snd, wnd: nat, pushNow: bool)
    ensures S.Output(p, wnd, pushNow).0.finQueued == p.finQueued
    decreases |p.unsent|
  {
    if S.MayOutput(p, wnd, pushNow) {
      OutputKeepsFin(S.OutputOne(p), wnd, pushNow);
    }
  }

  lemma {:induction false} RunKeeps(y: System, base: int, whole: seq<Byte>, actions: seq<Action>)
    requires P.Sound(y.rcv) && AllPossible(y, actions) && AllCareful(y, base, actions)
    requires Inv(y, base, whole) && whole == Run(y, actions).written
    ensures Inv(Run(y, actions), base, whole)
    decreases |actions|
  {
    if actions != [] {
      RunGrows(Step(y, actions[0]), actions[1..]);
      StepKeeps(y, base, whole, actions[0]);
      RunKeeps(Step(y, actions[0]), base, whole, actions[1..]);
    }
  }

  /** Everything holds of the stream as written so far. */
  ghost predicate Intact(y: System, base: int) {
    Inv(y, base, y.written)
  }

  /** Before the FIN is queued it makes no difference what will be written later. */
  lemma {:induction false} LaterBytes(y: System, base: int, whole: seq<Byte>)
    requires y.written <= whole && (y.snd.finQueued ==> y.written == whole)
    ensures Intact(y, base) <==> Inv(y, base, whole)
  {
    if !y.snd.finQueued {
      var limit := Limit(y, base);
      forall s: Segment ensures PieceOf(s, y.written, base, limit) <==> PieceOf(s, whole, base, limit) {
        SamePiece(s, y.written, whole, base);
      }
      var h := y.rcv;
      assert base <= h.pcb.rcvNxt <= limit ==>
        P.Upto(y.written, base, h.pcb.rcvNxt) == P.Upto(whole, base, h.pcb.rcvNxt);
    }
  }

  lemma {:induction false} SamePiece(s: Segment, written: seq<Byte>, whole: seq<Byte>, base: int)
    requires written <= whole
    ensures PieceOf(s, written, base, base + |written|) <==> PieceOf(s, whole, base, base + |written|)
  {
    if base <= s.seqno && s.End() <= base + |written| {
      assert written[s.seqno - base..s.End() - base] == whole[s.seqno - base..s.End() - base];
    }
  }

  lemma {:induction false} StepIntactIff(y: System, base: int, a: Action)
    requires P.Sound(y.rcv) && Intact(y, base) && Possible(y, a)
    ensures Intact(Step(y, a), base) <==> Careful(y, base, a)
  {
    var y' := Step(y, a);
    StepGrows(y, a);
    LaterBytes(y, base, y'.written);
    StepKeepsIff(y, base, y'.written, a);
  }

  ghost predicate AlwaysIntact(y: System, base: int, actions: seq<Action>)
    requires P.Sound(y.rcv) && AllPossible(y, actions)
    decreases |actions|
  {
    Intact(y, base) && (actions != [] ==> AlwaysIntact(Step(y, actions[0]), base, actions[1..]))
  }

  /** A connection stays intact through a whole run if and only if every step is careful. */
  lemma {:induction false} RunIntactIff(y: System, base: int, actions: seq<Action>)
    requires P.Sound(y.rcv) && AllPossible(y, actions) && Intact(y, base)
    ensures AlwaysIntact(y, base, actions) <==> AllCareful(y, base, actions)
    decreases |actions|
  {
    hide Intact, Careful, Step;
    if actions != [] {
      StepIntactIff(y, base, actions[0]);
      if Careful(y, base, actions[0]) {
        RunIntactIff(Step(y, actions[0]), base, actions[1..]);
      } else {
        NotIntact(Step(y, actions[0]), base, actions[1..]);
      }
    }
  }

  lemma {:induction false} NotIntact(y: System, base: int, actions: seq<Action>)
    requires P.Sound(y.rcv) && AllPossible(y, actions) && !Intact(y, base)
    ensures !AlwaysIntact(y, base, actions)
  {
  }

  /** Over any run: the receiving application has exactly a prefix of what the sending one
      wrote, the end of the stream is reported once and only after all of it, and whatever is not
      yet delivered, each byte and the end itself, is still queued at the sender. */
  lemma {:induction false} ReliableByteStream(base: int, mss: nat, wndMax: nat, actions: seq<Action>)
    requires AllPossible(Start(base, mss, wndMax), actions)
    requires AllCareful(Start(base, mss, wndMax), base, actions)
    ensures var y := Run(Start(base, mss, wndMax), actions);
      && y.rcv.delivered <= y.written
      && y.rcv.eofs <= 1 && (y.rcv.eofs == 1 ==> y.rcv.delivered == y.written)
      && (forall pos | base + |y.rcv.delivered| <= pos < base + |y.written| :: Held(y.snd, pos))
      && (y.snd.finQueued && y.rcv.eofs == 0 ==> FinHeld(y.snd))
  {
    var y0 := Start(base, mss, wndMax);
    var y := Run(y0, actions);
    RunGrows(y0, actions);
    RunKeeps(y0, base, y.written, actions);
  }

  // ---------------------------------------------------------------- without care

  /** Two short segments on the wire, the first one requeued by a fast retransmit. */
  function Requeued(d: seq<Byte>, e: seq<Byte>): System {
    var x, z := S.TxSeg(Segment(0, d, false), 2), S.TxSeg(Segment(|d|, e, false), 2);
    System(S.Snd([z], [x], |d| + |e|, |d| + |e|, 0, S.TCP_SND_BUF - |d| - |e|, 4, 8, 16, false),
           P.History(R.Fresh(0, 8), [], 0), [x.s, z.s], d + e)
  }

  /** A short write to an empty unsent queue makes one segment. */
  lemma {:induction false} WriteOne(p: S.Snd, arg: seq<Byte>, budget: nat)
    requires p.unsent == [] && !p.finQueued && 0 < |arg| <= S.MssLocal(p) && |arg| <= p.buf
    requires p.queuelen + 2 <= S.TCP_SND_QUEUELEN && 0 < budget
    ensures S.Write(p, arg, budget) == Some(p.(unsent := [S.TxSeg(Segment(p.lbb, arg, false), 2)],
      lbb := p.lbb + |arg|, buf := p.buf - |arg|, queuelen := p.queuelen + 2))
  {
    assert arg[0..] == arg && arg[..|arg|] == arg && arg[|arg|..] == [];
    Q.SplitNothing(p.lbb + |arg|, S.MssLocal(p), p.queuelen + 2, budget - 1);
    var one := [S.TxSeg(Segment(p.lbb, arg, false), 2)];
    assert one + [] == one && [] + one == one;
  }

  /** A single unsent segment that the window allows goes out. */
  lemma {:induction false} SendOne(p: S.Snd, x: TxSeg, wnd: nat)
    requires p.unsent == [x] && 0 <= x.s.End() - p.lastack <= wnd < 0x1_0000 && 0 < x.s.TcpLen()
    ensures S.Output(p, wnd, true) == (p.(unsent := [], unacked := S.PutUnacked(p.unacked, x),
      nxt := if p.nxt < x.Next() then x.Next() else p.nxt), [x.s])
  {
    var p1 := S.OutputOne(p);
    assert p1.unsent == [];
    assert S.Output(p1, wnd, true) == (p1, []);
    assert [x.s] + [] == [x.s];
  }

  /** How a run gets there: two writes, each sent at once, then the third duplicate ACK. */
  lemma {:induction false} RequeuedIsReached(d: seq<Byte>, e: seq<Byte>)
    requires 0 < |d| <= 8 && 0 < |e| <= 8
    ensures var run := [AppWrite(d, 1), Transmit(100, true), AppWrite(e, 1), Transmit(100, true), AckArrives(0, true)];
      var y := Start(0, 8, 16);
      AllPossible(y, run) && AllCareful(y, 0, run) && Run(y, run) == Requeued(d, e)
  {
    hide AllPossible, AllCareful, Run, S.Write, S.Output, S.Ack;
    var run := [AppWrite(d, 1), Transmit(100, true), AppWrite(e, 1), Transmit(100, true), AckArrives(0, true)];
    var y0 := Start(0, 8, 16);
    var x, z := S.TxSeg(Segment(0, d, false), 2), S.TxSeg(Segment(|d|, e, false), 2);
    var y2 := WriteAndSend(y0, d);
    assert y2.snd.unacked == [x] && y2.wire == [x.s] && y2.written == d;
    var y4 := WriteAndSend(y2, e);
    assert y4.snd.unacked == [x, z] && y4.wire == [x.s, z.s] && y4.written == d + e;
    DuplicateAck(y4.snd, x, z);
    FiveSteps(y0, Step(y0, run[0]), y2, Step(y2, run[2]), y4, Requeued(d, e), run);
  }

  lemma {:induction false} WriteAndSend(y: System, d: seq<Byte>) returns (y': System)
    requires P.Sound(y.rcv) && 0 < |d| <= 8 && y.snd.unsent == [] && !y.snd.finQueued
    requires S.MssLocal(y.snd) == 8 <= y.snd.buf && y.snd.queuelen <= 60
    requires y.snd.nxt <= y.snd.lbb && y.snd.lastack == 0 <= y.snd.lbb <= 50
    ensures var y1 := Step(y, AppWrite(d, 1));
      y' == Step(y1, Transmit(100, true))
    ensures var x := S.TxSeg(Segment(y.snd.lbb, d, false), 2);
      y' == y.(snd := y.snd.(unacked := S.PutUnacked(y.snd.unacked, x), lbb := y.snd.lbb + |d|, nxt := y.snd.lbb + |d|,
                             buf := y.snd.buf - |d|, queuelen := y.snd.queuelen + 2),
               wire := y.wire + [x.s], written := y.written + d)
  {
    hide S.Write, S.Output, S.PutUnacked;
    WriteOne(y.snd, d, 1);
    var y1 := Step(y, AppWrite(d, 1));
    SendOne(y1.snd, S.TxSeg(Segment(y.snd.lbb, d, false), 2), 100);
    y' := Step(y1, Transmit(100, true));
  }

  lemma {:induction false} DuplicateAck(p: S.Snd, x: TxSeg, z: TxSeg)
    requires p.unacked == [x, z] && p.unsent == [] && 0 < x.Next() && p.lastack == 0
    ensures S.Ack(p, 0, true) == p.(unacked := [z], unsent := [x])
  {
  }

  lemma {:induction false} FiveSteps(y0: System, y1: System, y2: System, y3: System, y4: System, y5: System,
      run: seq<Action>)
    requires |run| == 5 && P.Sound(y0.rcv)
    requires Possible(y0, run[0]) && Careful(y0, 0, run[0]) && y1 == Step(y0, run[0])
    requires Possible(y1, run[1]) && Careful(y1, 0, run[1]) && y2 == Step(y1, run[1])
    requires Possible(y2, run[2]) && Careful(y2, 0, run[2]) && y3 == Step(y2, run[2])
    requires Possible(y3, run[3]) && Careful(y3, 0, run[3]) && y4 == Step(y3, run[3])
    requires Possible(y4, run[4]) && Careful(y4, 0, run[4]) && y5 == Step(y4, run[4])
    ensures AllPossible(y0, run) && AllCareful(y0, 0, run) && Run(y0, run) == y5
  {
    hide Step, Possible, Careful;
    assert AllPossible(y5, []) && AllCareful(y5, 0, []) && Run(y5, []) == y5;
    assert run[4..][1..] == [] && run[4..][0] == run[4];
    assert AllPossible(y4, run[4..]) && AllCareful(y4, 0, run[4..]) && Run(y4, run[4..]) == y5;
    assert run[3..][1..] == run[4..] && run[3..][0] == run[3];
    assert AllPossible(y3, run[3..]) && AllCareful(y3, 0, run[3..]) && Run(y3, run[3..]) == y5;
    assert run[2..][1..] == run[3..] && run[2..][0] == run[2];
    assert AllPossible(y2, run[2..]) && AllCareful(y2, 0, run[2..]) && Run(y2, run[2..]) == y5;
    assert run[1..][1..] == run[2..] && run[1..][0] == run[1];
    assert AllPossible(y1, run[1..]) && AllCareful(y1, 0, run[1..]) && Run(y1, run[1..]) == y5;
  }

  /** One more byte written now grows the requeued segment, and the receiver is handed that
      byte in place of the first byte of the second write. */
  lemma {:induction false} CarelessWriteCorrupts(d: seq<Byte>, e: seq<Byte>, w: Byte)
    requires 0 < |d| < 8 && 0 < |e| <= 8
    ensures var y1 := Step(Requeued(d, e), AppWrite([w], 1));
      var y2 := Step(y1, Transmit(100, true));
      && !Careful(Requeued(d, e), 0, AppWrite([w], 1))
      && Possible(y2, Deliver(2, true, true))
      && var y3 := Step(y2, Deliver(2, true, true));
         y3.written == d + e + [w] && y3.rcv.delivered == d + [w]
  {
    var y := Requeued(d, e);
    var grown := S.TxSeg(Segment(0, d + [w], false), 3);
    assert S.Extension(y.snd, 1) == 1;
    Q.SplitNothing(|d| + |e| + 1, S.MssLocal(y.snd), y.snd.queuelen + 1, 0);
    var arg: seq<Byte> := [w];
    assert arg[1..] == [] && arg[..1] == arg;
    assert S.Kept(y.snd, arg, 1) == [grown];
    assert [grown] + [] == [grown];
    var y1 := Step(y, AppWrite(arg, 1));
    assert y1.snd.unsent == [grown] && y1.written == d + e + [w];
    SendOne(y1.snd, grown, 100);
    var y2 := Step(y1, Transmit(100, true));
    assert y2.wire[2] == grown.s;
    FirstArrival(grown.s);
  }

  /** The first data segment on a fresh connection is handed over as it is. */
  lemma {:induction false} FirstArrival(s: Segment)
    requires s.seqno == 0 && 0 < |s.data| < R.TCP_WND && !s.fin
    ensures P.Step(P.History(R.Fresh(0, 8), [], 0), P.Arrive(s, true, true)).delivered == s.data
  {
  }

  /** Closing now instead puts the FIN on the requeued segment: the receiver is told that the
      stream ends after the first write. */
  lemma {:induction false} CarelessCloseTruncates(d: seq<Byte>, e: seq<Byte>)
    requires 0 < |d| <= 8 && 0 < |e| <= 8
    ensures var y1 := Step(Requeued(d, e), Close(true));
      var y2 := Step(y1, Transmit(100, true));
      && !Careful(Requeued(d, e), 0, Close(true))
      && Possible(y2, Deliver(2, true, true))
      && var y3 := Step(y2, Deliver(2, true, true));
         y3.written == d + e && y3.rcv.delivered == d && y3.rcv.eofs == 1
  {
    var y := Requeued(d, e);
    var last := S.TxSeg(Segment(0, d, true), 2);
    var y1 := Step(y, Close(true));
    assert y1.snd.unsent == [last];
    SendOne(y1.snd, last, 100);
    var y2 := Step(y1, Transmit(100, true));
    assert y2.wire[2] == last.s;
    LastArrival(last.s);
  }

  lemma {:induction false} LastArrival(s: Segment)
    requires s.seqno == 0 && 0 < |s.data| < R.TCP_WND && s.fin
    ensures var h := P.Step(P.History(R.Fresh(0, 8), [], 0), P.Arrive(s, true, true));
      h.delivered == s.data && h.eofs == 1
  {
  }

  // ---------------------------------------------------------------- the queues there

  /** The same state shows where the queues alone stop tiling: at a timeout, and at a close. */
  lemma {:induction false} RequeuedBreaksTiling(d: seq<Byte>, e: seq<Byte>)
    requires 0 < |d| <= 8 && 0 < |e| <= 8
    ensures var p := Requeued(d, e).snd;
      && Q.SenderInv(p)
      && !Q.SenderInv(S.RexmitRto(p))
      && S.SendFin(p, true).Some? && !Q.SenderInv(S.SendFin(p, true).value)
  {
    var p := Requeued(d, e).snd;
    var x, z := p.unsent[0], p.unacked[0];
    assert [x][1..] == [] && [z][1..] == [];
    assert Q.Tile([], [], |d| + |e|, |d| + |e|);
    assert Q.Tile([z], [], |d|, |d| + |e|);
    assert Q.Tile([z], [x], 0, |d| + |e|);
    assert Q.SenderInv(p);
    Q.RtoKeepsInvIff(p);
    Q.SendFinKeepsInvIff(p, true);
  }
}
