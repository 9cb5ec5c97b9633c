/** What the send half does, beside keeping its invariant: which segments output sends and when it
    stops, what an acknowledgment frees, and exactly when a write or a close is refused. */
module SendProgress {
  import opened SequenceNumbers
  import opened Segments
  import opened SendQueues
  import opened SendQueueProofs
  import opened ModArith
  import opened Wrappers

  // ---------------------------------------------------------------- output

  /** The segment ends inside a window of wnd positions from the last acknowledgment. */
  predicate InWindow(x: TxSeg, lastack: int, wnd: nat) {
    U32(x.s.End() - lastack) <= wnd
  }

  /** Nagle's rule: a single short segment waits while data is unacknowledged. */
  predicate HeldBack(p: Snd) {
    && p.unacked != [] && |p.unsent| == 1 && |p.unsent[0].s.data| < p.mss
    && p.buf != 0 && p.queuelen < TCP_SND_QUEUELEN
  }

  lemma {:induction false} OutputOneFields(p: Snd)
    requires p.unsent != []
    ensures var p' := OutputOne(p);
      && p'.unsent == p.unsent[1..] && p'.lastack == p.lastack && p'.mss == p.mss
      && p'.nxt >= p.nxt && p'.nxt >= p.unsent[0].Next()
      && (p'.nxt == p.nxt || p'.nxt == p.unsent[0].Next())
  {
  }

  /** Output sends the first segments of the queue, in order and each inside the peer's window; it
      stops only at an empty queue, at a segment past the window, or at one held back; and snd_nxt
      moves past everything sent. */
  lemma {:induction false} OutputSends(p: Snd, wnd: nat, pushNow: bool)
    ensures var (p', sent) := Output(p, wnd, pushNow);
      && |sent| <= |p.unsent| && p'.unsent == p.unsent[|sent|..] && p'.lastack == p.lastack && p.nxt <= p'.nxt
      && (forall i | 0 <= i < |sent| ::
            sent[i] == p.unsent[i].s && InWindow(p.unsent[i], p.lastack, wnd) && p.unsent[i].Next() <= p'.nxt)
      && (p'.unsent == [] || !InWindow(p'.unsent[0], p.lastack, wnd) || (!pushNow && HeldBack(p')))
    decreases |p.unsent|
  {
    hide U32, OutputOne;
    if MayOutput(p, wnd, pushNow) {
      OutputOneFields(p);
      OutputSends(OutputOne(p), wnd, pushNow);
      var (p', rest) := Output(OutputOne(p), wnd, pushNow);
      var (_, sent) := Output(p, wnd, pushNow);
      assert sent == [p.unsent[0].s] + rest;
      assert p.unsent[1..][|rest|..] == p.unsent[|sent|..];
      forall i | 0 <= i < |sent|
        ensures sent[i] == p.unsent[i].s && InWindow(p.unsent[i], p.lastack, wnd) && p.unsent[i].Next() <= p'.nxt
      {
        assert i > 0 ==> p.unsent[i] == p.unsent[1..][i - 1] && sent[i] == rest[i - 1];
      }
    }
  }

  /** Positions a send buffer apart do not wrap. */
  lemma {:induction false} NearEnough(p: Snd, x: TxSeg)
    requires SenderInv(p) && 0 <= p.buf && x in p.unsent
    ensures 0 <= x.s.End() - p.lastack <= TCP_SND_BUF
  {
    hide Pbufs, NoFin;
    TileBounds(p.unacked, p.unsent, First(p.unacked, p.unsent, p.lbb), p.lbb);
  }

  /** So nothing is ever sent past the window the peer has offered, and if the first segment fits
      and is not held back something is sent. */
  lemma {:induction false} NeverPastWindow(p: Snd, wnd: nat, pushNow: bool)
    requires SenderInv(p) && 0 <= p.buf
    ensures var sent := Output(p, wnd, pushNow).1;
      && (forall i | 0 <= i < |sent| :: sent[i].End() <= p.lastack + wnd)
      && (sent == [] <==> p.unsent == [] || p.lastack + wnd < p.unsent[0].s.End() || (!pushNow && HeldBack(p)))
  {
    hide SenderInv, Output;
    var (p', sent) := Output(p, wnd, pushNow);
    OutputSends(p, wnd, pushNow);
    forall x | x in p.unsent ensures U32(x.s.End() - p.lastack) == x.s.End() - p.lastack {
      NearEnough(p, x);
    }
    NothingSent(p, wnd, pushNow);
  }

  lemma {:induction false} NothingSent(p: Snd, wnd: nat, pushNow: bool)
    ensures Output(p, wnd, pushNow).1 == [] <==> !MayOutput(p, wnd, pushNow)
    ensures Output(p, wnd, pushNow).1 == [] ==> Output(p, wnd, pushNow).0 == p
  {
  }

  // ---------------------------------------------------------------- acknowledgment

  /** Only fully acknowledged segments leave a queue. */
  lemma {:induction false} DropStays(q: seq<TxSeg>, ackno: int, z: TxSeg)
    ensures z in DropAcked(q, ackno) ==> z in q
    ensures z in q && ackno < z.Next() ==> z in DropAcked(q, ackno)
    decreases |q|
  {
    if q != [] && q[0].Next() <= ackno {
      DropStays(q[1..], ackno, z);
    }
  }

  /** An acknowledgment of new data moves lastack to it, gives back that much buffer, and frees exactly
      the segments it covers, on either queue. */
  lemma {:induction false} AckFrees(p: Snd, ackno: int, fast: bool, z: TxSeg)
    requires SenderInv(p) && p.lastack < ackno <= p.nxt
    ensures var p' := Ack(p, ackno, fast);
      && p'.lastack == ackno && p'.buf == p.buf + (ackno - p.lastack) && p'.nxt == p.nxt
      && (z in p'.unacked <==> z in p.unacked && ackno < z.Next())
      && (z in p'.unsent <==> z in p.unsent && ackno < z.Next())
  {
    hide Pbufs, Tile, NoFin, AllAbove, DropAcked;
    DropAbove(p.unacked, p.unsent, First(p.unacked, p.unsent, p.lbb), p.lbb, ackno);
    DropStays(p.unacked, ackno, z);
    DropStays(p.unsent, ackno, z);
    AboveMeans(DropAcked(p.unacked, ackno), ackno, z);
    AboveMeans(DropAcked(p.unsent, ackno), ackno, z);
  }

  lemma {:induction false} AboveMeans(q: seq<TxSeg>, ackno: int, z: TxSeg)
    requires AllAbove(q, ackno)
    ensures z in q ==> ackno < z.Next()
  {
  }

  lemma {:induction false} InsertContents(q: seq<TxSeg>, x: TxSeg)
    ensures multiset(InsertBefore(q, x)) == multiset(q) + multiset{x}
    decreases |q|
  {
    if q != [] && q[0].s.seqno < x.s.seqno {
      InsertContents(q[1..], x);
      assert q == [q[0]] + q[1..];
    }
  }

  /** The third duplicate acknowledgment takes the oldest unacknowledged segment back to the unsent
      queue, and nothing else moves; other duplicates change nothing. */
  lemma {:induction false} DuplicateAck(p: Snd, ackno: int, fast: bool)
    requires SenderInv(p) && ackno <= p.lastack
    ensures var p' := Ack(p, ackno, fast);
      && (fast && p.unacked != [] ==>
            && p'.unacked == p.unacked[1..]
            && multiset(p'.unsent) == multiset(p.unsent) + multiset{p.unacked[0]}
            && p' == p.(unacked := p'.unacked, unsent := p'.unsent))
      && (!(fast && p.unacked != []) ==> p' == p)
  {
    hide Pbufs, Tile, NoFin, AllAbove, InsertBefore;
    RexmitInv(p);
    AllAboveLess(AckUnacked(p, ackno, fast).unsent, p.lastack, ackno);
    AckUnsentNothing(AckUnacked(p, ackno, fast), ackno);
    if p.unacked != [] {
      InsertContents(p.unsent, p.unacked[0]);
    }
  }

  lemma {:induction false} AllAboveLess(q: seq<TxSeg>, a: int, b: int)
    requires AllAbove(q, a) && b <= a
    ensures AllAbove(q, b)
  {
  }

  // ---------------------------------------------------------------- when a write succeeds

  /** How many segments of at most m bytes hold n bytes. */
  function Parts(n: nat, m: nat): nat
    requires m > 0
  {
    (n + m - 1) / m
  }

  lemma {:induction false} PartsStep(n: nat, m: nat)
    requires m > 0 && n > 0
    ensures Parts(n, m) == 1 + if n > m then Parts(n - m, m) else 0
  {
    if n > m {
      assert n + m - 1 == (n - 1) + m;
      DivStep(n - 1, m);
    } else {
      assert n + m - 1 == 1 * m + (n - 1);
      DivOne(n - 1, m);
    }
  }

  lemma {:induction false} DivStep(a: nat, m: nat)
    requires m > 0
    ensures (a + m) / m == a / m + 1
  {
    MulAdd(a / m, 1, m);
    DivModUnique(a + m, m, a / m + 1, a % m);
  }

  lemma {:induction false} DivOne(a: nat, m: nat)
    requires 0 <= a < m
    ensures (1 * m + a) / m == 1
  {
    assert a / m == 0;
    DivStep(a, m);
  }

  /** New segments are made exactly when there are buffers and room on the queue for as many as the
      bytes fill. */
  lemma {:induction false} SplitSucceedsIff(bytes: seq<Byte>, pos: int, m: nat, queuelen: int, budget: nat)
    ensures Split(bytes, pos, m, queuelen, budget).Some? <==>
      || bytes == []
      || (m > 0 && Parts(|bytes|, m) <= budget && queuelen + 2 * Parts(|bytes|, m) <= TCP_SND_QUEUELEN)
    decreases TCP_SND_QUEUELEN + 2 - queuelen
  {
    hide Parts;
    if bytes != [] {
      if m == 0 {
        ZeroMssFails(bytes, pos, queuelen, budget);
      } else {
        PartsStep(|bytes|, m);
        if budget != 0 && queuelen + 2 <= TCP_SND_QUEUELEN {
          var n := if |bytes| > m then m else |bytes|;
          SplitSucceedsIff(bytes[n..], pos + n, m, queuelen + 2, budget - 1);
        }
      }
    }
  }

  /** The bytes of a write that need new segments. */
  function Remainder(p: Snd, n: nat): nat {
    n - Extension(p, n)
  }

  /** tcp_write is refused exactly when a FIN is queued, the data does not fit the buffer, the queue
      is full or would get too long, the local segment size is zero, or an allocation fails. */
  lemma {:induction false} WriteSucceedsIff(p: Snd, arg: seq<Byte>, budget: nat)
    ensures Write(p, arg, budget).Some? <==>
      && !p.finQueued
      && (arg == [] ||
          (&& |arg| <= p.buf && p.queuelen < TCP_SND_QUEUELEN
           && var ext, rest := Extension(p, |arg|), Remainder(p, |arg|);
              && Used(ext) <= budget
              && (rest == 0 ||
                  (&& MssLocal(p) > 0
                   && Used(ext) + Parts(rest, MssLocal(p)) <= budget
                   && p.queuelen + Used(ext) + 2 * Parts(rest, MssLocal(p)) <= TCP_SND_QUEUELEN))))
  {
    hide Split, Parts, Extension;
    var ext := Extension(p, |arg|);
    if Used(ext) <= budget {
      SplitSucceedsIff(arg[ext..], p.lbb + ext, MssLocal(p), p.queuelen + Used(ext), budget - Used(ext));
    }
  }

  /** The segments a write adds are no longer than the peer's segment size and half of the largest
      window it ever offered. */
  lemma {:induction false} NewSegmentsSmall(p: Snd, arg: seq<Byte>, budget: nat, i: nat)
    requires Write(p, arg, budget).Some? && |p.unsent| <= i < |Write(p, arg, budget).value.unsent|
    ensures var n := |Write(p, arg, budget).value.unsent[i].s.data|; 0 < n <= p.mss && 2 * n <= p.wndMax
  {
    hide Write;
    WriteTransaction(p, arg, budget);
  }

  /** A close goes through exactly when a segment without FIN waits to be sent, or there is room for
      one more. */
  lemma {:induction false} CloseSucceedsIff(p: Snd, ok: bool)
    requires SenderInv(p) && !p.finQueued
    ensures SendFin(p, ok).Some? <==> p.unsent != [] || (p.queuelen < TCP_SND_QUEUELEN && p.buf != 0 && ok)
    ensures SendFin(p, ok).Some? ==>
      var p' := SendFin(p, ok).value; p'.finQueued && p'.unsent != [] && p'.unsent[|p'.unsent| - 1].s.fin
  {
    hide Tile, Pbufs, AllAbove;
  }
}
