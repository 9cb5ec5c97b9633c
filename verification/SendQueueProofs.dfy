/** What the send half keeps: the two queues together tile the sequence space, and the
    counters match them.  Where the code breaks this, the exact condition. */
module SendQueueProofs {
  import opened Segments
  import opened SendQueues
  import opened Wrappers

  // ---------------------------------------------------------------- tiling

  /** u and s, read together in sequence order, cover lo..hi without gap or overlap; so each
      of them is sorted. */
  predicate Tile(u: seq<TxSeg>, s: seq<TxSeg>, lo: int, hi: int)
    decreases |u| + |s|
  {
    if u == [] && s == [] then lo == hi
    else
      || (u != [] && u[0].s.seqno == lo && lo < u[0].Next() && Tile(u[1..], s, u[0].Next(), hi))
      || (s != [] && s[0].s.seqno == lo && lo < s[0].Next() && Tile(u, s[1..], s[0].Next(), hi))
  }

  /** Nothing starts before lo or ends after hi. */
  lemma {:induction false} TileBounds(u: seq<TxSeg>, s: seq<TxSeg>, lo: int, hi: int)
    requires Tile(u, s, lo, hi)
    ensures lo <= hi
    ensures forall i | 0 <= i < |u| :: lo <= u[i].s.seqno < u[i].Next() <= hi
    ensures forall i | 0 <= i < |s| :: lo <= s[i].s.seqno < s[i].Next() <= hi
    decreases |u| + |s|
  {
    if u != [] && u[0].s.seqno == lo && lo < u[0].Next() && Tile(u[1..], s, u[0].Next(), hi) {
      TileBounds(u[1..], s, u[0].Next(), hi);
      assert forall i | 1 <= i < |u| :: u[i] == u[1..][i-1];
    } else if s != [] {
      TileBounds(u, s[1..], s[0].Next(), hi);
      assert forall i | 1 <= i < |s| :: s[i] == s[1..][i-1];
    }
  }

  lemma {:induction false} TileSymmetric(u: seq<TxSeg>, s: seq<TxSeg>, lo: int, hi: int)
    requires Tile(u, s, lo, hi)
    ensures Tile(s, u, lo, hi)
    decreases |u| + |s|
  {
    if u != [] && u[0].s.seqno == lo && lo < u[0].Next() && Tile(u[1..], s, u[0].Next(), hi) {
      TileSymmetric(u[1..], s, u[0].Next(), hi);
    } else if s != [] {
      TileSymmetric(u, s[1..], s[0].Next(), hi);
    }
  }

  /** Moving the head of one queue to its sorted place in the other keeps the tiling. */
  lemma {:induction false} TileMoveHead(u: seq<TxSeg>, s: seq<TxSeg>, lo: int, hi: int)
    requires u != [] && Tile(u, s, lo, hi)
    ensures Tile(u[1..], InsertBefore(s, u[0]), lo, hi)
    decreases |s|
  {
    var r := InsertBefore(s, u[0]);
    if u[0].s.seqno == lo && lo < u[0].Next() && Tile(u[1..], s, u[0].Next(), hi) {
      TileBounds(u[1..], s, u[0].Next(), hi);
      assert r == [u[0]] + s && r[1..] == s;
    } else {
      TileBounds(u, s[1..], s[0].Next(), hi);
      TileMoveHead(u, s[1..], s[0].Next(), hi);
      assert r[1..] == InsertBefore(s[1..], u[0]);
    }
  }

  /** Sorted as the list is, appending behind a smaller last element is the same as inserting. */
  lemma {:induction false} PutIsInsert(u: seq<TxSeg>, x: TxSeg)
    requires forall i, j | 0 <= i < j < |u| :: u[i].s.seqno < u[j].s.seqno
    requires forall i | 0 <= i < |u| :: u[i].s.seqno != x.s.seqno
    ensures PutUnacked(u, x) == InsertBefore(u, x)
    decreases |u|
  {
    if u != [] && u[|u|-1].s.seqno < x.s.seqno {
      assert u[0].s.seqno < x.s.seqno;
      PutIsInsert(u[1..], x);
      if |u| > 1 {
        assert u[1..][|u|-2] == u[|u|-1];
      }
      assert u + [x] == [u[0]] + (u[1..] + [x]);
    }
  }

  /** Each queue on its own is strictly sorted, and the two share no position. */
  lemma {:induction false} TileSorted(u: seq<TxSeg>, s: seq<TxSeg>, lo: int, hi: int)
    requires Tile(u, s, lo, hi)
    ensures forall i, j | 0 <= i < j < |u| :: u[i].s.seqno < u[j].s.seqno
    ensures forall i, j | 0 <= i < j < |s| :: s[i].s.seqno < s[j].s.seqno
    ensures forall i, j | 0 <= i < |u| && 0 <= j < |s| :: u[i].s.seqno != s[j].s.seqno
    decreases |u| + |s|
  {
    if u != [] && u[0].s.seqno == lo && lo < u[0].Next() && Tile(u[1..], s, u[0].Next(), hi) {
      TileSorted(u[1..], s, u[0].Next(), hi);
      TileBounds(u[1..], s, u[0].Next(), hi);
      assert forall i | 1 <= i < |u| :: u[i] == u[1..][i-1];
    } else if s != [] {
      TileSorted(u, s[1..], s[0].Next(), hi);
      TileBounds(u, s[1..], s[0].Next(), hi);
      assert forall i | 1 <= i < |s| :: s[i] == s[1..][i-1];
    }
  }

  lemma {:induction false} OutputOneTile(p: Snd, lo: int, hi: int)
    requires p.unsent != [] && Tile(p.unacked, p.unsent, lo, hi)
    ensures Tile(OutputOne(p).unacked, OutputOne(p).unsent, lo, hi)
  {
    TileSorted(p.unacked, p.unsent, lo, hi);
    TileBounds(p.unacked, p.unsent, lo, hi);
    PutIsInsert(p.unacked, p.unsent[0]);
    TileSymmetric(p.unacked, p.unsent, lo, hi);
    TileMoveHead(p.unsent, p.unacked, lo, hi);
    TileSymmetric(p.unsent[1..], InsertBefore(p.unacked, p.unsent[0]), lo, hi);
  }

  /** Dropping what is acknowledged from the front of both queues drops a prefix of the
      tiling; what stays starts at or before ackno and its first segment ends after it. */
  lemma {:induction false} TileDrop(u: seq<TxSeg>, s: seq<TxSeg>, lo: int, hi: int, ackno: int) returns (lo': int)
    requires Tile(u, s, lo, hi) && ackno <= hi
    ensures Tile(DropAcked(u, ackno), DropAcked(s, ackno), lo', hi)
    ensures lo' == lo || lo < lo' <= ackno
    decreases |u| + |s|
  {
    if u != [] && u[0].s.seqno == lo && lo < u[0].Next() && Tile(u[1..], s, u[0].Next(), hi) {
      TileBounds(u[1..], s, u[0].Next(), hi);
      if u[0].Next() <= ackno {
        lo' := TileDrop(u[1..], s, u[0].Next(), hi, ackno);
      } else {
        lo' := lo;
      }
    } else if s != [] {
      TileBounds(u, s[1..], s[0].Next(), hi);
      if s[0].Next() <= ackno {
        lo' := TileDrop(u, s[1..], s[0].Next(), hi, ackno);
      } else {
        lo' := lo;
      }
    } else {
      lo' := lo;
    }
  }

  /** What stays ends after ackno, in either queue. */
  lemma {:induction false} DropAbove(u: seq<TxSeg>, s: seq<TxSeg>, lo: int, hi: int, ackno: int)
    requires Tile(u, s, lo, hi)
    ensures AllAbove(DropAcked(u, ackno), ackno) && AllAbove(DropAcked(s, ackno), ackno)
    decreases |u| + |s|
  {
    hide AllAbove;
    if u != [] && u[0].s.seqno == lo && lo < u[0].Next() && Tile(u[1..], s, u[0].Next(), hi) {
      DropAbove(u[1..], s, u[0].Next(), hi, ackno);
      TileBounds(u[1..], s, u[0].Next(), hi);
      RestAbove(u, ackno);
    } else if s != [] {
      DropAbove(u, s[1..], s[0].Next(), hi, ackno);
      TileBounds(u, s[1..], s[0].Next(), hi);
      RestAbove(s, ackno);
    } else {
      AboveNothing(ackno);
    }
  }

  lemma {:induction false} RestAbove(q: seq<TxSeg>, ackno: int)
    requires q != [] && forall i | 0 <= i < |q[1..]| :: q[0].Next() < q[1..][i].Next()
    ensures ackno < q[0].Next() ==> AllAbove(q, ackno)
  {
    forall i | 0 <= i < |q| && ackno < q[0].Next() ensures ackno < q[i].Next() {
      if i > 0 {
        assert q[i] == q[1..][i - 1];
      }
    }
  }

  lemma {:induction false} AboveNothing(ackno: int)
    ensures AllAbove([], ackno)
  {
  }

  /** Segments that continue the tiling at its right end. */
  lemma {:induction false} TileAppend(u: seq<TxSeg>, s: seq<TxSeg>, t: seq<TxSeg>, lo: int, hi: int, hi': int)
    requires Tile(u, s, lo, hi) && Tile([], t, hi, hi')
    ensures Tile(u, s + t, lo, hi')
    decreases |u| + |s|
  {
    if u == [] && s == [] {
      assert s + t == t;
    } else if u != [] && u[0].s.seqno == lo && lo < u[0].Next() && Tile(u[1..], s, u[0].Next(), hi) {
      TileAppend(u[1..], s, t, u[0].Next(), hi, hi');
    } else {
      TileAppend(u, s[1..], t, s[0].Next(), hi, hi');
      assert (s + t)[1..] == s[1..] + t;
    }
  }

  /** Only the segment that ends at hi may grow at its end. */
  lemma {:induction false} TileExtendLast(u: seq<TxSeg>, s: seq<TxSeg>, lo: int, hi: int, bytes: seq<Byte>)
    requires Tile(u, s, lo, hi) && s != [] && s[|s|-1].Next() == hi && bytes != []
    ensures Tile(u, ExtendLast(s, bytes), lo, hi + |bytes|)
    decreases |u| + |s|
  {
    var r := ExtendLast(s, bytes);
    if u != [] && u[0].s.seqno == lo && lo < u[0].Next() && Tile(u[1..], s, u[0].Next(), hi) {
      TileExtendLast(u[1..], s, u[0].Next(), hi, bytes);
    } else if |s| == 1 {
      TileBounds(u, s[1..], s[0].Next(), hi);
      assert u == [];
      assert r[1..] == [];
    } else {
      TileExtendLast(u, s[1..], s[0].Next(), hi, bytes);
      assert r[1..] == ExtendLast(s[1..], bytes);
      assert r[0] == s[0];
    }
  }

  lemma {:induction false} SplitTiles(bytes: seq<Byte>, pos: int, maxLen: nat, queuelen: int, budget: nat)
    requires Split(bytes, pos, maxLen, queuelen, budget).Some?
    ensures var t := Split(bytes, pos, maxLen, queuelen, budget).value;
      && Tile([], t, pos, pos + |bytes|)
      && Pbufs(t) == 2 * |t| && queuelen + Pbufs(t) <= (if t == [] then queuelen else TCP_SND_QUEUELEN)
      && (forall i | 0 <= i < |t| :: 0 < |t[i].s.data| <= maxLen && !t[i].s.fin)
    decreases TCP_SND_QUEUELEN + 2 - queuelen
  {
    if bytes != [] {
      var n := if |bytes| > maxLen then maxLen else |bytes|;
      var t := Split(bytes, pos, maxLen, queuelen, budget).value;
      SplitTiles(bytes[n..], pos + n, maxLen, queuelen + 2, budget - 1);
      var t' := Split(bytes[n..], pos + n, maxLen, queuelen + 2, budget - 1).value;
      assert t[1..] == t';
      if n == 0 {
        ZeroMssFails(bytes, pos, queuelen, budget);
      }
    }
  }

  lemma {:induction false} SplitNothing(pos: int, maxLen: nat, queuelen: int, budget: nat)
    ensures Split([], pos, maxLen, queuelen, budget) == Some([])
  {
  }

  /** With a local MSS of zero the loop makes no progress and ends at the queue limit. */
  lemma {:induction false} ZeroMssFails(bytes: seq<Byte>, pos: int, queuelen: int, budget: nat)
    requires bytes != []
    ensures Split(bytes, pos, 0, queuelen, budget).None?
    decreases TCP_SND_QUEUELEN + 2 - queuelen
  {
    if budget != 0 && queuelen + 2 <= TCP_SND_QUEUELEN {
      assert bytes[0..] == bytes;
      ZeroMssFails(bytes, pos, queuelen + 2, budget - 1);
    }
  }

  // ---------------------------------------------------------------- counters

  lemma {:induction false} PbufsAppend(a: seq<TxSeg>, b: seq<TxSeg>)
    ensures Pbufs(a + b) == Pbufs(a) + Pbufs(b)
    decreases |a|
  {
    if a == [] {
      assert a + b == b;
    } else {
      PbufsAppend(a[1..], b);
      assert (a + b)[1..] == a[1..] + b;
    }
  }

  lemma {:induction false} PbufsInsert(q: seq<TxSeg>, x: TxSeg)
    ensures Pbufs(InsertBefore(q, x)) == Pbufs(q) + x.pbufs
    decreases |q|
  {
    var r := InsertBefore(q, x);
    if q == [] || !(q[0].s.seqno < x.s.seqno) {
      assert r[1..] == q;
    } else {
      PbufsInsert(q[1..], x);
      assert r[1..] == InsertBefore(q[1..], x);
    }
  }

  lemma {:induction false} PbufsPut(q: seq<TxSeg>, x: TxSeg)
    ensures Pbufs(PutUnacked(q, x)) == Pbufs(q) + x.pbufs
  {
    PbufsInsert(q, x);
    PbufsAppend(q, [x]);
  }

  lemma {:induction false} PbufsExtend(q: seq<TxSeg>, bytes: seq<Byte>)
    requires q != []
    ensures Pbufs(ExtendLast(q, bytes)) == Pbufs(q) + 1
  {
    var l := q[|q|-1];
    PbufsAppend(q[..|q|-1], [l]);
    PbufsAppend(q[..|q|-1], [TxSeg(l.s.(data := l.s.data + bytes), l.pbufs + 1)]);
    assert q[..|q|-1] + [l] == q;
  }

  // ---------------------------------------------------------------- the invariant

  /** Where the queued sequence space begins. */
  function First(u: seq<TxSeg>, s: seq<TxSeg>, hi: int): int {
    if u == [] && s == [] then hi
    else if u == [] then s[0].s.seqno
    else if s == [] then u[0].s.seqno
    else if u[0].s.seqno < s[0].s.seqno then u[0].s.seqno else s[0].s.seqno
  }

  lemma {:induction false} TileFirst(u: seq<TxSeg>, s: seq<TxSeg>, lo: int, hi: int)
    requires Tile(u, s, lo, hi)
    ensures lo == First(u, s, hi)
  {
    TileBounds(u, s, lo, hi);
  }

  predicate NoFin(q: seq<TxSeg>) {
    forall i | 0 <= i < |q| :: !q[i].s.fin
  }

  predicate AllAbove(q: seq<TxSeg>, ackno: int) {
    forall i | 0 <= i < |q| :: ackno < q[i].Next()
  }

  /** The queues tile the space from the oldest unacknowledged segment to snd_lbb, nothing
      acknowledged is kept, and the counters agree with the queues. */
  predicate SenderInv(p: Snd) {
    && Tile(p.unacked, p.unsent, First(p.unacked, p.unsent, p.lbb), p.lbb)
    && First(p.unacked, p.unsent, p.lbb) <= p.lastack <= p.nxt <= p.lbb
    && AllAbove(p.unacked, p.lastack) && AllAbove(p.unsent, p.lastack)
    && p.queuelen == Pbufs(p.unacked) + Pbufs(p.unsent)
    && p.buf + (p.lbb - p.lastack) == TCP_SND_BUF
    && (!p.finQueued ==> NoFin(p.unacked) && NoFin(p.unsent))
  }

  lemma {:induction false} InsertKeeps(q: seq<TxSeg>, x: TxSeg, ackno: int)
    ensures AllAbove(q, ackno) && ackno < x.Next() ==> AllAbove(InsertBefore(q, x), ackno)
    ensures NoFin(q) && !x.s.fin ==> NoFin(InsertBefore(q, x))
    decreases |q|
  {
    if q != [] && q[0].s.seqno < x.s.seqno {
      InsertKeeps(q[1..], x, ackno);
    }
  }

  lemma {:induction false} OutputOneInv(p: Snd)
    requires SenderInv(p) && p.unsent != []
    ensures SenderInv(OutputOne(p))
  {
    var lo := First(p.unacked, p.unsent, p.lbb);
    var x := p.unsent[0];
    OutputOneTile(p, lo, p.lbb);
    TileFirst(OutputOne(p).unacked, OutputOne(p).unsent, lo, p.lbb);
    TileBounds(p.unacked, p.unsent, lo, p.lbb);
    PbufsPut(p.unacked, x);
    InsertKeeps(p.unacked, x, p.lastack);
  }

  lemma {:induction false} OutputInv(p: Snd, wnd: nat, pushNow: bool)
    requires SenderInv(p)
    ensures SenderInv(Output(p, wnd, pushNow).0)
    decreases |p.unsent|
  {
    if MayOutput(p, wnd, pushNow) {
      OutputOneInv(p);
      OutputInv(OutputOne(p), wnd, pushNow);
    }
  }

  lemma {:induction false} RexmitInv(p: Snd)
    requires SenderInv(p)
    ensures SenderInv(Rexmit(p)) && Rexmit(p).lastack == p.lastack
  {
    if p.unacked != [] {
      var lo := First(p.unacked, p.unsent, p.lbb);
      TileMoveHead(p.unacked, p.unsent, lo, p.lbb);
      TileFirst(Rexmit(p).unacked, Rexmit(p).unsent, lo, p.lbb);
      PbufsInsert(p.unsent, p.unacked[0]);
      InsertKeeps(p.unsent, p.unacked[0], p.lastack);
    }
  }

  lemma {:induction false} DropNoFin(q: seq<TxSeg>, ackno: int)
    ensures NoFin(q) ==> NoFin(DropAcked(q, ackno))
    decreases |q|
  {
    if q != [] && q[0].Next() <= ackno {
      DropNoFin(q[1..], ackno);
    }
  }

  lemma {:induction false} AckNewInv(p: Snd, ackno: int, fast: bool)
    requires SenderInv(p) && p.lastack < ackno <= p.nxt
    ensures SenderInv(Ack(p, ackno, fast))
  {
    hide Tile, Pbufs, DropAcked, AllAbove, NoFin, First;
    var lo := First(p.unacked, p.unsent, p.lbb);
    var lo' := TileDrop(p.unacked, p.unsent, lo, p.lbb, ackno);
    DropAbove(p.unacked, p.unsent, lo, p.lbb, ackno);
    TileFirst(DropAcked(p.unacked, ackno), DropAcked(p.unsent, ackno), lo', p.lbb);
    DropNoFin(p.unacked, ackno);
    DropNoFin(p.unsent, ackno);
  }

  lemma {:induction false} AckUnsentNothing(p: Snd, ackno: int)
    requires AllAbove(p.unsent, ackno)
    ensures AckUnsent(p, ackno) == p
  {
    hide Pbufs, DropAcked, AllAbove;
    DropNothing(p.unsent, ackno);
  }

  lemma {:induction false} DropNothing(q: seq<TxSeg>, ackno: int)
    requires AllAbove(q, ackno)
    ensures DropAcked(q, ackno) == q
  {
    if q != [] {
      assert ackno < q[0].Next();
    }
  }

  lemma {:induction false} AckInv(p: Snd, ackno: int, fast: bool)
    requires SenderInv(p)
    ensures SenderInv(Ack(p, ackno, fast))
  {
    hide Rexmit, AckUnsent;
    if ackno <= p.lastack {
      RexmitInv(p);
      AckUnsentNothing(AckUnacked(p, ackno, fast), ackno);
    } else if ackno <= p.nxt {
      AckNewInv(p, ackno, fast);
    } else {
      AckBeyond(p, ackno);
    }
  }

  lemma {:induction false} AckBeyond(p: Snd, ackno: int)
    requires p.nxt < ackno
    ensures AckUnsent(p, ackno) == p
  {
    hide Pbufs, DropAcked;
  }

  // ---------------------------------------------------------------- tcp_write

  function Bytes(q: seq<TxSeg>): seq<Byte> {
    if q == [] then [] else q[0].s.data + Bytes(q[1..])
  }

  lemma {:induction false} BytesAppend(a: seq<TxSeg>, b: seq<TxSeg>)
    ensures Bytes(a + b) == Bytes(a) + Bytes(b)
    decreases |a|
  {
    if a == [] {
      assert a + b == b;
    } else {
      BytesAppend(a[1..], b);
      assert (a + b)[1..] == a[1..] + b;
    }
  }

  lemma {:induction false} BytesExtend(q: seq<TxSeg>, bytes: seq<Byte>)
    requires q != []
    ensures Bytes(ExtendLast(q, bytes)) == Bytes(q) + bytes
  {
    var l := q[|q|-1];
    var l' := TxSeg(l.s.(data := l.s.data + bytes), l.pbufs + 1);
    BytesAppend(q[..|q|-1], [l]);
    BytesAppend(q[..|q|-1], [l']);
    assert q[..|q|-1] + [l] == q;
    assert Bytes([l]) == l.s.data && Bytes([l']) == l.s.data + bytes;
  }

  lemma {:induction false} SplitBytes(bytes: seq<Byte>, pos: int, maxLen: nat, queuelen: int, budget: nat)
    requires Split(bytes, pos, maxLen, queuelen, budget).Some?
    ensures Bytes(Split(bytes, pos, maxLen, queuelen, budget).value) == bytes
    decreases TCP_SND_QUEUELEN + 2 - queuelen
  {
    if bytes != [] {
      var n := if |bytes| > maxLen then maxLen else |bytes|;
      SplitBytes(bytes[n..], pos + n, maxLen, queuelen + 2, budget - 1);
      assert Split(bytes, pos, maxLen, queuelen, budget).value[1..]
          == Split(bytes[n..], pos + n, maxLen, queuelen + 2, budget - 1).value;
    }
  }

  lemma {:induction false} KeptFacts(p: Snd, arg: seq<Byte>, ext: nat)
    requires ext <= |arg| && (ext > 0 ==> p.unsent != [])
    ensures var k := Kept(p, arg, ext);
      && |k| == |p.unsent| && Bytes(k) == Bytes(p.unsent) + arg[..ext]
      && Pbufs(k) == Pbufs(p.unsent) + Used(ext)
  {
    if ext > 0 {
      BytesExtend(p.unsent, arg[..ext]);
      PbufsExtend(p.unsent, arg[..ext]);
    }
  }

  /** The grown segment still respects the local MSS if it did before. */
  lemma {:induction false} KeptRespectsMss(p: Snd, arg: seq<Byte>)
    requires p.unsent != [] && |p.unsent[|p.unsent|-1].s.data| <= MssLocal(p) < 0x1_0000
    ensures |Kept(p, arg, Extension(p, |arg|))[|p.unsent|-1].s.data| <= MssLocal(p)
  {
  }

  lemma {:induction false} AddedFacts(p: Snd, arg: seq<Byte>, ext: nat, budget: nat)
    requires ext <= |arg| && Added(p, arg, ext, budget).Some?
    ensures var t := Added(p, arg, ext, budget).value;
      && Tile([], t, p.lbb + ext, p.lbb + |arg|)
      && Bytes(t) == arg[ext..] && Pbufs(t) == 2 * |t|
      && (t != [] ==> p.queuelen + Used(ext) + 2 * |t| <= TCP_SND_QUEUELEN)
      && (forall i | 0 <= i < |t| :: 0 < |t[i].s.data| <= MssLocal(p) && !t[i].s.fin)
  {
    SplitBytes(arg[ext..], p.lbb + ext, MssLocal(p), p.queuelen + Used(ext), budget - Used(ext));
    SplitTiles(arg[ext..], p.lbb + ext, MssLocal(p), p.queuelen + Used(ext), budget - Used(ext));
  }

  lemma {:induction false} CommitBytes(p: Snd, arg: seq<Byte>, ext: nat, budget: nat)
    requires ext <= |arg| && (ext > 0 ==> p.unsent != []) && Added(p, arg, ext, budget).Some?
    ensures Bytes(Kept(p, arg, ext) + Added(p, arg, ext, budget).value) == Bytes(p.unsent) + arg
  {
    KeptFacts(p, arg, ext);
    AddedFacts(p, arg, ext, budget);
    BytesAppend(Kept(p, arg, ext), Added(p, arg, ext, budget).value);
    assert Bytes(p.unsent) + arg[..ext] + arg[ext..] == Bytes(p.unsent) + arg;
  }

  /** A successful write appends exactly the argument to the unsent bytes, in segments that
      respect the local MSS and the queue limit, and touches nothing else. */
  lemma {:induction false} WriteTransaction(p: Snd, arg: seq<Byte>, budget: nat)
    requires Write(p, arg, budget).Some?
    ensures var p' := Write(p, arg, budget).value;
      && Bytes(p'.unsent) == Bytes(p.unsent) + arg
      && p' == p.(unsent := p'.unsent, lbb := p.lbb + |arg|, buf := p.buf - |arg|, queuelen := p'.queuelen)
      && (arg != [] ==> p'.queuelen <= TCP_SND_QUEUELEN && |arg| <= p.buf)
      && (forall i | |p.unsent| <= i < |p'.unsent| :: 0 < |p'.unsent[i].s.data| <= MssLocal(p))
  {
    if arg != [] {
      var ext := Extension(p, |arg|);
      KeptFacts(p, arg, ext);
      AddedFacts(p, arg, ext, budget);
      CommitBytes(p, arg, ext, budget);
    } else {
      assert Bytes(p.unsent) + arg == Bytes(p.unsent);
    }
  }

  lemma {:induction false} KeptTile(p: Snd, arg: seq<Byte>, ext: nat, lo: int)
    requires ext <= |arg| && (ext > 0 ==> p.unsent != [] && p.unsent[|p.unsent|-1].Next() == p.lbb)
    requires Tile(p.unacked, p.unsent, lo, p.lbb)
    ensures Tile(p.unacked, Kept(p, arg, ext), lo, p.lbb + ext)
  {
    if ext > 0 {
      TileExtendLast(p.unacked, p.unsent, lo, p.lbb, arg[..ext]);
    }
  }

  lemma {:induction false} CommitTile(p: Snd, arg: seq<Byte>, ext: nat, budget: nat, lo: int)
    requires ext <= |arg| && (ext > 0 ==> p.unsent != [] && p.unsent[|p.unsent|-1].Next() == p.lbb)
    requires Tile(p.unacked, p.unsent, lo, p.lbb) && Added(p, arg, ext, budget).Some?
    ensures Tile(p.unacked, Kept(p, arg, ext) + Added(p, arg, ext, budget).value, lo, p.lbb + |arg|)
  {
    KeptTile(p, arg, ext, lo);
    AddedFacts(p, arg, ext, budget);
    TileAppend(p.unacked, Kept(p, arg, ext), Added(p, arg, ext, budget).value, lo, p.lbb + ext, p.lbb + |arg|);
  }

  lemma {:induction false} CommitPbufs(p: Snd, arg: seq<Byte>, ext: nat, budget: nat)
    requires ext <= |arg| && (ext > 0 ==> p.unsent != []) && Added(p, arg, ext, budget).Some?
    ensures var added := Added(p, arg, ext, budget).value;
      Pbufs(Kept(p, arg, ext) + added) == Pbufs(p.unsent) + Used(ext) + 2 * |added|
  {
    KeptFacts(p, arg, ext);
    AddedFacts(p, arg, ext, budget);
    PbufsAppend(Kept(p, arg, ext), Added(p, arg, ext, budget).value);
  }

  /** Open for writing: everything queued ends beyond ackno and carries no FIN. */
  predicate Open(q: seq<TxSeg>, ackno: int) {
    AllAbove(q, ackno) && NoFin(q)
  }

  lemma {:induction false} OpenAppend(a: seq<TxSeg>, b: seq<TxSeg>, ackno: int)
    requires Open(a, ackno) && Open(b, ackno)
    ensures Open(a + b, ackno)
  {
  }

  lemma {:induction false} CommitOpen(p: Snd, arg: seq<Byte>, ext: nat, budget: nat)
    requires ext <= |arg| && (ext > 0 ==> p.unsent != []) && Added(p, arg, ext, budget).Some?
    requires Open(p.unsent, p.lastack) && p.lastack <= p.lbb
    ensures Open(Kept(p, arg, ext) + Added(p, arg, ext, budget).value, p.lastack)
  {
    AddedFacts(p, arg, ext, budget);
    TileBounds([], Added(p, arg, ext, budget).value, p.lbb + ext, p.lbb + |arg|);
    OpenAppend(Kept(p, arg, ext), Added(p, arg, ext, budget).value, p.lastack);
  }

  /** Committing keeps the invariant if the new unsent queue has the right shape. */
  lemma {:induction false} CommittedInv(p: Snd, arg: seq<Byte>, ext: nat, added: seq<TxSeg>)
    requires ext <= |arg| && (ext > 0 ==> p.unsent != [])
    requires SenderInv(p) && Open(Kept(p, arg, ext) + added, p.lastack)
    requires Tile(p.unacked, Kept(p, arg, ext) + added, First(p.unacked, p.unsent, p.lbb), p.lbb + |arg|)
    requires Pbufs(Kept(p, arg, ext) + added) == Pbufs(p.unsent) + Used(ext) + 2 * |added|
    ensures SenderInv(Commit(p, arg, ext, added))
  {
    TileFirst(p.unacked, Kept(p, arg, ext) + added, First(p.unacked, p.unsent, p.lbb), p.lbb + |arg|);
  }

  lemma {:induction false} CommitInv(p: Snd, arg: seq<Byte>, ext: nat, budget: nat)
    requires ext <= |arg| && (ext > 0 ==> p.unsent != [] && p.unsent[|p.unsent|-1].Next() == p.lbb)
    requires SenderInv(p) && !p.finQueued && Added(p, arg, ext, budget).Some?
    ensures SenderInv(Commit(p, arg, ext, Added(p, arg, ext, budget).value))
  {
    CommitTile(p, arg, ext, budget, First(p.unacked, p.unsent, p.lbb));
    CommitOpen(p, arg, ext, budget);
    CommitPbufs(p, arg, ext, budget);
    CommittedInv(p, arg, ext, Added(p, arg, ext, budget).value);
  }

  /** The write would grow the last unsent segment although later data is already queued. */
  predicate GrowsInside(p: Snd, arg: seq<Byte>) {
    Extension(p, |arg|) > 0 && p.unsent[|p.unsent|-1].Next() < p.lbb
  }

  lemma {:induction false} WriteInv(p: Snd, arg: seq<Byte>, budget: nat)
    requires SenderInv(p) && Write(p, arg, budget).Some? && !GrowsInside(p, arg)
    ensures SenderInv(Write(p, arg, budget).value)
  {
    if arg != [] {
      TileBounds(p.unacked, p.unsent, First(p.unacked, p.unsent, p.lbb), p.lbb);
      CommitInv(p, arg, Extension(p, |arg|), budget);
    }
  }

  // ---------------------------------------------------------------- where it breaks

  /** Whatever ends before hi is followed by a segment that starts right there. */
  lemma {:induction false} TileSuccessor(u: seq<TxSeg>, s: seq<TxSeg>, lo: int, hi: int, j: nat)
    requires Tile(u, s, lo, hi) && j < |s| && s[j].Next() < hi
    ensures (exists i :: 0 <= i < |u| && u[i].s.seqno == s[j].Next())
         || (j + 1 < |s| && s[j+1].s.seqno == s[j].Next())
    decreases |u| + |s|
  {
    if u != [] && u[0].s.seqno == lo && lo < u[0].Next() && Tile(u[1..], s, u[0].Next(), hi) {
      TileSuccessor(u[1..], s, u[0].Next(), hi, j);
      if i :| 0 <= i < |u[1..]| && u[1..][i].s.seqno == s[j].Next() {
        assert u[i+1].s.seqno == s[j].Next();
      }
    } else if j > 0 {
      TileSuccessor(u, s[1..], s[0].Next(), hi, j - 1);
    } else {
      TileFirst(u, s[1..], s[0].Next(), hi);
      assert (u != [] && u[0].s.seqno == s[0].Next()) || (|s| > 1 && s[1].s.seqno == s[0].Next());
    }
  }

  /** Two segments on different queues do not overlap. */
  lemma {:induction false} TileDisjoint(u: seq<TxSeg>, s: seq<TxSeg>, lo: int, hi: int, i: nat, j: nat)
    requires Tile(u, s, lo, hi) && i < |u| && j < |s|
    ensures u[i].Next() <= s[j].s.seqno || s[j].Next() <= u[i].s.seqno
    decreases |u| + |s|
  {
    if u[0].s.seqno == lo && lo < u[0].Next() && Tile(u[1..], s, u[0].Next(), hi) {
      TileBounds(u[1..], s, u[0].Next(), hi);
      if i > 0 { TileDisjoint(u[1..], s, u[0].Next(), hi, i - 1, j); }
    } else {
      TileBounds(u, s[1..], s[0].Next(), hi);
      if j > 0 { TileDisjoint(u, s[1..], s[0].Next(), hi, i, j - 1); }
    }
  }

  /** tcp_write keeps the invariant exactly when it does not grow a segment that later data
      follows, as the last unsent one is after a fast retransmit the window held back. */
  lemma {:induction false} WriteKeepsInvIff(p: Snd, arg: seq<Byte>, budget: nat)
    requires SenderInv(p) && Write(p, arg, budget).Some?
    ensures SenderInv(Write(p, arg, budget).value) <==> !GrowsInside(p, arg)
  {
    if !GrowsInside(p, arg) {
      WriteInv(p, arg, budget);
    } else {
      var j := |p.unsent| - 1;
      TileSuccessor(p.unacked, p.unsent, First(p.unacked, p.unsent, p.lbb), p.lbb, j);
      var i :| 0 <= i < |p.unacked| && p.unacked[i].s.seqno == p.unsent[j].Next();
      TileBounds(p.unacked, p.unsent, First(p.unacked, p.unsent, p.lbb), p.lbb);
      var p' := Write(p, arg, budget).value;
      assert p'.unsent[j] == Kept(p, arg, Extension(p, |arg|))[j];
      if SenderInv(p') {
        TileDisjoint(p'.unacked, p'.unsent, First(p'.unacked, p'.unsent, p'.lbb), p'.lbb, i, j);
      }
    }
  }

  lemma {:induction false} TileJoin(u: seq<TxSeg>, s: seq<TxSeg>, lo: int, hi: int)
    requires Tile(u, s, lo, hi)
    requires u == [] || s == [] || u[|u|-1].s.seqno < s[0].s.seqno
    ensures Tile([], u + s, lo, hi)
    decreases |u|
  {
    if u == [] {
      assert u + s == s;
    } else {
      if s != [] {
        TileSorted(u, s, lo, hi);
        TileFirst(u, s, lo, hi);
        assert u[0].s.seqno == lo;
        if |s| > 0 && s[0].s.seqno == lo { assert false; }
      }
      assert Tile(u[1..], s, u[0].Next(), hi);
      assert |u| > 1 ==> u[1..][|u|-2] == u[|u|-1];
      TileJoin(u[1..], s, u[0].Next(), hi);
      assert (u + s)[1..] == u[1..] + s;
    }
  }

  /** tcp_rexmit_rto keeps the unsent queue sorted exactly when no unsent segment is older
      than an unacked one. */
  lemma {:induction false} RtoKeepsInvIff(p: Snd)
    requires SenderInv(p)
    ensures SenderInv(RexmitRto(p)) <==>
      (p.unacked == [] || p.unsent == [] || p.unacked[|p.unacked|-1].s.seqno < p.unsent[0].s.seqno)
  {
    var lo := First(p.unacked, p.unsent, p.lbb);
    var q := p.unacked + p.unsent;
    assert p.unacked != [] ==> q[|p.unacked|-1] == p.unacked[|p.unacked|-1];
    assert p.unsent != [] ==> q[|p.unacked|] == p.unsent[0];
    if p.unacked == [] || p.unsent == [] || p.unacked[|p.unacked|-1].s.seqno < p.unsent[0].s.seqno {
      TileJoin(p.unacked, p.unsent, lo, p.lbb);
      TileFirst([], q, lo, p.lbb);
      PbufsAppend(p.unacked, p.unsent);
    } else if SenderInv(RexmitRto(p)) {
      TileSorted([], q, First([], q, p.lbb), p.lbb);
    }
  }

  lemma {:induction false} EnqueueFinInv(p: Snd, ok: bool)
    requires SenderInv(p) && EnqueueFin(p, ok).Some?
    ensures SenderInv(EnqueueFin(p, ok).value)
  {
    var lo := First(p.unacked, p.unsent, p.lbb);
    var f := [TxSeg(Segment(p.lbb, [], true), 1)];
    assert Tile([], f, p.lbb, p.lbb + 1) by { assert f[1..] == []; }
    TileAppend(p.unacked, p.unsent, f, lo, p.lbb, p.lbb + 1);
    TileFirst(p.unacked, p.unsent + f, lo, p.lbb + 1);
    PbufsAppend(p.unsent, f);
    assert Pbufs(f) == 1;
  }

  /** tcp_send_fin keeps the invariant exactly when the FIN gets a segment of its own: a FIN
      set on a data segment takes a position that snd_lbb never counts. */
  lemma {:induction false} SendFinKeepsInvIff(p: Snd, ok: bool)
    requires SenderInv(p) && SendFin(p, ok).Some?
    ensures SenderInv(SendFin(p, ok).value) <==> (p.unsent == [] || p.unsent[|p.unsent|-1].s.fin)
  {
    if p.unsent == [] || p.unsent[|p.unsent|-1].s.fin {
      EnqueueFinInv(p, ok);
    } else {
      var lo := First(p.unacked, p.unsent, p.lbb);
      var j := |p.unsent| - 1;
      TileBounds(p.unacked, p.unsent, lo, p.lbb);
      var p' := SendFin(p, ok).value;
      if SenderInv(p') {
        TileBounds(p'.unacked, p'.unsent, First(p'.unacked, p'.unsent, p'.lbb), p'.lbb);
        assert p'.unsent[j].Next() == p.unsent[j].Next() + 1;
        TileSuccessor(p.unacked, p.unsent, lo, p.lbb, j);
        var i :| 0 <= i < |p.unacked| && p.unacked[i].s.seqno == p.unsent[j].Next();
        TileDisjoint(p'.unacked, p'.unsent, First(p'.unacked, p'.unsent, p'.lbb), p'.lbb, i, j);
      }
    }
  }

  // ---------------------------------------------------------------- whole runs

  datatype Event =
    | WriteEv(arg: seq<Byte>, budget: nat)
    | OutputEv(wnd: nat, pushNow: bool)
    | AckEv(ackno: int, fast: bool)
    | RtoEv
    | FinEv(ok: bool)
    | WindowEv(wndMax: nat)

  /** A refused call leaves the connection as it was. */
  function OrSame(r: Option<Snd>, p: Snd): Snd {
    match r
    case None => p
    case Some(p') => p'
  }

  function Step(p: Snd, e: Event): Snd {
    match e
    case WriteEv(arg, budget) => OrSame(Write(p, arg, budget), p)
    case OutputEv(wnd, pushNow) => Output(p, wnd, pushNow).0
    case AckEv(ackno, fast) => Ack(p, ackno, fast)
    case RtoEv => RexmitRto(p)
    case FinEv(ok) => OrSame(SendFin(p, ok), p)
    case WindowEv(w) => p.(wndMax := w)
  }

  /** The three calls that need care, each with the condition under which it is harmless. */
  predicate Harmless(p: Snd, e: Event) {
    match e
    case WriteEv(arg, budget) => !GrowsInside(p, arg)
    case RtoEv => p.unacked == [] || p.unsent == [] || p.unacked[|p.unacked|-1].s.seqno < p.unsent[0].s.seqno
    case FinEv(ok) => p.unsent == [] || p.unsent[|p.unsent|-1].s.fin
    case _ => true
  }

  /** A step keeps the invariant exactly when it is harmless or refused. */
  lemma {:induction false} StepKeepsInvIff(p: Snd, e: Event)
    requires SenderInv(p)
    ensures SenderInv(Step(p, e)) <==> (Harmless(p, e) || Step(p, e) == p)
  {
    match e
    case WriteEv(arg, budget) => if Write(p, arg, budget).Some? { WriteKeepsInvIff(p, arg, budget); }
    case OutputEv(wnd, pushNow) => OutputInv(p, wnd, pushNow);
    case AckEv(ackno, fast) => AckInv(p, ackno, fast);
    case RtoEv => RtoKeepsInvIff(p);
    case FinEv(ok) => if SendFin(p, ok).Some? { SendFinKeepsInvIff(p, ok); }
    case WindowEv(w) =>
  }

  function Run(p: Snd, events: seq<Event>): Snd
    decreases |events|
  {
    if events == [] then p else Run(Step(p, events[0]), events[1..])
  }

  /** Every step of the run is harmless or refused. */
  predicate AllHarmless(p: Snd, events: seq<Event>)
    decreases |events|
  {
    events == [] ||
      ((Harmless(p, events[0]) || Step(p, events[0]) == p) && AllHarmless(Step(p, events[0]), events[1..]))
  }

  /** The queues tile before, during and after the run. */
  predicate AlwaysTile(p: Snd, events: seq<Event>)
    decreases |events|
  {
    SenderInv(p) && (events != [] ==> AlwaysTile(Step(p, events[0]), events[1..]))
  }

  /** Across any run of write, output, ACK, fast retransmit, timeout and close: the queues tile
      all the way if and only if every step is harmless or refused. */
  lemma {:induction false} QueuesAlwaysTile(p: Snd, events: seq<Event>)
    requires SenderInv(p)
    ensures AlwaysTile(p, events) <==> AllHarmless(p, events)
    ensures AllHarmless(p, events) ==> SenderInv(Run(p, events))
    decreases |events|
  {
    hide SenderInv, Harmless, Step;
    if events != [] {
      StepKeepsInvIff(p, events[0]);
      if SenderInv(Step(p, events[0])) {
        QueuesAlwaysTile(Step(p, events[0]), events[1..]);
      }
    }
  }

  /** The same from a fresh connection. */
  lemma {:induction false} FreshQueuesTile(iss: int, mss: nat, wndMax: nat, events: seq<Event>)
    ensures AlwaysTile(Fresh(iss, mss, wndMax), events) <==> AllHarmless(Fresh(iss, mss, wndMax), events)
    ensures AllHarmless(Fresh(iss, mss, wndMax), events) ==> SenderInv(Run(Fresh(iss, mss, wndMax), events))
  {
    FreshInv(iss, mss, wndMax);
    QueuesAlwaysTile(Fresh(iss, mss, wndMax), events);
  }

  lemma {:induction false} FreshInv(iss: int, mss: nat, wndMax: nat)
    ensures SenderInv(Fresh(iss, mss, wndMax))
  {
  }
}
