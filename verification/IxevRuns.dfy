/** Any mix of sends, callbacks, partial accepts and acknowledgments. */
module IxevRuns {
  import opened Segments
  import opened Wrappers
  import opened IxevSend
  import opened IxevProofs

  datatype Event =
    | Copy(data: seq<Byte>, pool: nat)
    | Lend(id: nat, content: seq<Byte>, off: nat, len: nat)
    | Callback(id: nat)
    | Accepted(ret: int)
    | Acked(len: nat)

  /** The kernel takes no more than it was given and acknowledges no more than it took. */
  predicate Allowed(c: Ctx, e: Event)
    requires Inv(c)
  {
    match e
    case Copy(_, _) => true
    case Lend(id, content, off, len) => off + len <= |content| && MayLend(c, id, content)
    case Callback(_) => true
    case Accepted(ret) => ret <= |Pending(c.send, c.mem)|
    case Acked(len) => c.sentTotal + len <= |c.kernel|
  }

  function Step(c: Ctx, e: Event): (c': Ctx)
    requires Inv(c) && Allowed(c, e)
    ensures Inv(c')
  {
    match e
    case Copy(data, pool) => SendInv(c, data, pool); Send(c, data, pool).0
    case Lend(id, content, off, len) => SendZcInv(c, id, content, off, len); SendZc(c, id, content, off, len).0
    case Callback(id) => AddSentCbInv(c, id); AddSentCb(c, App(id))
    case Accepted(ret) => HandleRetInv(c, ret); HandleSendvRet(c, ret)
    case Acked(len) => TcpSentInv(c, len); TcpSent(c, len)
  }

  predicate AllAllowed(c: Ctx, es: seq<Event>)
    requires Inv(c)
    decreases |es|
  {
    es != [] ==> Allowed(c, es[0]) && AllAllowed(Step(c, es[0]), es[1..])
  }

  function Run(c: Ctx, es: seq<Event>): (c': Ctx)
    requires Inv(c) && AllAllowed(c, es)
    ensures Inv(c')
    decreases |es|
  {
    if es == [] then c else Run(Step(c, es[0]), es[1..])
  }

  lemma FreshInv()
    ensures Inv(Fresh())
  {
  }

  /** The stream theorem: bytes taken by the kernel followed by the bytes pending are those taken
      from the application, in order; the window is respected; and neither a pending nor an
      unacknowledged byte lies in a region whose callback has fired. */
  lemma {:induction false} SendStream(es: seq<Event>)
    ensures Inv(Fresh())
    ensures AllAllowed(Fresh(), es) ==>
      var c := Run(Fresh(), es);
      && Valid(c.send, c.mem) && c.kernel + Pending(c.send, c.mem) == c.accepted
      && c.sendTotal - c.sentTotal <= IXEV_SEND_WIN_SIZE
      && (forall i | 0 <= i < |c.send| :: c.send[i].region !in c.released)
      && (forall k | 0 <= k < |c.owner| :: c.owner[k] in c.released ==> k < c.sentTotal)
  {
    FreshInv();
    if AllAllowed(Fresh(), es) {
      var c := Run(Fresh(), es);
      forall i | 0 <= i < |c.send| ensures c.send[i].region !in c.released {
        PendingNotReleased(c, i);
      }
    }
  }

  lemma {:induction false} RunOne(c: Ctx, e: Event)
    requires Inv(c) && Allowed(c, e)
    ensures AllAllowed(c, [e]) && Run(c, [e]) == Step(c, e)
  {
    hide Inv, Allowed, Step;
    assert [e][1..] == [];
  }

  lemma {:induction false} RunAppend(c: Ctx, es: seq<Event>, fs: seq<Event>)
    requires Inv(c) && AllAllowed(c, es) && AllAllowed(Run(c, es), fs)
    ensures AllAllowed(c, es + fs) && Run(c, es + fs) == Run(Run(c, es), fs)
    decreases |es|
  {
    hide Inv, Allowed, Step;
    if es == [] {
      assert es + fs == fs;
    } else {
      RunAppend(Step(c, es[0]), es[1..], fs);
      assert (es + fs)[1..] == es[1..] + fs;
    }
  }

  // ---------------------------------------------------------------- how much is taken

  /** New buffers take what is left of the data as far as array and pool reach. */
  lemma {:induction false} ColdAmount(c: Ctx, data: seq<Byte>, pool: nat)
    ensures ColdPath(c, data, pool).1 == Min(|data|, BUF_SIZE * Min(pool, Free(c)))
    decreases |data|
  {
    hide ColdStep;
    if data != [] && |c.send| < IXEV_SEND_DEPTH && pool > 0 {
      var k := Min(|data|, BUF_SIZE);
      ColdStepFills(c, data);
      ColdAmount(ColdStep(c, data), data[k..], pool - 1);
    }
  }

  /** Free places in the array. */
  function Free(c: Ctx): nat {
    if |c.send| >= IXEV_SEND_DEPTH then 0 else IXEV_SEND_DEPTH - |c.send|
  }

  lemma {:induction false} ColdStepFills(c: Ctx, data: seq<Byte>)
    ensures |ColdStep(c, data).send| == |c.send| + 1
  {
  }

  /** What the current buffer still takes of len bytes. */
  function HotAmount(c: Ctx, len: nat): nat {
    if !Hot(c) || |c.mem[c.cur.value]| >= BUF_SIZE then 0 else Min(len, BUF_SIZE - |c.mem[c.cur.value]|)
  }

  /** A copying send takes all the window lets through, as far as the current buffer, the array and
      the pool reach, and says exactly how much that was. */
  lemma {:induction false} SendAmount(c: Ctx, data: seq<Byte>, pool: nat)
    requires Inv(c)
    ensures
      var len := Min(IXEV_SEND_WIN_SIZE - (c.sendTotal - c.sentTotal), |data|);
      var r := Send(c, data, pool).1;
      if c.dead then r == EIO
      else if len == 0 then r == EAGAIN
      else
        var k := HotAmount(c, len);
        var n := k + Min(len - k, BUF_SIZE * Min(pool, Free(c)));
        r == if n == 0 then ENOBUFS else Sent(n)
  {
    hide Inv, HotPath, ColdPath;
    InvCounted(c);
    WindowExact(c, |data|);
    var len := WindowLen(c, |data|);
    if !c.dead && len > 0 {
      var (c1, k) := if Hot(c) then HotPath(c, data[..len]) else (c, 0);
      HotFills(c, data[..len]);
      ColdAmount(c1, data[k..len], pool);
    }
  }

  lemma {:induction false} HotFills(c: Ctx, data: seq<Byte>)
    ensures Hot(c) ==> HotPath(c, data).1 == HotAmount(c, |data|) && |HotPath(c, data).0.send| == |c.send|
  {
  }

  /** A zero-copy send takes exactly what the window lets through, if the array has a place. */
  lemma {:induction false} SendZcAmount(c: Ctx, id: nat, content: seq<Byte>, off: nat, len: nat)
    requires Inv(c) && off + len <= |content|
    ensures
      var n := Min(IXEV_SEND_WIN_SIZE - (c.sendTotal - c.sentTotal), len);
      SendZc(c, id, content, off, len).1 ==
        if c.dead then EIO else if n == 0 then EAGAIN else if Free(c) == 0 then ENOBUFS else Sent(n)
  {
    hide Inv;
    InvCounted(c);
    WindowExact(c, len);
  }

  // ---------------------------------------------------------------- errors are final

  /** An error from the kernel ends the stream: the context is dead, and nothing else changes. */
  lemma {:induction false} ErrorKills(c: Ctx, ret: int)
    requires Inv(c) && ret < 0
    ensures Valid(c.send, c.mem) && HandleSendvRet(c, ret) == c.(dead := true)
  {
  }

  lemma {:induction false} DeadStep(c: Ctx, e: Event)
    requires Inv(c) && Allowed(c, e) && c.dead
    ensures Step(c, e).dead && Step(c, e).accepted == c.accepted
  {
  }

  /** From then on, whatever happens, nothing is accepted any more and every send fails. */
  lemma {:induction false} DeadForever(c: Ctx, es: seq<Event>)
    requires Inv(c) && AllAllowed(c, es) && c.dead
    ensures var c' := Run(c, es);
      && c'.dead && c'.accepted == c.accepted
      && (forall data: seq<Byte>, pool: nat :: Send(c', data, pool) == (c', EIO))
    decreases |es|
  {
    hide Inv, Allowed, Step;
    if es != [] {
      DeadStep(c, es[0]);
      DeadForever(Step(c, es[0]), es[1..]);
    }
  }

  /** And only an error kills it. */
  lemma {:induction false} OnlyErrorsKill(c: Ctx, e: Event)
    requires Inv(c) && Allowed(c, e) && !c.dead
    ensures Step(c, e).dead <==> e.Accepted? && e.ret < 0
  {
    hide Inv;
    match e
    case Copy(data, pool) => SendLives(c, data, pool);
    case _ =>
  }

  lemma {:induction false} SendLives(c: Ctx, data: seq<Byte>, pool: nat)
    ensures Send(c, data, pool).0.dead == c.dead
  {
    hide ColdPath, HotPath;
    var len := WindowLen(c, |data|);
    var (c1, k) := if Hot(c) then HotPath(c, data[..len]) else (c, 0);
    HotLives(c, data[..len]);
    ColdLives(c1, data[k..len], pool);
  }

  lemma {:induction false} HotLives(c: Ctx, data: seq<Byte>)
    ensures Hot(c) ==> HotPath(c, data).0.dead == c.dead
  {
  }

  lemma {:induction false} ColdLives(c: Ctx, data: seq<Byte>, pool: nat)
    ensures ColdPath(c, data, pool).0.dead == c.dead
    decreases |data|
  {
    if data != [] && |c.send| < IXEV_SEND_DEPTH && pool > 0 {
      ColdLives(ColdStep(c, data), data[Min(|data|, BUF_SIZE)..], pool - 1);
    }
  }
}
