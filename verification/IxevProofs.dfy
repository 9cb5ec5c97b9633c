/** What every operation on an ixev connection keeps. */
module IxevProofs {
  import opened Segments
  import opened Wrappers
  import opened IxevSend

  /** From stream position p on, the entries name the regions the bytes lie in. */
  predicate Owned(send: seq<Entry>, owner: seq<Region>, p: nat) {
    if send == [] then p == |owner|
    else
      && p + send[0].len <= |owner|
      && (forall j | p <= j < p + send[0].len :: owner[j] == send[0].region)
      && Owned(send[1..], owner, p + send[0].len)
  }

  /** A callback's position is beyond every byte of its region. */
  predicate Covers(refs: seq<Ref>, owner: seq<Region>) {
    forall i, k | 0 <= i < |refs| && 0 <= k < |owner| :: owner[k] == refs[i].region ==> k < refs[i].pos
  }

  predicate Older(r: Region, nextBuf: nat) {
    r.Buf? ==> r.id < nextBuf
  }

  /** Buffers get new names, and none is over full. */
  predicate Named(mem: map<Region, seq<Byte>>, owner: seq<Region>, refs: seq<Ref>, released: set<Region>,
      nextBuf: nat) {
    && (forall r | r in mem :: Older(r, nextBuf) && (r.Buf? ==> |mem[r]| <= BUF_SIZE))
    && (forall k | 0 <= k < |owner| :: Older(owner[k], nextBuf))
    && (forall i | 0 <= i < |refs| :: Older(refs[i].region, nextBuf))
    && (forall r | r in released :: Older(r, nextBuf))
  }

  /** The last entry ends where the current buffer ends. */
  predicate TailIsCurrent(cur: Option<Region>, send: seq<Entry>, mem: map<Region, seq<Byte>>) {
    cur.Some? ==>
      && cur.value.Buf? && cur.value in mem
      && (send != [] ==> EndsIn(send[|send| - 1], cur.value, |mem[cur.value]|))
  }

  predicate EndsIn(e: Entry, r: Region, end: nat) {
    e.region == r && e.off + e.len == end
  }

  /** What went to the kernel followed by what is pending is what came from the application. */
  predicate Stream(send: seq<Entry>, mem: map<Region, seq<Byte>>, kernel: seq<Byte>, accepted: seq<Byte>) {
    Valid(send, mem) && kernel + Pending(send, mem) == accepted
  }

  predicate Counted(c: Ctx) {
    && c.sentTotal <= |c.kernel| <= c.sendTotal <= c.sentTotal + IXEV_SEND_WIN_SIZE
    && |c.send| <= IXEV_SEND_DEPTH && |c.owner| == |c.accepted| == c.sendTotal
  }

  /** No callback is due before its region is acknowledged, and none has fired before. */
  predicate Safe(refs: seq<Ref>, owner: seq<Region>, released: set<Region>, sentTotal: nat) {
    && Covers(refs, owner)
    && (forall i | 0 <= i < |refs| :: refs[i].pos <= |owner|)
    && (forall k | 0 <= k < |owner| :: owner[k] in released ==> k < sentTotal)
  }

  predicate Inv(c: Ctx) {
    && Stream(c.send, c.mem, c.kernel, c.accepted)
    && Owned(c.send, c.owner, |c.kernel|)
    && Counted(c)
    && Safe(c.refs, c.owner, c.released, c.sentTotal)
    && Named(c.mem, c.owner, c.refs, c.released, c.nextBuf)
    && TailIsCurrent(c.cur, c.send, c.mem)
  }

  // ---------------------------------------------------------------- entries and the bytes they name

  lemma {:induction false} PendingAppend(send: seq<Entry>, e: Entry, mem: map<Region, seq<Byte>>)
    requires Valid(send, mem) && ValidEntry(e, mem)
    ensures Valid(send + [e], mem) && Pending(send + [e], mem) == Pending(send, mem) + Bytes(e, mem)
  {
    if send == [] {
      assert send + [e] == [e] && [e][1..] == [];
    } else {
      PendingAppend(send[1..], e, mem);
      assert (send + [e])[1..] == send[1..] + [e];
    }
  }

  predicate Extends(mem: map<Region, seq<Byte>>, mem': map<Region, seq<Byte>>) {
    forall r | r in mem :: r in mem' && mem[r] <= mem'[r]
  }

  /** Adding regions, or bytes at the end of one, does not change what entries point to. */
  lemma {:induction false} PendingSame(send: seq<Entry>, mem: map<Region, seq<Byte>>, mem': map<Region, seq<Byte>>)
    requires Valid(send, mem) && Extends(mem, mem')
    ensures Valid(send, mem') && Pending(send, mem') == Pending(send, mem)
  {
    if send != [] {
      PendingSame(send[1..], mem, mem');
    }
  }

  lemma {:induction false} OwnedAppend(send: seq<Entry>, owner: seq<Region>, p: nat, e: Entry)
    requires Owned(send, owner, p)
    ensures Owned(send + [e], owner + Repeat(e.region, e.len), p)
    decreases |send|
  {
    if send == [] {
      assert send + [e] == [e] && [e][1..] == [];
    } else {
      OwnedAppend(send[1..], owner, p + send[0].len, e);
      assert (send + [e])[1..] == send[1..] + [e];
    }
  }

  lemma {:induction false} OwnedGrow(send: seq<Entry>, owner: seq<Region>, p: nat, k: nat)
    requires Owned(send, owner, p) && send != []
    ensures Owned(Lengthened(send, k), owner + Repeat(send[|send| - 1].region, k), p)
    decreases |send|
  {
    if |send| == 1 {
      var send' := Lengthened(send, k);
      assert send'[1..] == [] && send[1..] == [];
      assert send'[0] == send[0].(len := send[0].len + k) && p + send[0].len == |owner|;
      var owner' := owner + Repeat(send[0].region, k);
      assert forall j | p <= j < |owner'| :: owner'[j] == send[0].region;
      assert Owned(send'[1..], owner', |owner'|);
    } else {
      OwnedGrow(send[1..], owner, p + send[0].len, k);
      assert Lengthened(send[1..], k) == Lengthened(send, k)[1..];
    }
  }

  /** Every entry has a byte at or beyond p. */
  lemma {:induction false} EntryHasByte(send: seq<Entry>, owner: seq<Region>, p: nat, i: nat)
    requires Owned(send, owner, p) && i < |send| && forall i | 0 <= i < |send| :: 1 <= send[i].len
    ensures exists k :: p <= k < |owner| && owner[k] == send[i].region
    decreases |send|
  {
    if i == 0 {
      assert owner[p] == send[i].region;
    } else {
      EntryHasByte(send[1..], owner, p + send[0].len, i - 1);
    }
  }

  /** No region that is still pending has been released. */
  lemma {:induction false} PendingNotReleased(c: Ctx, i: nat)
    requires Inv(c) && i < |c.send|
    ensures c.send[i].region !in c.released
  {
    EntryHasByte(c.send, c.owner, |c.kernel|, i);
  }

  lemma {:induction false} ShiftPending(send: seq<Entry>, ret: nat, mem: map<Region, seq<Byte>>)
    requires Valid(send, mem) && ret <= |Pending(send, mem)|
    ensures Valid(Shift(send, ret), mem) && Pending(Shift(send, ret), mem) == Pending(send, mem)[ret..]
    decreases |send|
  {
    if send != [] {
      if ret < send[0].len {
        var send' := Shift(send, ret);
        assert send'[1..] == send[1..];
        assert Bytes(send'[0], mem) == Bytes(send[0], mem)[ret..];
      } else {
        ShiftPending(send[1..], ret - send[0].len, mem);
        assert Pending(send, mem)[ret..] == Pending(send[1..], mem)[ret - send[0].len..];
      }
    }
  }

  lemma {:induction false} ShiftOwned(send: seq<Entry>, owner: seq<Region>, p: nat, ret: nat)
    requires Owned(send, owner, p) && p + ret <= |owner|
    ensures Owned(Shift(send, ret), owner, p + ret)
    decreases |send|
  {
    if send != [] {
      if ret < send[0].len {
        assert Shift(send, ret)[1..] == send[1..];
      } else {
        ShiftOwned(send[1..], owner, p + send[0].len, ret - send[0].len);
      }
    }
  }

  lemma {:induction false} ShiftTail(send: seq<Entry>, ret: nat)
    ensures var send' := Shift(send, ret);
      |send'| <= |send| && (send' != [] ==>
        var e, e' := send[|send| - 1], send'[|send'| - 1];
        e'.region == e.region && e'.off + e'.len == e.off + e.len)
    decreases |send|
  {
    if send != [] && ret >= send[0].len {
      ShiftTail(send[1..], ret - send[0].len);
    }
  }

  // ---------------------------------------------------------------- sends

  lemma {:induction false} StreamAppend(c: Ctx, e: Entry, data: seq<Byte>, mem: map<Region, seq<Byte>>)
    requires Stream(c.send, c.mem, c.kernel, c.accepted) && Extends(c.mem, mem)
    requires ValidEntry(e, mem) && Bytes(e, mem) == data
    ensures Stream(c.send + [e], mem, c.kernel, c.accepted + data)
  {
    PendingSame(c.send, c.mem, mem);
    PendingAppend(c.send, e, mem);
    hide Pending, Valid, Extends;
    assert c.kernel + (Pending(c.send, mem) + data) == c.kernel + Pending(c.send, mem) + data;
  }

  lemma {:induction false} PendingGrow(send: seq<Entry>, k: nat, mem: map<Region, seq<Byte>>)
    requires send != [] && Valid(send, mem)
    requires var last := send[|send| - 1]; last.off + last.len + k <= |mem[last.region]|
    ensures var last := send[|send| - 1];
      && Valid(Lengthened(send, k), mem)
      && Pending(Lengthened(send, k), mem) == Pending(send, mem)
        + mem[last.region][last.off + last.len..last.off + last.len + k]
  {
    var init, last := send[..|send| - 1], send[|send| - 1];
    assert send == init + [last];
    PendingAppend(init, last, mem);
    PendingAppend(init, last.(len := last.len + k), mem);
    var m := mem[last.region];
    assert m[last.off..last.off + last.len] + m[last.off + last.len..last.off + last.len + k]
      == m[last.off..last.off + last.len + k];
  }

  lemma {:induction false} StreamGrow(c: Ctx, b: Region, data: seq<Byte>, mem: map<Region, seq<Byte>>)
    requires Stream(c.send, c.mem, c.kernel, c.accepted) && Extends(c.mem, mem)
    requires c.send != [] && b in c.mem && EndsIn(c.send[|c.send| - 1], b, |c.mem[b]|) && mem[b] == c.mem[b] + data
    ensures Stream(Lengthened(c.send, |data|), mem, c.kernel, c.accepted + data)
  {
    PendingSame(c.send, c.mem, mem);
    PendingGrow(c.send, |data|, mem);
    hide Pending, Lengthened, Valid, Extends;
    assert mem[b][|c.mem[b]|..|c.mem[b]| + |data|] == data;
    assert c.kernel + (Pending(c.send, mem) + data) == c.kernel + Pending(c.send, mem) + data;
  }

  predicate Room(c: Ctx, n: nat) {
    c.sendTotal + n <= c.sentTotal + IXEV_SEND_WIN_SIZE
  }

  /** Bytes of a region that no callback and no release names, or whose callback moves with it. */
  lemma {:induction false} SafeTaken(c: Ctx, n: nat, r: Region, refs: seq<Ref>)
    requires Safe(c.refs, c.owner, c.released, c.sentTotal) && r !in c.released
    requires forall i | 0 <= i < |refs| ::
      refs[i] == Ref(r, |c.owner| + n) || (refs[i].region != r && refs[i] in c.refs)
    ensures Safe(refs, c.owner + Repeat(r, n), c.released, c.sentTotal)
  {
  }

  lemma {:induction false} NamedTaken(c: Ctx, n: nat, r: Region, data: seq<Byte>, refs: seq<Ref>, nextBuf: nat)
    requires Named(c.mem, c.owner, c.refs, c.released, c.nextBuf) && c.nextBuf <= nextBuf && Older(r, nextBuf)
    requires forall i | 0 <= i < |refs| :: refs[i].region == r || refs[i] in c.refs
    requires r.Buf? ==> |data| <= BUF_SIZE
    ensures Named(c.mem[r := data], c.owner + Repeat(r, n), refs, c.released, nextBuf)
  {
  }

  lemma {:induction false} ColdStepInv(c: Ctx, data: seq<Byte>)
    requires Inv(c) && data != [] && Room(c, |data|) && |c.send| < IXEV_SEND_DEPTH
    ensures Inv(ColdStep(c, data))
  {
    var c' := ColdStep(c, data);
    var b, k := Buf(c.nextBuf), Min(|data|, BUF_SIZE);
    assert b !in c.mem && b !in c.released && forall i | 0 <= i < |c.refs| :: c.refs[i].region != b;
    assert Stream(c'.send, c'.mem, c'.kernel, c'.accepted) by {
      StreamAppend(c, Entry(b, 0, k), data[..k], c'.mem);
    }
    assert Owned(c'.send, c'.owner, |c'.kernel|) by {
      OwnedAppend(c.send, c.owner, |c.kernel|, Entry(b, 0, k));
    }
    assert Safe(c'.refs, c'.owner, c'.released, c'.sentTotal) by {
      SafeTaken(c, k, b, c'.refs);
    }
    assert Named(c'.mem, c'.owner, c'.refs, c'.released, c'.nextBuf) by {
      NamedTaken(c, k, b, data[..k], c'.refs, c'.nextBuf);
    }
    hide Stream, Owned, Safe, Named;
  }

  lemma {:induction false} HotPathInv(c: Ctx, data: seq<Byte>)
    requires Inv(c) && Hot(c) && Room(c, |data|)
    ensures var (c', k) := HotPath(c, data);
      && Inv(c') && c'.accepted == c.accepted + data[..k] && c'.sentTotal == c.sentTotal && c'.dead == c.dead
  {
    var (c', k) := HotPath(c, data);
    var b := c.cur.value;
    assert Stream(c'.send, c'.mem, c'.kernel, c'.accepted) by {
      StreamGrow(c, b, data[..k], c'.mem);
    }
    assert Owned(c'.send, c'.owner, |c'.kernel|) by {
      OwnedGrow(c.send, c.owner, |c.kernel|, k);
    }
    assert Safe(c'.refs, c'.owner, c'.released, c'.sentTotal) by {
      PendingNotReleased(c, |c.send| - 1);
      SafeTaken(c, k, b, c'.refs);
    }
    assert Named(c'.mem, c'.owner, c'.refs, c'.released, c'.nextBuf) by {
      NamedTaken(c, k, b, c.mem[b] + data[..k], c'.refs, c.nextBuf);
    }
    hide Stream, Owned, Safe, Named, SetPos;
  }

  lemma {:induction false} ColdStepTakes(c: Ctx, data: seq<Byte>)
    ensures var c', k := ColdStep(c, data), Min(|data|, BUF_SIZE);
      c'.accepted == c.accepted + data[..k] && c'.sendTotal == c.sendTotal + k && c'.sentTotal == c.sentTotal
        && c'.dead == c.dead
  {
  }

  lemma {:induction false} NoCurrent(c: Ctx)
    requires Inv(c)
    ensures Inv(c.(cur := None))
  {
  }

  lemma {:induction false} ColdPathInv(c: Ctx, data: seq<Byte>, pool: nat)
    requires Inv(c) && Room(c, |data|)
    ensures var (c', n) := ColdPath(c, data, pool);
      && Inv(c') && n <= |data| && c'.accepted == c.accepted + data[..n] && c'.sentTotal == c.sentTotal
        && c'.dead == c.dead
      && (n < |data| ==> |c'.send| >= IXEV_SEND_DEPTH || c'.cur.None?)
    decreases |data|
  {
    hide Inv, ColdStep;
    if data != [] && |c.send| < IXEV_SEND_DEPTH {
      if pool == 0 {
        NoCurrent(c);
      } else {
        var k := Min(|data|, BUF_SIZE);
        ColdStepInv(c, data);
        ColdStepTakes(c, data);
        var c1 := ColdStep(c, data);
        ColdPathInv(c1, data[k..], pool - 1);
        var (c', n) := ColdPath(c1, data[k..], pool - 1);
        assert c.accepted + data[..k] + data[k..][..n] == c.accepted + data[..k + n];
      }
    }
  }

  /** The unsigned window arithmetic does not wrap. */
  lemma {:induction false} WindowExact(c: Ctx, len: nat)
    requires Counted(c)
    ensures WindowLen(c, len) == Min(IXEV_SEND_WIN_SIZE - (c.sendTotal - c.sentTotal), len)
      && Room(c, WindowLen(c, len))
  {
  }

  lemma {:induction false} InvCounted(c: Ctx)
    requires Inv(c)
    ensures Counted(c)
  {
  }

  /** A copying send takes a prefix of the data and says how long it is. */
  lemma {:induction false} SendInv(c: Ctx, data: seq<Byte>, pool: nat)
    requires Inv(c)
    ensures var (c', r) := Send(c, data, pool);
      && Inv(c')
      && (r.Sent? ==> 1 <= r.n <= |data| && c'.accepted == c.accepted + data[..r.n])
      && (!r.Sent? ==> c'.accepted == c.accepted)
      && (r == EAGAIN ==> data == [] || c.sendTotal - c.sentTotal == IXEV_SEND_WIN_SIZE)
  {
    hide Inv, HotPath, ColdPath;
    InvCounted(c);
    WindowExact(c, |data|);
    var len := WindowLen(c, |data|);
    if !c.dead && len > 0 {
      var (c1, k) := if Hot(c) then HotPath(c, data[..len]) else (c, 0);
      if Hot(c) {
        HotPathInv(c, data[..len]);
      }
      HotTakes(c, data[..len]);
      ColdPathInv(c1, data[k..len], pool);
      Rejoin(c.accepted, data, k, len, ColdPath(c1, data[k..len], pool).1);
    }
  }

  lemma {:induction false} HotTakes(c: Ctx, data: seq<Byte>)
    ensures Hot(c) ==> HotPath(c, data).0.sendTotal == c.sendTotal + HotPath(c, data).1
  {
  }

  lemma {:induction false} SendZcInv(c: Ctx, id: nat, content: seq<Byte>, off: nat, len: nat)
    requires Inv(c) && off + len <= |content| && MayLend(c, id, content)
    ensures var (c', r) := SendZc(c, id, content, off, len);
      && Inv(c')
      && (r.Sent? ==> 1 <= r.n <= len && c'.accepted == c.accepted + content[off..off + r.n])
      && (!r.Sent? ==> c' == c)
  {
    hide Stream, Owned, Safe, Named;
    WindowExact(c, len);
    var n := WindowLen(c, len);
    if !c.dead && n > 0 && |c.send| < IXEV_SEND_DEPTH {
      var mem := c.mem[App(id) := content];
      assert Extends(c.mem, mem);
      StreamAppend(c, Entry(App(id), off, n), content[off..off + n], mem);
      OwnedAppend(c.send, c.owner, |c.kernel|, Entry(App(id), off, n));
      SafeTaken(c, n, App(id), c.refs);
      NamedTaken(c, n, App(id), content, c.refs, c.nextBuf);
    }
  }

  /** Lent memory does not change, and nothing of it is sent after its callback is registered. */
  predicate MayLend(c: Ctx, id: nat, content: seq<Byte>) {
    && (App(id) in c.mem ==> c.mem[App(id)] == content)
    && App(id) !in c.released
    && forall i | 0 <= i < |c.refs| :: c.refs[i].region != App(id)
  }

  lemma {:induction false} AddSentCbInv(c: Ctx, id: nat)
    requires Inv(c)
    ensures Inv(AddSentCb(c, App(id)))
  {
  }

  // ---------------------------------------------------------------- the kernel's answers

  lemma {:induction false} SplitAt(a: seq<Byte>, p: seq<Byte>, n: nat)
    requires n <= |p|
    ensures a + p[..n] + p[n..] == a + p
    ensures p[..n] == (a + p)[|a|..|a| + n]
  {
  }

  /** Two consecutive prefixes. */
  lemma {:induction false} Rejoin(a: seq<Byte>, data: seq<Byte>, k: nat, len: nat, n: nat)
    requires k + n <= len <= |data|
    ensures data[..len][..k] == data[..k]
    ensures a + data[..k] + data[k..len][..n] == a + data[..k + n]
  {
  }

  lemma {:induction false} StreamShift(c: Ctx, ret: nat)
    requires Stream(c.send, c.mem, c.kernel, c.accepted) && ret <= |Pending(c.send, c.mem)|
    ensures Stream(Shift(c.send, ret), c.mem, c.kernel + Pending(c.send, c.mem)[..ret], c.accepted)
    ensures |c.kernel| + ret <= |c.accepted|
    ensures Pending(c.send, c.mem)[..ret] == c.accepted[|c.kernel|..|c.kernel| + ret]
  {
    ShiftPending(c.send, ret, c.mem);
    hide Pending, Shift, Valid;
    SplitAt(c.kernel, Pending(c.send, c.mem), ret);
  }

  lemma {:induction false} HandleRetInv(c: Ctx, ret: int)
    requires Inv(c) && ret <= |Pending(c.send, c.mem)|
    ensures Inv(HandleSendvRet(c, ret))
    ensures var n := if ret < 0 then 0 else ret;
      && |c.kernel| + n <= |c.accepted|
      && HandleSendvRet(c, ret).kernel == c.kernel + c.accepted[|c.kernel|..|c.kernel| + n]
  {
    if ret >= 0 {
      var c' := HandleSendvRet(c, ret);
      StreamShift(c, ret);
      assert Owned(c'.send, c'.owner, |c'.kernel|) by {
        ShiftOwned(c.send, c.owner, |c.kernel|, ret);
      }
      assert TailIsCurrent(c'.cur, c'.send, c'.mem) && |c'.send| <= |c.send| by {
        ShiftTail(c.send, ret);
      }
      hide Stream, Pending, Owned, Shift, Valid, Safe, Named, TailIsCurrent;
    }
  }

  lemma {:induction false} FireFacts(refs: seq<Ref>, total: nat)
    ensures var (rest, fired) := Fire(refs, total);
      && |rest| <= |refs| && rest == refs[|refs| - |rest|..]
      && (forall r :: r in fired <==> exists i | 0 <= i < |refs| - |rest| :: refs[i].region == r)
      && (forall i | 0 <= i < |refs| - |rest| :: refs[i].pos <= total)
      && (rest != [] ==> rest[0].pos > total)
  {
    if refs != [] && refs[0].pos <= total {
      FireFacts(refs[1..], total);
      var (rest, fired) := Fire(refs[1..], total);
      var n := |refs| - |rest|;
      assert forall i | 1 <= i < |refs| :: refs[i] == refs[1..][i - 1];
      forall r ensures r in fired + {refs[0].region} <==> exists i | 0 <= i < n :: refs[i].region == r {
        FiredOne(refs, n, fired, r);
      }
    }
  }

  lemma {:induction false} FiredOne(refs: seq<Ref>, n: nat, fired: set<Region>, r: Region)
    requires 0 < n <= |refs|
    requires r in fired <==> exists i | 0 <= i < n - 1 :: refs[1..][i].region == r
    ensures r in fired + {refs[0].region} <==> exists i | 0 <= i < n :: refs[i].region == r
  {
    if r in fired {
      var i :| 0 <= i < n - 1 && refs[1..][i].region == r;
      assert refs[i + 1].region == r;
    }
    if i :| 0 <= i < n && refs[i].region == r {
      if i > 0 {
        assert refs[1..][i - 1].region == r;
      }
    }
  }

  /** Acknowledgments release only regions all of whose bytes are acknowledged. */
  lemma {:induction false} TcpSentInv(c: Ctx, len: nat)
    requires Inv(c) && c.sentTotal + len <= |c.kernel|
    ensures Inv(TcpSent(c, len))
  {
    var c' := TcpSent(c, len);
    var total := c'.sentTotal;
    FireFacts(c.refs, total);
    var fired, n := Fire(c.refs, total).1, |c.refs| - |c'.refs|;
    hide Fire, Stream, Owned;
    assert forall i | 0 <= i < |c'.refs| :: c'.refs[i] == c.refs[n + i];
    assert Safe(c'.refs, c'.owner, c'.released, total) by {
      forall k | 0 <= k < |c.owner| && c.owner[k] in fired ensures k < total {
        var i :| 0 <= i < n && c.refs[i].region == c.owner[k];
        assert k < c.refs[i].pos;
      }
    }
    assert Named(c'.mem, c'.owner, c'.refs, c'.released, c'.nextBuf);
    hide Safe, Named;
  }
}
