/** The connection context whose fields the library updates in place. */
module IxevCtx {
  import opened Segments
  import opened Wrappers
  import S = IxevSend

  class Ctx {
    const send: array<S.Entry>
    var sendCount: nat
    var cur: Option<S.Region>
    var refs: seq<S.Ref>
    var sendTotal: nat
    var sentTotal: nat
    var isDead: bool
    var mem: map<S.Region, seq<Byte>>
    var nextBuf: nat
    ghost var accepted: seq<Byte>
    ghost var owner: seq<S.Region>
    ghost var kernel: seq<Byte>
    ghost var released: set<S.Region>

    ghost predicate Valid()
      reads this
    {
      send.Length == S.IXEV_SEND_DEPTH && sendCount <= S.IXEV_SEND_DEPTH
    }

    ghost function Abs(): S.Ctx
      requires Valid()
      reads this, send
    {
      S.Ctx(send[..sendCount], cur, refs, sendTotal, sentTotal, isDead, mem, nextBuf, accepted, owner, kernel, released)
    }

    constructor ()
      ensures Valid() && fresh(send) && Abs() == S.Fresh()
    {
      send := new S.Entry[S.IXEV_SEND_DEPTH];
      sendCount, cur, refs, sendTotal, sentTotal, isDead, mem, nextBuf := 0, None, [], 0, 0, false, map[], 0;
      accepted, owner, kernel, released := [], [], [], {};
    }

    method WindowLen(len: nat) returns (n: nat)
      requires Valid()
      ensures n == S.WindowLen(Abs(), len) && n <= len
    {
      var left := (S.IXEV_SEND_WIN_SIZE - sendTotal + sentTotal) % 0x1_0000_0000_0000_0000;
      n := if left < len then left else len;
    }

    /** The next free entry of the array. */
    method NextEntry(e: S.Entry)
      requires Valid() && sendCount < S.IXEV_SEND_DEPTH
      modifies `sendCount, send
      ensures Valid() && sendCount == old(sendCount) + 1 && send[..sendCount] == old(send[..sendCount]) + [e]
    {
      send[sendCount] := e;
      sendCount := sendCount + 1;
    }

    /** Adds bytes to a buffer that has room, up to its size. */
    method BufStore(b: S.Region, data: seq<Byte>) returns (k: nat)
      requires b in mem
      modifies `mem
      ensures k == S.Fits(old(|mem[b]|), |data|) && mem == old(mem)[b := old(mem[b]) + data[..k]]
    {
      k := S.Fits(|mem[b]|, |data|);
      mem := mem[b := mem[b] + data[..k]];
    }

    method AddSentCb(r: S.Region)
      requires Valid()
      modifies `refs
      ensures Abs() == S.AddSentCb(old(Abs()), r)
    {
      refs := refs + [S.Ref(r, sendTotal)];
    }

    /** Copies the entries that remain to the front of the array. */
    method ShiftSends(shift: nat)
      requires Valid() && shift <= sendCount
      modifies `sendCount, send
      ensures Valid() && send[..sendCount] == old(send[shift..sendCount])
    {
      sendCount := sendCount - shift;
      var i := 0;
      while i < sendCount
        invariant i <= sendCount
        modifies send
        invariant forall k | 0 <= k < i :: send[k] == old(send[k + shift])
        invariant forall k | i <= k < send.Length :: send[k] == old(send[k])
      {
        send[i] := send[i + shift];
        i := i + 1;
      }
    }

    /** Passes over the entries the kernel took whole and shortens the one it took in part. */
    method Consume(ret: nat) returns (i: nat)
      requires Valid()
      modifies send
      ensures i <= sendCount && send[i..sendCount] == S.Shift(old(send[..sendCount]), ret)
    {
      ghost var all := send[..sendCount];
      var left: nat := ret;
      i := 0;
      while i < sendCount
        invariant i <= sendCount && send[..sendCount] == all
        invariant S.Shift(all, ret) == S.Shift(all[i..], left)
      {
        assert all[i..][1..] == all[i + 1..] && send[i] == all[i];
        if left < send[i].len {
          send[i] := send[i].(len := send[i].len - left, off := send[i].off + left);
          assert send[i..sendCount] == [send[i]] + all[i + 1..];
          return;
        }
        left := left - send[i].len;
        i := i + 1;
      }
    }

    /** The kernel took ret bytes, or failed. */
    method HandleSendvRet(ret: int)
      requires Valid() && S.Valid(Abs().send, mem) && ret <= |S.Pending(Abs().send, mem)|
      modifies this, send
      ensures Valid() && Abs() == S.HandleSendvRet(old(Abs()), ret)
    {
      hide S.Shift, S.Pending, S.Valid;
      if ret < 0 {
        isDead := true;
        return;
      }
      kernel := kernel + S.Pending(send[..sendCount], mem)[..ret];
      var i := Consume(ret);
      ShiftSends(i);
    }

    /** Fires the callbacks whose position is reached, from the head of the list. */
    method TcpSent(len: nat)
      requires Valid()
      modifies this
      ensures Valid() && Abs() == S.TcpSent(old(Abs()), len)
    {
      sentTotal := sentTotal + len;
      ghost var goal := S.Fire(refs, sentTotal);
      ghost var fired: set<S.Region> := {};
      while refs != [] && refs[0].pos <= sentTotal
        invariant Valid() && sentTotal == old(sentTotal) + len
        invariant goal.0 == S.Fire(refs, sentTotal).0 && goal.1 == S.Fire(refs, sentTotal).1 + fired
        invariant sendCount == old(sendCount) && cur == old(cur) && sendTotal == old(sendTotal) && isDead == old(isDead)
        invariant mem == old(mem) && nextBuf == old(nextBuf) && accepted == old(accepted) && owner == old(owner)
          && kernel == old(kernel)
        invariant released == old(released)
        decreases |refs|
      {
        fired := fired + {refs[0].region};
        refs := refs[1..];
      }
      released := released + fired;
      if refs == [] {
        cur := None;
      }
    }

    method SendZc(id: nat, content: seq<Byte>, off: nat, len: nat) returns (r: S.Result)
      requires Valid() && off + len <= |content|
      modifies this, send
      ensures Valid() && (Abs(), r) == S.SendZc(old(Abs()), id, content, off, len)
    {
      var n := WindowLen(len);
      if isDead {
        return S.EIO;
      }
      if n == 0 {
        return S.EAGAIN;
      }
      if sendCount >= S.IXEV_SEND_DEPTH {
        return S.ENOBUFS;
      }
      cur := None;
      mem := mem[S.App(id) := content];
      NextEntry(S.Entry(S.App(id), off, n));
      Take(content[off..off + n], S.App(id));
      sendTotal := sendTotal + n;
      r := S.Sent(n);
    }

    ghost method Take(data: seq<Byte>, r: S.Region)
      modifies `accepted, `owner
      ensures accepted == old(accepted) + data && owner == old(owner) + S.Repeat(r, |data|)
    {
      accepted, owner := accepted + data, owner + S.Repeat(r, |data|);
    }

    /** The hot path: room in the buffer of the last entry. */
    method StoreHot(data: seq<Byte>) returns (k: nat)
      requires Valid() && S.Hot(Abs())
      modifies `mem, `refs, `accepted, `owner, send
      ensures Valid() && k <= |data| && (Abs().(sendTotal := sendTotal + k), k) == S.HotPath(old(Abs()), data)
    {
      var b := cur.value;
      ghost var before := Abs();
      k := BufStore(b, data);
      var last := send[sendCount - 1];
      send[sendCount - 1] := last.(len := last.len + k);
      assert send[..sendCount] == S.Lengthened(before.send, k);
      Take(data[..k], b);
      refs := S.SetPos(refs, b, sendTotal + k);
    }

    /** A new buffer with the first bytes of data, for stream position sendTotal + soFar. */
    method StoreNew(data: seq<Byte>, soFar: nat) returns (k: nat)
      requires Valid() && data != [] && sendCount < S.IXEV_SEND_DEPTH
      modifies `mem, `refs, `accepted, `owner, `cur, `nextBuf, `sendCount, send
      ensures Valid() && k == S.Min(|data|, S.BUF_SIZE)
      ensures Abs().(sendTotal := sendTotal + soFar + k)
        == S.ColdStep(old(Abs()).(sendTotal := sendTotal + soFar), data)
    {
      var b := S.Buf(nextBuf);
      k := S.Min(|data|, S.BUF_SIZE);
      nextBuf, cur := nextBuf + 1, Some(b);
      mem := mem[b := data[..k]];
      NextEntry(S.Entry(b, 0, k));
      Take(data[..k], b);
      refs := refs + [S.Ref(b, sendTotal + soFar + k)];
    }

    /** The cold path: one new buffer after another. */
    method StoreCold(data: seq<Byte>, pool: nat, already: nat) returns (n: nat)
      requires Valid()
      modifies `mem, `refs, `accepted, `owner, `cur, `nextBuf, `sendCount, send
      ensures Valid()
      ensures (Abs().(sendTotal := sendTotal + already + n), n)
        == S.ColdPath(old(Abs()).(sendTotal := sendTotal + already), data, pool)
    {
      hide S.ColdStep;
      n := 0;
      var rest, left := data, pool;
      ghost var goal := S.ColdPath(Abs().(sendTotal := sendTotal + already), data, pool);
      while rest != []
        invariant Valid()
        invariant var p := S.ColdPath(Abs().(sendTotal := sendTotal + already + n), rest, left);
          goal.0 == p.0 && goal.1 == n + p.1
        decreases |rest|
      {
        if sendCount >= S.IXEV_SEND_DEPTH {
          return;
        }
        if left == 0 {
          cur := None;
          return;
        }
        var k := StoreNew(rest, already + n);
        n, rest, left := n + k, rest[k..], left - 1;
      }
    }

    method Send(data: seq<Byte>, pool: nat) returns (r: S.Result)
      requires Valid() && (cur.Some? ==> cur.value in mem)
      modifies this, send
      ensures Valid() && (Abs(), r) == S.Send(old(Abs()), data, pool)
    {
      hide S.HotPath, S.ColdPath, S.WindowLen;
      var len := WindowLen(|data|);
      if isDead {
        return S.EIO;
      }
      if len == 0 {
        return S.EAGAIN;
      }
      var k := 0;
      if sendCount > 0 && cur.Some? {
        k := StoreHot(data[..len]);
      }
      assert Abs().(sendTotal := sendTotal + k) == if S.Hot(old(Abs())) then S.HotPath(old(Abs()), data[..len]).0
        else old(Abs());
      var n := StoreCold(data[k..len], pool, k);
      if k + n == 0 {
        return S.ENOBUFS;
      }
      sendTotal := sendTotal + k + n;
      r := S.Sent(k + n);
    }
  }
}
