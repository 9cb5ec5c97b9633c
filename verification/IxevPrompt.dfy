/** When release callbacks fire: at the first acknowledgment that makes them due, exactly as long
    as none is registered while the current buffer can still grow. */
module IxevPrompt {
  import opened Segments
  import opened Wrappers
  import opened IxevSend
  import opened IxevProofs
  import opened IxevRuns

  predicate Rising(refs: seq<Ref>) {
    forall i, j | 0 <= i <= j < |refs| :: refs[i].pos <= refs[j].pos
  }

  predicate NoRef(refs: seq<Ref>, r: Region) {
    forall i | 0 <= i < |refs| :: refs[i].region != r
  }

  predicate LastOf(refs: seq<Ref>, b: Region) {
    refs != [] && refs[|refs| - 1].region == b && NoRef(refs[..|refs| - 1], b)
  }

  /** A later copying send would add bytes to the current buffer and move its callback. */
  predicate Growable(c: Ctx) {
    !c.dead && Hot(c) && |c.mem[c.cur.value]| < BUF_SIZE
  }

  predicate HasRef(refs: seq<Ref>, r: Region) {
    exists i | 0 <= i < |refs| :: refs[i].region == r
  }

  /** Every buffer is released or has a callback to come. */
  predicate NoLeak(c: Ctx) {
    forall r | r in c.mem && r.Buf? :: r in c.released || HasRef(c.refs, r)
  }

  /** Callbacks stand in the order of their positions, that of a buffer that can grow last. */
  predicate Prompt(c: Ctx) {
    Rising(c.refs) && (Growable(c) ==> LastOf(c.refs, c.cur.value)) && NoLeak(c)
  }

  /** No callback is registered while the current buffer can grow. */
  predicate Orderly(c: Ctx, e: Event) {
    e.Callback? ==> !Growable(c)
  }

  // ---------------------------------------------------------------- orderly steps

  lemma {:induction false} LeakNeeds(c: Ctx, c': Ctx, extra: set<Region>)
    requires NoLeak(c) && c.released <= c'.released && c'.mem.Keys <= c.mem.Keys + extra
    requires |c.refs| <= |c'.refs| && forall i | 0 <= i < |c.refs| :: c'.refs[i].region == c.refs[i].region
    requires forall r | r in extra :: HasRef(c'.refs, r) || !r.Buf?
    ensures NoLeak(c')
  {
    forall r | r in c'.mem && r.Buf? && r !in c'.released && r in c.mem ensures HasRef(c'.refs, r) {
      assert HasRef(c.refs, r);
      var i :| 0 <= i < |c.refs| && c.refs[i].region == r;
      assert c'.refs[i].region == r;
    }
  }

  lemma {:induction false} ColdStepPrompt(c: Ctx, data: seq<Byte>)
    requires Inv(c) && Prompt(c)
    ensures Prompt(ColdStep(c, data))
  {
    var c', b := ColdStep(c, data), Buf(c.nextBuf);
    var n := |c.refs|;
    assert c'.refs[..n] == c.refs && c'.refs[n].region == b;
    assert HasRef(c'.refs, b);
    LeakNeeds(c, c', {b});
    assert NoRef(c.refs, b);
    assert forall i | 0 <= i < n :: c'.refs[i] == c.refs[i];
  }

  /** The callback of the current buffer stands at the end of the stream. */
  lemma {:induction false} CurrentPos(c: Ctx, i: nat)
    requires Inv(c) && Hot(c) && i < |c.refs| && c.refs[i].region == c.cur.value
    ensures c.refs[i].pos == c.sendTotal
  {
    LastByte(c.send, c.owner, |c.kernel|);
    assert c.owner[|c.owner| - 1] == c.refs[i].region;
  }

  lemma {:induction false} LastByte(send: seq<Entry>, owner: seq<Region>, p: nat)
    requires Owned(send, owner, p) && send != [] && forall i | 0 <= i < |send| :: 1 <= send[i].len
    ensures p < |owner| && owner[|owner| - 1] == send[|send| - 1].region
    decreases |send|
  {
    if |send| > 1 {
      LastByte(send[1..], owner, p + send[0].len);
    } else {
      assert Owned([], owner, p + send[0].len);
    }
  }

  lemma {:induction false} SetPosRising(refs: seq<Ref>, b: Region, pos: nat)
    requires Rising(refs) && LastOf(refs, b) && forall i | 0 <= i < |refs| :: refs[i].pos <= pos
    ensures Rising(SetPos(refs, b, pos)) && LastOf(SetPos(refs, b, pos), b)
  {
    hide SetPos;
    var rs, front := SetPos(refs, b, pos), refs[..|refs| - 1];
    forall i | 0 <= i < |refs| - 1 ensures rs[i] == refs[i] {
      assert front[i].region != b;
    }
    assert rs[..|refs| - 1] == front;
    assert rs[|refs| - 1] == Ref(b, pos);
  }

  /** A full buffer keeps its callback where it is. */
  lemma {:induction false} FullStays(c: Ctx, data: seq<Byte>)
    requires Inv(c) && Hot(c) && |c.mem[c.cur.value]| >= BUF_SIZE
    ensures var c' := HotPath(c, data).0; c'.refs == c.refs && HotPath(c, data).1 == 0
  {
    var c' := HotPath(c, data).0;
    forall i | 0 <= i < |c.refs| ensures c'.refs[i] == c.refs[i] {
      if c.refs[i].region == c.cur.value {
        CurrentPos(c, i);
      }
    }
  }

  lemma {:induction false} HotPathPrompt(c: Ctx, data: seq<Byte>)
    requires Inv(c) && Prompt(c) && Hot(c) && !c.dead
    ensures Prompt(HotPath(c, data).0)
  {
    var c' := HotPath(c, data).0;
    assert c'.mem.Keys == c.mem.Keys;
    LeakNeeds(c, c', {});
    if Growable(c) {
      SetPosRising(c.refs, c.cur.value, c'.sendTotal);
    } else {
      FullStays(c, data);
    }
  }

  lemma {:induction false} NoCurrentPrompt(c: Ctx)
    requires Prompt(c)
    ensures Prompt(c.(cur := None))
  {
    LeakNeeds(c, c.(cur := None), {});
  }

  lemma {:induction false} ColdPathPrompt(c: Ctx, data: seq<Byte>, pool: nat)
    requires Inv(c) && Prompt(c) && Room(c, |data|)
    ensures Prompt(ColdPath(c, data, pool).0)
    decreases |data|
  {
    hide Inv, Prompt, ColdStep;
    if data != [] && |c.send| < IXEV_SEND_DEPTH {
      if pool == 0 {
        NoCurrentPrompt(c);
      } else {
        ColdStepInv(c, data);
        ColdStepPrompt(c, data);
        ColdStepTakes(c, data);
        ColdPathPrompt(ColdStep(c, data), data[Min(|data|, BUF_SIZE)..], pool - 1);
      }
    }
  }

  lemma {:induction false} SendPrompt(c: Ctx, data: seq<Byte>, pool: nat)
    requires Inv(c) && Prompt(c)
    ensures Prompt(Send(c, data, pool).0)
  {
    hide Inv, Prompt, HotPath, ColdPath;
    InvCounted(c);
    WindowExact(c, |data|);
    var len := WindowLen(c, |data|);
    if !c.dead && len > 0 {
      if Hot(c) {
        HotPathInv(c, data[..len]);
        HotPathPrompt(c, data[..len]);
      }
      HotTakes(c, data[..len]);
      var (c1, k) := if Hot(c) then HotPath(c, data[..len]) else (c, 0);
      ColdPathPrompt(c1, data[k..len], pool);
    }
  }

  lemma {:induction false} LendPrompt(c: Ctx, id: nat, content: seq<Byte>, off: nat, len: nat)
    requires Prompt(c) && off + len <= |content|
    ensures Prompt(SendZc(c, id, content, off, len).0)
  {
    var c' := SendZc(c, id, content, off, len).0;
    LeakNeeds(c, c', {App(id)});
  }

  lemma {:induction false} AcceptedPrompt(c: Ctx, ret: int)
    requires Inv(c) && Prompt(c) && ret <= |Pending(c.send, c.mem)|
    ensures Prompt(HandleSendvRet(c, ret))
  {
    hide Pending;
    var c' := HandleSendvRet(c, ret);
    LeakNeeds(c, c', {});
    ShiftTail(c.send, if ret < 0 then 0 else ret);
    assert Growable(c') ==> Growable(c);
  }

  /** What stays after the first n callbacks have fired. */
  lemma {:induction false} SuffixPrompt(refs: seq<Ref>, n: nat, total: nat)
    requires Rising(refs) && n <= |refs| && (n < |refs| ==> refs[n].pos > total)
    ensures Rising(refs[n..]) && forall i | 0 <= i < |refs[n..]| :: refs[n..][i].pos > total
  {
    var rest := refs[n..];
    forall i, j | 0 <= i <= j < |rest| ensures rest[i].pos <= rest[j].pos && rest[i].pos > total {
      assert rest[i] == refs[n + i] && rest[j] == refs[n + j] && rest[0] == refs[n];
    }
  }

  lemma {:induction false} SuffixLast(refs: seq<Ref>, n: nat, b: Region)
    requires n < |refs| && LastOf(refs, b)
    ensures LastOf(refs[n..], b)
  {
    var front, rest := refs[..|refs| - 1], refs[n..];
    var front' := rest[..|rest| - 1];
    assert front' == front[n..];
    forall i | 0 <= i < |front'| ensures front'[i].region != b {
      assert front'[i] == front[n + i];
    }
  }

  lemma {:induction false} SuffixNoLeak(c: Ctx, len: nat)
    requires NoLeak(c)
    ensures NoLeak(TcpSent(c, len))
  {
    hide Fire;
    var c' := TcpSent(c, len);
    FireFacts(c.refs, c'.sentTotal);
    var n := |c.refs| - |c'.refs|;
    forall r | r in c'.mem && r.Buf? && r !in c'.released ensures HasRef(c'.refs, r) {
      assert HasRef(c.refs, r);
      var i :| 0 <= i < |c.refs| && c.refs[i].region == r;
      assert c'.refs[i - n].region == r;
    }
  }

  /** An acknowledgment fires every callback that is due. */
  lemma {:induction false} AckedPrompt(c: Ctx, len: nat)
    requires Prompt(c)
    ensures Prompt(TcpSent(c, len))
    ensures var c' := TcpSent(c, len); forall i | 0 <= i < |c'.refs| :: c'.refs[i].pos > c'.sentTotal
  {
    hide Fire, Rising, LastOf, NoLeak;
    var c' := TcpSent(c, len);
    FireFacts(c.refs, c'.sentTotal);
    var n := |c.refs| - |c'.refs|;
    assert c'.refs != [] ==> c'.refs[0] == c.refs[n];
    SuffixPrompt(c.refs, n, c'.sentTotal);
    SuffixNoLeak(c, len);
    if Growable(c') {
      SuffixLast(c.refs, n, c.cur.value);
    }
  }

  /** Registering a callback keeps the order exactly when the current buffer cannot grow. */
  lemma {:induction false} CallbackPromptIff(c: Ctx, id: nat)
    requires Inv(c) && Prompt(c)
    ensures Prompt(AddSentCb(c, App(id))) <==> !Growable(c)
  {
    var c' := AddSentCb(c, App(id));
    LeakNeeds(c, c', {});
    var n := |c.refs|;
    assert forall i | 0 <= i < n :: c'.refs[i] == c.refs[i];
    assert c'.refs[n] == Ref(App(id), c.sendTotal);
  }

  lemma {:induction false} StepPrompt(c: Ctx, e: Event)
    requires Inv(c) && Prompt(c) && Allowed(c, e) && Orderly(c, e)
    ensures Prompt(Step(c, e))
  {
    hide Inv, Prompt, Growable;
    match e
    case Copy(data, pool) => SendPrompt(c, data, pool);
    case Lend(id, content, off, len) => LendPrompt(c, id, content, off, len);
    case Callback(id) => CallbackPromptIff(c, id);
    case Accepted(ret) => AcceptedPrompt(c, ret);
    case Acked(len) => AckedPrompt(c, len);
  }

  predicate AllOrderly(c: Ctx, es: seq<Event>)
    requires Inv(c)
    decreases |es|
  {
    es != [] ==> Allowed(c, es[0]) && Orderly(c, es[0]) && AllOrderly(Step(c, es[0]), es[1..])
  }

  lemma {:induction false} RunPrompt(c: Ctx, es: seq<Event>)
    requires Inv(c) && Prompt(c) && AllOrderly(c, es)
    ensures AllAllowed(c, es) && Prompt(Run(c, es))
    decreases |es|
  {
    hide Inv, Prompt, Step, Orderly, Allowed;
    if es != [] {
      StepPrompt(c, es[0]);
      RunPrompt(Step(c, es[0]), es[1..]);
    }
  }

  /** When no callback is registered while the current buffer can grow, an acknowledgment fires
      every callback that is due, and once everything is acknowledged every buffer has been
      released. */
  lemma {:induction false} NothingHeldBack(es: seq<Event>, len: nat)
    ensures Inv(Fresh())
    ensures AllOrderly(Fresh(), es) ==> AllAllowed(Fresh(), es)
    ensures AllOrderly(Fresh(), es) && Run(Fresh(), es).sentTotal + len <= |Run(Fresh(), es).kernel| ==>
      var c := TcpSent(Run(Fresh(), es), len);
      && (forall i | 0 <= i < |c.refs| :: c.refs[i].pos > c.sentTotal)
      && (c.sentTotal == c.sendTotal ==> forall r | r in c.mem && r.Buf? :: r in c.released)
  {
    FreshInv();
    if AllOrderly(Fresh(), es) {
      RunPrompt(Fresh(), es);
      var c := Run(Fresh(), es);
      if c.sentTotal + len <= |c.kernel| {
        AckedPrompt(c, len);
        TcpSentInv(c, len);
      }
    }
  }

  // ---------------------------------------------------------------- the converse

  /** A callback for position t registered behind that of a buffer that can grow. */
  predicate Primed(c: Ctx, id: nat, t: nat) {
    && Inv(c) && Growable(c) && c.sendTotal == t && |c.refs| >= 2
    && c.refs[|c.refs| - 1] == Ref(App(id), t) && c.refs[|c.refs| - 2].region == c.cur.value
  }

  lemma {:induction false} RegisteredPrimed(c: Ctx, id: nat)
    requires Inv(c) && Prompt(c) && Growable(c)
    ensures Primed(AddSentCb(c, App(id)), id, c.sendTotal)
  {
    hide Inv;
    AddSentCbInv(c, id);
  }

  /** What is not yet given to the kernel. */
  lemma {:induction false} PendingSize(c: Ctx)
    requires Inv(c)
    ensures Valid(c.send, c.mem) && |Pending(c.send, c.mem)| == c.sendTotal - |c.kernel|
    ensures c.send == [] <==> c.sendTotal == |c.kernel|
  {
    hide Owned, Safe, Named;
    if c.send != [] {
      assert |Pending(c.send, c.mem)| >= 1;
    }
  }

  /** Callbacks that are not due stay. */
  lemma {:induction false} NotDueStays(refs: seq<Ref>, total: nat, i: nat)
    requires i < |refs| && refs[i].pos > total
    ensures var rest := Fire(refs, total).0; |refs| - i <= |rest| <= |refs| && rest == refs[|refs| - |rest|..]
  {
    FireFacts(refs, total);
  }

  lemma {:induction false} AcceptOnePrimed(c: Ctx, id: nat, t: nat)
    requires Primed(c, id, t) && c.sendTotal - |c.kernel| >= 2
    ensures Valid(c.send, c.mem) && 1 <= |Pending(c.send, c.mem)| && Primed(HandleSendvRet(c, 1), id, t)
    ensures var c' := HandleSendvRet(c, 1); |c'.kernel| == |c.kernel| + 1 && c'.sentTotal == c.sentTotal
  {
    hide Inv, Pending, Shift;
    PendingSize(c);
    HandleRetInv(c, 1);
    PendingSize(HandleSendvRet(c, 1));
  }

  lemma {:induction false} AckOnePrimed(c: Ctx, id: nat, t: nat)
    requires Primed(c, id, t) && c.sentTotal < |c.kernel|
    ensures Primed(TcpSent(c, 1), id, t) && TcpSent(c, 1).sentTotal == c.sentTotal + 1
  {
    hide Inv, Fire, Pending, Valid;
    var c' := TcpSent(c, 1);
    var n := |c.refs|;
    PendingSize(c);
    CurrentPos(c, n - 2);
    TcpSentInv(c, 1);
    NotDueStays(c.refs, c'.sentTotal, n - 2);
    var m := |c'.refs|;
    assert c'.refs == c.refs[n - m..];
    assert c'.refs[m - 1] == c.refs[n - 1] && c'.refs[m - 2] == c.refs[n - 2];
  }

  lemma {:induction false} PrimedCounted(c: Ctx, id: nat, t: nat)
    requires Primed(c, id, t)
    ensures Inv(c) && Counted(c) && |c.kernel| < c.sendTotal
  {
    PendingSize(c);
  }

  lemma {:induction false} OneAccepted(c: Ctx, ret: nat)
    requires Inv(c) && Valid(c.send, c.mem) && ret <= |Pending(c.send, c.mem)|
    ensures AllAllowed(c, [Accepted(ret)])
    ensures Run(c, [Accepted(ret)]) == HandleSendvRet(c, ret)
  {
    hide Inv, Pending;
    RunOne(c, Accepted(ret));
  }

  lemma {:induction false} OneAcked(c: Ctx, len: nat)
    requires Inv(c) && c.sentTotal + len <= |c.kernel|
    ensures AllAllowed(c, [Acked(len)]) && Run(c, [Acked(len)]) == TcpSent(c, len)
  {
    hide Inv;
    RunOne(c, Acked(len));
  }

  lemma {:induction false} OneCopy(c: Ctx, data: seq<Byte>, pool: nat)
    requires Inv(c)
    ensures AllAllowed(c, [Copy(data, pool)]) && Run(c, [Copy(data, pool)]) == Send(c, data, pool).0
  {
    hide Inv, Send;
    RunOne(c, Copy(data, pool));
  }

  /** If the window is full, one byte can be accepted and acknowledged to make room. */
  lemma {:induction false} MakeRoom(c: Ctx, id: nat, t: nat) returns (es: seq<Event>)
    requires Primed(c, id, t)
    ensures AllAllowed(c, es) && Primed(Run(c, es), id, t) && Room(Run(c, es), 1)
  {
    hide Inv, Pending, Primed, AllAllowed, Run, HandleSendvRet, TcpSent;
    PrimedCounted(c, id, t);
    RunNothing(c);
    es := [];
    if !Room(c, 1) {
      var c1 := c;
      if |c.kernel| == c.sentTotal {
        AcceptOnePrimed(c, id, t);
        OneAccepted(c, 1);
        es, c1 := [Accepted(1)], HandleSendvRet(c, 1);
      }
      AckOnePrimed(c1, id, t);
      PrimedCounted(c1, id, t);
      OneAcked(c1, 1);
      RunAppend(c, es, [Acked(1)]);
      es := es + [Acked(1)];
      var c2 := TcpSent(c1, 1);
      assert Run(c, es) == c2 && c2.sentTotal == c.sentTotal + 1 by { assert c1.sentTotal == c.sentTotal; }
      PrimedTotal(c2, id, t);
      PrimedTotal(c, id, t);
    }
  }

  lemma {:induction false} RunNothing(c: Ctx)
    requires Inv(c)
    ensures AllAllowed(c, []) && Run(c, []) == c
  {
  }

  lemma {:induction false} PrimedTotal(c: Ctx, id: nat, t: nat)
    requires Primed(c, id, t)
    ensures c.sendTotal == t
  {
  }

  /** The callback for position t stands behind one for a later position. */
  predicate Behind(c: Ctx, id: nat, t: nat) {
    && Inv(c) && c.sentTotal <= t < c.sendTotal && |c.refs| >= 2
    && c.refs[|c.refs| - 1] == Ref(App(id), t) && c.refs[|c.refs| - 2].pos > t
  }

  /** One more byte copied to the current buffer overtakes the callback. */
  lemma {:induction false} CopyOvertakes(c: Ctx, id: nat, t: nat, x: Byte)
    requires Primed(c, id, t) && Room(c, 1)
    ensures Behind(Send(c, [x], 0).0, id, t)
  {
    InvCounted(c);
    WindowExact(c, 1);
    assert [x][..1] == [x] && [x][1..1] == [];
    HotPathInv(c, [x]);
    var (c1, k) := HotPath(c, [x]);
    assert k == 1;
    assert ColdPath(c1, [], 0) == (c1, 0);
    assert Send(c, [x], 0).0 == c1;
  }

  /** Everything is accepted and acknowledged up to t: the callback is due and does not fire. */
  lemma {:induction false} BehindIsLate(c: Ctx, id: nat, t: nat) returns (es: seq<Event>)
    requires Behind(c, id, t)
    ensures AllAllowed(c, es) && Run(c, es).sentTotal == t && Ref(App(id), t) in Run(c, es).refs
  {
    hide Inv, Pending, AllAllowed, Run, Fire;
    PendingSize(c);
    var n := |Pending(c.send, c.mem)|;
    HandleRetInv(c, n);
    var c1 := HandleSendvRet(c, n);
    OneAccepted(c, n);
    OneAcked(c1, t - c.sentTotal);
    RunAppend(c, [Accepted(n)], [Acked(t - c.sentTotal)]);
    es := [Accepted(n)] + [Acked(t - c.sentTotal)];
    NotDueStays(c.refs, t, |c.refs| - 2);
    var c2 := TcpSent(c1, t - c.sentTotal);
    assert c2.refs == c.refs[|c.refs| - |c2.refs|..];
    assert c2.refs[|c2.refs| - 1] == c.refs[|c.refs| - 1];
  }

  /** From every state in which the current buffer can grow: a callback registered there can be
      overtaken, so that later all of its bytes are acknowledged and it has not fired. */
  lemma {:induction false} CallbackCanBeLate(c: Ctx, id: nat, x: Byte) returns (es: seq<Event>)
    requires Inv(c) && Prompt(c) && Growable(c)
    ensures Inv(AddSentCb(c, App(id))) && AllAllowed(AddSentCb(c, App(id)), es)
    ensures var c' := Run(AddSentCb(c, App(id)), es);
      c'.sentTotal == c.sendTotal && Ref(App(id), c.sendTotal) in c'.refs
  {
    hide Inv, Prompt, Growable, Primed, Behind, AllAllowed, Run, Send;
    var t := c.sendTotal;
    RegisteredPrimed(c, id);
    AddSentCbInv(c, id);
    var c0 := AddSentCb(c, App(id));
    es := MakeRoom(c0, id, t);
    var c1 := Run(c0, es);
    CopyOvertakes(c1, id, t, x);
    OneCopy(c1, [x], 0);
    RunAppend(c0, es, [Copy([x], 0)]);
    es := es + [Copy([x], 0)];
    var fs := BehindIsLate(Run(c0, es), id, t);
    RunAppend(c0, es, fs);
    es := es + fs;
  }

  /** One byte lent, one copied, and the callback for the first. */
  function Registered(x: Byte): Ctx {
    Ctx([Entry(App(0), 0, 1), Entry(Buf(0), 0, 1)], Some(Buf(0)), [Ref(Buf(0), 2), Ref(App(0), 2)], 2, 0, false,
        map[App(0) := [x], Buf(0) := [x]], 1, [x, x], [App(0), Buf(0)], [], {})
  }

  /** One more byte copied. */
  function Overtaken(x: Byte): Ctx {
    Ctx([Entry(App(0), 0, 1), Entry(Buf(0), 0, 2)], Some(Buf(0)), [Ref(Buf(0), 3), Ref(App(0), 2)], 3, 0, false,
        map[App(0) := [x], Buf(0) := [x, x]], 1, [x, x, x], [App(0), Buf(0), Buf(0)], [], {})
  }

  lemma {:induction false} ReachesRegistered(x: Byte)
    ensures AddSentCb(Send(SendZc(Fresh(), 0, [x], 0, 1).0, [x], 1).0, App(0)) == Registered(x)
  {
    var c := SendZc(Fresh(), 0, [x], 0, 1).0;
    assert c == Ctx([Entry(App(0), 0, 1)], None, [], 1, 0, false, map[App(0) := [x]], 0, [x], [App(0)], [], {});
    assert [x][..1] == [x][0..1] == [x] && [x][1..] == [] && Repeat(Buf(0), 1) == [Buf(0)];
    assert !Hot(c) && WindowLen(c, 1) == 1;
    assert ColdPath(ColdStep(c, [x]), [], 0) == (ColdStep(c, [x]), 0);
    assert ColdPath(c, [x], 1) == (ColdStep(c, [x]), 1);
    assert Send(c, [x], 1).0 == ColdStep(c, [x]);
  }

  lemma {:induction false} ReachesOvertaken(x: Byte)
    ensures Send(Registered(x), [x], 0).0 == Overtaken(x)
  {
    var c := Registered(x);
    assert [x][..1] == [x] && [x][1..1] == [] && Repeat(Buf(0), 1) == [Buf(0)];
    assert Hot(c) && WindowLen(c, 1) == 1;
    assert SetPos(c.refs, Buf(0), 3) == Overtaken(x).refs;
    assert Lengthened(c.send, 1) == Overtaken(x).send;
    assert Send(c, [x], 0).0 == HotPath(c, [x]).0;
    assert c.mem[Buf(0)] + [x] == [x, x];
    assert c.mem[Buf(0) := [x, x]] == Overtaken(x).mem;
    assert c.accepted + [x] == [x, x, x] && c.owner + [Buf(0)] == Overtaken(x).owner;
  }

  /** Registered after a copying send instead, a callback can be overtaken: here everything lent
      is acknowledged, but the callback waits behind a buffer that grew after it. */
  lemma {:induction false} LateCallback(x: Byte)
    ensures
      var c1 := AddSentCb(Send(SendZc(Fresh(), 0, [x], 0, 1).0, [x], 1).0, App(0));
      var c2 := Send(c1, [x], 0).0;
      && Valid(c2.send, c2.mem) && |Pending(c2.send, c2.mem)| == 3
      && var c := TcpSent(HandleSendvRet(c2, 3), 2);
         && c.owner == [App(0), Buf(0), Buf(0)] && c.sentTotal == 2
         && App(0) !in c.released && Ref(App(0), 2) in c.refs
  {
    ReachesRegistered(x);
    ReachesOvertaken(x);
    hide Send, SendZc;
    var c := Overtaken(x);
    assert c.send[1..] == [Entry(Buf(0), 0, 2)] && c.send[1..][1..] == [];
    assert |Pending(c.send[1..], c.mem)| == 2;
    assert |Pending(c.send, c.mem)| == 1 + |Pending(c.send[1..], c.mem)|;
    assert Fire(c.refs, 2) == (c.refs, {});
    assert Ref(App(0), 2) == c.refs[1];
  }
}
