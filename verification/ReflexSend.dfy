/** send_req and send_pending_reqs: replies leave in list order, resumed after every short or
    refused send. */
module ReflexSend {
  import opened Segments
  import opened Framing
  import opened PagedBuffers

  /** A request waiting for its reply to be sent; a read has its data in pages. */
  datatype Reply =
    | ReadReply(lba: nat, count: nat, handle: nat, pages: seq<seq<Byte>>)
    | WriteReply(lba: nat, count: nat, handle: nat)

  predicate Ready(r: Reply, sector: nat) {
    r.ReadReply? ==> Paged(r.pages) && r.count * sector <= PAGE_SIZE * |r.pages|
  }

  function PayloadSize(r: Reply, sector: nat): nat {
    if r.ReadReply? then r.count * sector else 0
  }

  function ReplyHeader(r: Reply): Header {
    match r
    case ReadReply(lba, count, handle, _) => Header(HEADER_SIZE, CMD_GET, handle, lba, count)
    case WriteReply(lba, _, handle) => Header(HEADER_SIZE, CMD_SET, handle, lba, RESP_OK)
  }

  function Payload(r: Reply, sector: nat): (b: seq<Byte>)
    requires Ready(r, sector)
    ensures |b| == PayloadSize(r, sector)
  {
    if r.ReadReply? then
      FlatSize(r.pages);
      Join(r.pages)[..r.count * sector]
    else []
  }

  /** What the client sees of a reply: the header, and for a read the data. */
  function Message(r: Reply, sector: nat): (b: seq<Byte>)
    requires Ready(r, sector)
    ensures |b| == HEADER_SIZE + PayloadSize(r, sector)
  {
    Encode(ReplyHeader(r)) + Payload(r, sector)
  }

  predicate AllReady(rs: seq<Reply>, sector: nat) {
    forall i | 0 <= i < |rs| :: Ready(rs[i], sector)
  }

  function Messages(rs: seq<Reply>, sector: nat): seq<Byte>
    requires AllReady(rs, sector)
  {
    if rs == [] then [] else Message(rs[0], sector) + Messages(rs[1..], sector)
  }

  lemma {:induction false} MessagesAppend(rs: seq<Reply>, r: Reply, sector: nat)
    requires AllReady(rs, sector) && Ready(r, sector)
    ensures AllReady(rs + [r], sector) && Messages(rs + [r], sector) == Messages(rs, sector) + Message(r, sector)
  {
    hide Ready, Message;
    if rs == [] {
      assert rs + [r] == [r] && [r][1..] == [];
    } else {
      MessagesAppend(rs[1..], r, sector);
      assert (rs + [r])[1..] == rs[1..] + [r];
      var m, rest, last := Message(rs[0], sector), Messages(rs[1..], sector), Message(r, sector);
      assert m + (rest + last) == m + rest + last;
    }
  }

  lemma {:induction false} MessagesSplit(a: seq<Reply>, b: seq<Reply>, sector: nat)
    requires AllReady(a, sector) && AllReady(b, sector)
    ensures AllReady(a + b, sector) && Messages(a + b, sector) == Messages(a, sector) + Messages(b, sector)
  {
    hide Message;
    if a == [] {
      assert a + b == b;
    } else {
      MessagesSplit(a[1..], b, sector);
      assert (a + b)[1..] == a[1..] + b;
      assert Message(a[0], sector) + (Messages(a[1..], sector) + Messages(b, sector))
          == Message(a[0], sector) + Messages(a[1..], sector) + Messages(b, sector);
    }
  }

  /** Bytes from position k, within one page. */
  lemma {:induction false} PieceOfMessage(r: Reply, k: nat, n: nat, sector: nat)
    requires Ready(r, sector) && r.ReadReply? && k + n <= PayloadSize(r, sector) && k % PAGE_SIZE + n <= PAGE_SIZE
      && 1 <= n
    ensures k / PAGE_SIZE < |r.pages|
    ensures r.pages[k / PAGE_SIZE][k % PAGE_SIZE..k % PAGE_SIZE + n]
      == Message(r, sector)[HEADER_SIZE + k..HEADER_SIZE + k + n]
  {
    hide Encode, Join;
    PieceAt(r.pages, k, n);
    SliceAfter(Encode(ReplyHeader(r)), Payload(r, sector), k, n);
    SliceWithin(Join(r.pages), r.count * sector, k, n);
  }

  lemma {:induction false} SliceAfter(a: seq<Byte>, b: seq<Byte>, k: nat, n: nat)
    requires k + n <= |b|
    ensures (a + b)[|a| + k..|a| + k + n] == b[k..k + n]
  {
  }

  lemma {:induction false} SliceWithin(a: seq<Byte>, m: nat, k: nat, n: nat)
    requires k + n <= m <= |a|
    ensures a[..m][k..k + n] == a[k..k + n]
  {
  }

  lemma {:induction false} PieceOfHeader(r: Reply, k: nat, n: nat, sector: nat)
    requires Ready(r, sector) && k + n <= HEADER_SIZE
    ensures Encode(ReplyHeader(r))[k..k + n] == Message(r, sector)[k..k + n]
  {
  }

  /** A prefix grows by the bytes that follow it. */
  lemma {:induction false} Extend(before: seq<Byte>, m: seq<Byte>, k: nat, n: nat)
    requires k + n <= |m|
    ensures before + m[..k] + m[k..k + n] == before + m[..k + n]
  {
  }

  class PpConn {
    const sector: nat
    var txSent: nat
    var txPending: bool
    var currentSglBuf: nat
    var pendingRequests: seq<Reply>
    var closed: bool
    ghost var done: seq<Reply>
    ghost var out: seq<Byte>

    /** How much of the first pending reply has been taken by the transport. */
    ghost function Progress(): nat
      reads this
    {
      if txPending then HEADER_SIZE + txSent else txSent
    }

    ghost predicate Valid()
      reads this
    {
      && AllReady(done, sector) && AllReady(pendingRequests, sector)
      && (pendingRequests == [] ==> Progress() == 0 && !txPending)
      && (pendingRequests != [] ==>
            && (if txPending then txSent <= PayloadSize(pendingRequests[0], sector) else txSent <= HEADER_SIZE)
            && currentSglBuf == if txPending then txSent / PAGE_SIZE else 0)
      && out == Messages(done, sector) + if pendingRequests == [] then []
        else Message(pendingRequests[0], sector)[..Progress()]
    }

    constructor (sector: nat)
      ensures Valid() && this.sector == sector && done == pendingRequests == [] && out == []
    {
      this.sector := sector;
      txSent, txPending, currentSglBuf, pendingRequests, closed, done, out := 0, false, 0, [], false, [], [];
    }

    /** A completed request joins the end of the list. */
    method Append(r: Reply)
      requires Valid() && Ready(r, sector)
      modifies `pendingRequests, `currentSglBuf
      ensures Valid() && pendingRequests == old(pendingRequests) + [r]
    {
      if pendingRequests == [] {
        currentSglBuf := 0;
      }
      pendingRequests := pendingRequests + [r];
      assert pendingRequests[0] == if old(pendingRequests) == [] then r else old(pendingRequests)[0];
    }

    /** Some bytes of the header are taken. */
    method SentHeader(n: nat)
      requires Valid() && pendingRequests != [] && !txPending && 1 <= n <= HEADER_SIZE - txSent
      modifies `txSent, `out
      ensures Valid() && txSent == old(txSent) + n && |out| == old(|out|) + n
    {
      hide Encode, Message, Messages, ReplyHeader;
      PieceOfHeader(pendingRequests[0], txSent, n, sector);
      Extend(Messages(done, sector), Message(pendingRequests[0], sector), txSent, n);
      out := out + Encode(ReplyHeader(pendingRequests[0]))[txSent..txSent + n];
      txSent := txSent + n;
    }

    /** Some bytes of the current page are taken. */
    method SentPayload(n: nat)
      requires Valid() && pendingRequests != [] && pendingRequests[0].ReadReply? && txPending
      requires txSent < PayloadSize(pendingRequests[0], sector)
        && 1 <= n <= NextPiece(txSent, PayloadSize(pendingRequests[0], sector))
      modifies `txSent, `out, `currentSglBuf
      ensures Valid() && txSent == old(txSent) + n && |out| == old(|out|) + n
    {
      hide Encode, Message, Messages;
      var r := pendingRequests[0];
      PieceOfMessage(r, txSent, n, sector);
      NextPage(txSent, n);
      Extend(Messages(done, sector), Message(r, sector), Progress(), n);
      var off := txSent % PAGE_SIZE;
      out := out + r.pages[currentSglBuf][off..off + n];
      txSent := txSent + n;
      if txSent % PAGE_SIZE == 0 {
        currentSglBuf := currentSglBuf + 1;
      }
    }

    /** The reply is out; the next one starts from the beginning. */
    method Complete()
      requires Valid() && pendingRequests != [] && txPending && txSent == PayloadSize(pendingRequests[0], sector)
      modifies `txSent, `txPending, `currentSglBuf, `pendingRequests, `done
      ensures Valid() && !txPending && txSent == 0 && pendingRequests == old(pendingRequests)[1..]
        && done == old(done) + [old(pendingRequests)[0]]
    {
      hide Encode, Messages;
      ghost var r := pendingRequests[0];
      MessagesAppend(done, r, sector);
      assert Message(r, sector)[..Progress()] == Message(r, sector);
      done := done + [r];
      pendingRequests := pendingRequests[1..];
      txSent, txPending, currentSglBuf := 0, false, 0;
      if pendingRequests != [] {
        assert Message(pendingRequests[0], sector)[..0] == [];
      }
    }

    /** The transport refused; without device work outstanding the connection is closed. */
    method Refused(nvmePending: bool)
      requires Valid()
      modifies `closed
      ensures Valid()
    {
      if !nvmePending {
        closed := true;
      }
    }

    /** Sends what is left of the header.  Each answer says how much the transport takes at most
        in one call, zero that it refuses. */
    method SendHeader(answers: seq<nat>, nvmePending: bool) returns (ok: bool, rest: seq<nat>)
      requires Valid() && pendingRequests != [] && !txPending
      modifies `txSent, `txPending, `out, `closed
      ensures Valid() && Suffix(rest, answers) && (ok ==> txPending && txSent == 0)
      ensures |out| >= old(|out|) + |answers| - |rest|
      ensures !ok ==> rest == [] || rest[0] == 0
    {
      hide Messages, Message, Encode;
      rest := answers;
      while txSent < HEADER_SIZE
        invariant Valid() && !txPending && Suffix(rest, answers) && |out| >= old(|out|) + |answers| - |rest|
        decreases HEADER_SIZE - txSent
      {
        if rest == [] || rest[0] == 0 {
          Refused(nvmePending);
          return false, rest;
        }
        var want := HEADER_SIZE - txSent;
        SentHeader(if rest[0] < want then rest[0] else want);
        rest := rest[1..];
      }
      txPending, txSent := true, 0;
      ok := true;
    }

    /** Sends what is left of the data of a read, page by page. */
    method SendPayload(answers: seq<nat>, nvmePending: bool) returns (ok: bool, rest: seq<nat>)
      requires Valid() && pendingRequests != [] && txPending && pendingRequests[0].ReadReply?
      modifies `txSent, `out, `currentSglBuf, `closed
      ensures Valid() && Suffix(rest, answers) && (ok ==> txSent == PayloadSize(pendingRequests[0], sector))
      ensures |out| >= old(|out|) + |answers| - |rest|
      ensures !ok ==> rest == [] || rest[0] == 0
    {
      hide Messages, Message, Encode;
      rest := answers;
      var r := pendingRequests[0];
      while txSent < r.count * sector
        invariant Valid() && Suffix(rest, answers) && |out| >= old(|out|) + |answers| - |rest|
        decreases r.count * sector - txSent
      {
        if rest == [] || rest[0] == 0 {
          Refused(nvmePending);
          return false, rest;
        }
        var want := NextPiece(txSent, r.count * sector);
        SentPayload(if rest[0] < want then rest[0] else want);
        rest := rest[1..];
      }
      ok := true;
    }

    /** send_req: the first pending reply, from where it was left.  Unless the transport refuses
        or answers too seldom, all of it goes out. */
    method SendReq(answers: seq<nat>, nvmePending: bool) returns (ok: bool, rest: seq<nat>)
      requires Valid() && pendingRequests != []
      modifies this
      ensures Valid() && Suffix(rest, answers)
      ensures if ok then pendingRequests == old(pendingRequests)[1..] && done == old(done) + [old(pendingRequests)[0]]
              else pendingRequests == old(pendingRequests) && done == old(done) && (rest == [] || rest[0] == 0)
      ensures |out| >= old(|out|) + |answers| - |rest|
    {
      hide Valid;
      rest := answers;
      if !txPending {
        ok, rest := SendHeader(rest, nvmePending);
        if !ok {
          return;
        }
      }
      if pendingRequests[0].ReadReply? {
        ok, rest := SendPayload(rest, nvmePending);
        if !ok {
          return;
        }
      } else {
        NoPayload();
      }
      Complete();
      ok := true;
    }

    lemma NoPayload()
      requires Valid() && pendingRequests != [] && txPending && pendingRequests[0].WriteReply?
      ensures txSent == PayloadSize(pendingRequests[0], sector)
    {
    }

    /** send_pending_reqs: replies leave in list order and whole; the loop stops at the first one
        the transport does not take completely. */
    method SendPendingReqs(answers: seq<nat>, nvmePending: bool) returns (sent: nat)
      requires Valid()
      modifies this
      ensures Valid() && sent <= |old(pendingRequests)|
      ensures done == old(done) + old(pendingRequests)[..sent] && pendingRequests == old(pendingRequests)[sent..]
      ensures pendingRequests != [] ==> 0 in answers || |answers| <= |out| - old(|out|)
    {
      hide Valid;
      sent := 0;
      var rest := answers;
      while pendingRequests != []
        invariant Valid() && sent <= |old(pendingRequests)| && Suffix(rest, answers)
        invariant |out| >= old(|out|) + |answers| - |rest|
        invariant done == old(done) + old(pendingRequests)[..sent] && pendingRequests == old(pendingRequests)[sent..]
        decreases |pendingRequests|
      {
        var ok;
        ok, rest := SendReq(rest, nvmePending);
        if !ok {
          return;
        }
        sent := sent + 1;
      }
    }
  }

  /** What is left of a list of answers. */
  predicate Suffix(rest: seq<nat>, answers: seq<nat>) {
    |rest| <= |answers| && rest == answers[|answers| - |rest|..]
  }

  /** The whole output is a prefix of the messages of all replies, in list order. */
  lemma {:induction false} OutputIsPrefix(done: seq<Reply>, pending: seq<Reply>, progress: nat, sector: nat)
    requires AllReady(done, sector) && AllReady(pending, sector)
    requires pending == [] ==> progress == 0
    requires pending != [] ==> progress <= HEADER_SIZE + PayloadSize(pending[0], sector)
    ensures AllReady(done + pending, sector)
    ensures Messages(done, sector) + (if pending == [] then [] else Message(pending[0], sector)[..progress])
            <= Messages(done + pending, sector)
  {
    MessagesSplit(done, pending, sector);
  }
}
