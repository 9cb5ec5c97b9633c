/** receive_req: a resumable loop over the bytes that have arrived. */
module ReflexReceive {
  import opened Segments
  import opened Framing
  import opened PagedBuffers

  /** A request handed to the device, with the pages it reads from or writes to. */
  datatype Job =
    | ReadJob(lba: nat, count: nat, handle: nat, pages: seq<seq<Byte>>)
    | WriteJob(lba: nat, count: nat, handle: nat, pages: seq<seq<Byte>>)
    | RegisterJob(iops: nat, slo: nat, handle: nat)

  /** The job carries out the command; byte k of a payload is in page k / 4096 at k % 4096. */
  predicate Matches(j: Job, c: Command) {
    match j
    case ReadJob(lba, count, handle, pages) => c == Read(lba, count, handle) && Paged(pages)
    case WriteJob(lba, count, handle, pages) =>
      c.Write? && c == Write(lba, count, handle, c.payload) && Paged(pages) && c.payload <= Join(pages)
    case RegisterJob(iops, slo, handle) => c == Register(iops, slo, handle)
  }

  lemma {:induction false} PayloadInPages(j: Job, c: Command, k: nat)
    requires Matches(j, c) && c.Write? && k < |c.payload|
    ensures k / PAGE_SIZE < |j.pages| && |j.pages[k / PAGE_SIZE]| == PAGE_SIZE
    ensures j.pages[k / PAGE_SIZE][k % PAGE_SIZE] == c.payload[k]
  {
    FlatSize(j.pages);
    FlatAt(j.pages, k);
  }

  function BlankPages(n: nat): (pages: seq<seq<Byte>>)
    ensures |pages| == n && Paged(pages)
  {
    seq(n, _ => seq(PAGE_SIZE, _ => 0))
  }

  /** What remains to be done once a header is complete: rest is still unread. */
  function Finish(s: Rx, rest: seq<Byte>, d: Device): Rx
    requires |s.head| == HEADER_SIZE
  {
    var h := Decode(s.head);
    if h.opcode == CMD_SET then
      if |s.body| < h.count * d.sector then Feed(s, rest, d)
      else Feed(Issue(s, Write(h.lba, h.count, h.handle, s.body), d), rest, d)
    else if h.opcode == CMD_GET then Feed(Issue(s, Read(h.lba, h.count, h.handle), d), rest, d)
    else Feed(Stop(s, Closed), rest, d)
  }

  lemma {:induction false} FeedStopped(s: Rx, bytes: seq<Byte>, d: Device)
    requires s.status != Open
    ensures Feed(s, bytes, d) == s
    decreases |bytes|
  {
    if bytes != [] {
      FeedStopped(s, bytes[1..], d);
    }
  }

  /** The step from a complete header to the rest. */
  lemma {:induction false} HeaderThenFinish(s: Rx, rest: seq<Byte>, d: Device)
    requires |s.head| == HEADER_SIZE && !s.pending && s.body == [] && s.status == Open
    requires var h := Decode(s.head);
      h.magic == HEADER_SIZE && h.opcode != CMD_REG && Pages(h.count * d.sector) <= MAX_PAGES_PER_ACCESS
    ensures Feed(OnHeader(s, d), rest, d) == Finish(s.(pending := true), rest, d)
  {
  }

  class PpConn {
    const device: Device
    var rxReceived: nat
    var rxPending: bool
    var dataRecv: seq<Byte>
    var pages: seq<seq<Byte>>
    var currentSglBuf: nat
    var status: Status
    var jobs: seq<Job>
    ghost var commands: seq<Command>

    ghost predicate JobsMatch()
      reads this
    {
      |jobs| == |commands| && forall i | 0 <= i < |jobs| :: Matches(jobs[i], commands[i])
    }

    /** Between two steps of the loop; a payload in progress has its pages. */
    ghost predicate Valid()
      reads this
    {
      && JobsMatch()
      && (if rxPending then
            && |dataRecv| == HEADER_SIZE && Paged(pages)
            && |pages| == Pages(Decode(dataRecv).count * device.sector)
            && rxReceived <= Decode(dataRecv).count * device.sector <= |Join(pages)|
            && (Decode(dataRecv).opcode == CMD_SET ==> currentSglBuf == rxReceived / PAGE_SIZE)
            && (Decode(dataRecv).opcode != CMD_SET ==> rxReceived == 0)
          else |dataRecv| == rxReceived && (status == Open ==> rxReceived < HEADER_SIZE))
    }

    ghost function Abs(): Rx
      requires Valid()
      reads this
    {
      if status != Open then Rx([], false, [], commands, status)
      else Rx(dataRecv, rxPending, if rxPending then Join(pages)[..rxReceived] else [], commands, Open)
    }

    constructor (d: Device)
      ensures Valid() && device == d && Abs() == Start()
    {
      device := d;
      rxReceived, rxPending, dataRecv, pages, currentSglBuf := 0, false, [], [], 0;
      status, jobs, commands := Open, [], [];
    }

    /** Hands a job to the device and is ready for the next header. */
    method Submit(j: Job, ghost c: Command)
      requires Valid() && status == Open && Matches(j, c)
      modifies this
      ensures Valid() && !rxPending && Abs() == Rx([], false, [], old(commands) + [c], Open)
    {
      jobs, commands := jobs + [j], commands + [c];
      rxReceived, rxPending, dataRecv := 0, false, [];
    }

    /** The device address check, and then the job. */
    method IssueReq(j: Job, ghost c: Command)
      requires Valid() && status == Open && Matches(j, c) && !c.Register? && !j.RegisterJob?
      modifies this
      ensures Valid() && Abs() == Issue(old(Abs()), c, device) && (status == Open ==> !rxPending)
    {
      if (j.lba * 512) % TWO64 >= device.size {
        status := Aborted;
      } else {
        Submit(j, c);
      }
    }

    /** One read of header bytes; done says that the header is complete. */
    method ReadHeader(inbox: seq<Byte>) returns (rest: seq<Byte>, done: bool)
      requires Valid() && status == Open && !rxPending && inbox != []
      modifies `rxReceived, `dataRecv
      ensures JobsMatch() && |rest| < |inbox| && !rxPending && |dataRecv| == rxReceived <= HEADER_SIZE
        && done == (rxReceived == HEADER_SIZE)
      ensures !done ==> rest == [] && Valid() && Abs() == Feed(old(Abs()), inbox, device)
      ensures done ==>
        Feed(old(Abs()), inbox, device) ==
        Feed(OnHeader(Rx(dataRecv, false, [], commands, Open), device), rest, device)
    {
      hide OnHeader, Decode;
      var n := if |inbox| < HEADER_SIZE - rxReceived then |inbox| else HEADER_SIZE - rxReceived;
      ghost var s := Abs();
      FeedHead(s, inbox[..n], device);
      FeedAppend(s, inbox[..n], inbox[n..], device);
      assert inbox[..n] + inbox[n..] == inbox;
      dataRecv := dataRecv + inbox[..n];
      rxReceived := rxReceived + n;
      rest, done := inbox[n..], rxReceived == HEADER_SIZE;
    }

    /** A complete header: a registration, a rejected header, or a request that gets its pages. */
    method AcceptHeader(ghost rest: seq<Byte>)
      requires |dataRecv| == rxReceived == HEADER_SIZE && !rxPending && status == Open
      requires JobsMatch()
      modifies this
      ensures Valid() && (rxPending ==> status == Open && rxReceived == 0)
      ensures var s := Rx(old(dataRecv), false, [], old(commands), Open);
        Feed(OnHeader(s, device), rest, device) == if rxPending then Finish(Abs(), rest, device)
          else Feed(Abs(), rest, device)
    {
      hide Decode, Feed, Finish, Issue, Pages;
      ghost var s := Rx(dataRecv, false, [], commands, Open);
      var h := Decode(dataRecv);
      if h.magic != HEADER_SIZE {
        status := Aborted;
        return;
      }
      if h.opcode == CMD_REG {
        Registration(RegisterJob(h.lba, h.count, h.handle), Register(h.lba, h.count, h.handle));
        return;
      }
      var num4k := Pages(h.count * device.sector);
      if num4k > MAX_PAGES_PER_ACCESS {
        status := Aborted;
        return;
      }
      HeaderThenFinish(s, rest, device);
      PagesCover(h.count * device.sector);
      pages := BlankPages(num4k);
      FlatSize(pages);
      currentSglBuf := 0;
      rxPending, rxReceived := true, 0;
    }

    method Registration(j: Job, ghost c: Command)
      requires JobsMatch() && Matches(j, c)
      requires !rxPending && status == Open
      modifies `jobs, `commands, `rxReceived, `dataRecv
      ensures Valid() && Abs() == Rx([], false, [], old(commands) + [c], Open)
    {
      jobs, commands := jobs + [j], commands + [c];
      rxReceived, dataRecv := 0, [];
    }

    /** One read of payload bytes into the current page. */
    method ReadPiece(inbox: seq<Byte>) returns (rest: seq<Byte>)
      requires Valid() && status == Open && rxPending && Decode(dataRecv).opcode == CMD_SET
      requires inbox != [] && rxReceived < Decode(dataRecv).count * device.sector
      modifies `rxReceived, `pages, `currentSglBuf
      ensures Valid() && |rest| < |inbox| && rest == inbox[|inbox| - |rest|..]
      ensures Abs() == old(Abs()).(body := old(Abs()).body + inbox[..|inbox| - |rest|])
    {
      hide Decode, Pages, Matches, Join, Store;
      var total := Decode(dataRecv).count * device.sector;
      var want := NextPiece(rxReceived, total);
      var n := if |inbox| < want then |inbox| else want;
      ghost var flat := Join(pages);
      EnoughPages(total, rxReceived);
      StoreFlat(pages, currentSglBuf, rxReceived % PAGE_SIZE, inbox[..n]);
      NextPage(rxReceived, n);
      pages := Store(pages, currentSglBuf, rxReceived % PAGE_SIZE, inbox[..n]);
      FlatSize(pages);
      assert Join(pages)[..rxReceived + n] == flat[..rxReceived] + inbox[..n];
      rxReceived := rxReceived + n;
      if rxReceived % PAGE_SIZE == 0 {
        currentSglBuf := currentSglBuf + 1;
      }
      rest := inbox[n..];
    }

    /** Reads the payload until it is complete or the bytes run out. */
    method ReadPayload(inbox: seq<Byte>) returns (rest: seq<Byte>)
      requires Valid() && status == Open && rxPending && Decode(dataRecv).opcode == CMD_SET
      modifies `rxReceived, `pages, `currentSglBuf
      ensures Valid() && |rest| <= |inbox|
      ensures rxReceived < Decode(dataRecv).count * device.sector ==> rest == []
      ensures Finish(Abs(), rest, device) == Finish(old(Abs()), inbox, device)
    {
      hide Decode, Pages, Matches, Feed, Issue, Valid;
      rest := inbox;
      InProgress();
      while rxReceived < Decode(dataRecv).count * device.sector
        invariant Valid() && |rest| <= |inbox| && |dataRecv| == HEADER_SIZE
        invariant Abs().head == dataRecv && Abs().status == Open && Abs().pending && |Abs().body| == rxReceived
        invariant Finish(Abs(), rest, device) == Finish(old(Abs()), inbox, device)
        decreases |rest|
      {
        if rest == [] {
          return;
        }
        ghost var s, all := Abs(), rest;
        rest := ReadPiece(rest);
        InProgress();
        FinishPiece(s, all, |all| - |rest|, device);
      }
    }

    lemma InProgress()
      requires Valid() && status == Open && rxPending
      ensures |dataRecv| == HEADER_SIZE && Abs().head == dataRecv && Abs().status == Open && Abs().pending
      ensures |Abs().body| == rxReceived <= Decode(dataRecv).count * device.sector
    {
    }

    /** The payload of a write, and then the request goes to the device. */
    method FinishReq(inbox: seq<Byte>) returns (rest: seq<Byte>)
      requires Valid() && status == Open && rxPending
      modifies this
      ensures Valid() && |rest| <= |inbox| && (rxPending && status == Open ==> rest == [])
      ensures Feed(Abs(), rest, device) == Finish(old(Abs()), inbox, device)
    {
      hide Decode, Pages, Matches, Feed, Issue, Valid;
      rest := inbox;
      InProgress();
      var h := Decode(dataRecv);
      if h.opcode == CMD_SET {
        rest := ReadPayload(inbox);
        InProgress();
        if rxReceived < h.count * device.sector {
          return;
        }
        WriteReady(h);
        IssueReq(WriteJob(h.lba, h.count, h.handle, pages), Write(h.lba, h.count, h.handle, Abs().body));
      } else if h.opcode == CMD_GET {
        ReadReady(h);
        IssueReq(ReadJob(h.lba, h.count, h.handle, pages), Read(h.lba, h.count, h.handle));
      } else {
        CloseConn();
      }
    }

    method CloseConn()
      requires Valid()
      modifies `status
      ensures Valid() && status == Closed && Abs() == Stop(old(Abs()), Closed)
    {
      status := Closed;
    }

    lemma WriteReady(h: Header)
      requires Valid() && status == Open && rxPending
      ensures Matches(WriteJob(h.lba, h.count, h.handle, pages), Write(h.lba, h.count, h.handle, Abs().body))
    {
    }

    lemma ReadReady(h: Header)
      requires Valid() && status == Open && rxPending
      ensures Matches(ReadJob(h.lba, h.count, h.handle, pages), Read(h.lba, h.count, h.handle))
    {
    }

    /** receive_req: takes all the bytes that have arrived. */
    method ReceiveReq(inbox: seq<Byte>)
      requires Valid() && Framing.Valid(Abs(), device)
      modifies this
      ensures Valid() && Abs() == Feed(old(Abs()), inbox, device) && Framing.Valid(Abs(), device)
    {
      hide Decode, Matches, Feed, Finish, OnHeader, PpConn.Valid, Framing.Valid;
      FeedValid(Abs(), inbox, device);
      var rest := inbox;
      while status == Open
        invariant Valid() && Feed(Abs(), rest, device) == Feed(old(Abs()), inbox, device)
        invariant status == Open && rxPending ==> Framing.Valid(Abs(), device)
        decreases |rest|, rxPending
      {
        if !rxPending {
          if rest == [] {
            FeedNothing(Abs(), device);
            return;
          }
          var done;
          rest, done := ReadHeader(rest);
          if !done {
            return;
          }
          AcceptHeader(rest);
          if !rxPending {
            continue;
          }
        } else {
          PendingFinish(Abs(), rest, device);
        }
        rest := FinishReq(rest);
        if status != Open {
          break;
        }
        if rxPending {
          FeedNothing(Abs(), device);
          return;
        }
      }
      FeedStopped(Abs(), rest, device);
    }
  }

  lemma {:induction false} FeedNothing(s: Rx, d: Device)
    ensures Feed(s, [], d) == s
  {
  }

  /** A payload in progress. */
  lemma {:induction false} PendingFinish(s: Rx, rest: seq<Byte>, d: Device)
    requires s.status == Open && s.pending && Framing.Valid(s, d)
    ensures |s.head| == HEADER_SIZE && Finish(s, rest, d) == Feed(s, rest, d)
  {
  }

  /** Some bytes of the payload are read; more may follow. */
  lemma {:induction false} FinishPiece(s: Rx, all: seq<Byte>, n: nat, d: Device)
    requires |s.head| == HEADER_SIZE && s.status == Open && s.pending && Decode(s.head).opcode == CMD_SET
    requires 0 < n <= |all| && |s.body| + n <= Decode(s.head).count * d.sector
    ensures Finish(s.(body := s.body + all[..n]), all[n..], d) == Finish(s, all, d)
  {
    hide Decode, Issue, Feed;
    FeedBody(s, all[..n], d);
    FeedAppend(s, all[..n], all[n..], d);
    assert all[..n] + all[n..] == all;
  }

  lemma {:induction false} PagesCover(n: nat)
    ensures n <= PAGE_SIZE * Pages(n)
  {
  }
}
