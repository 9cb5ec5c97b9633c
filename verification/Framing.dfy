/** The ReFlex wire format, and receiving it as a machine that eats one byte at a time. */
module Framing {
  import opened Segments

  const HEADER_SIZE: nat := 24
  const PAGE_SIZE: nat := 4096
  const MAX_PAGES_PER_ACCESS: nat := 256
  const CMD_GET: nat := 0
  const CMD_SET: nat := 1
  const CMD_REG: nat := 3
  const RESP_OK: nat := 0
  const TWO64: nat := 0x1_0000_0000_0000_0000

  // ---------------------------------------------------------------- little-endian fields

  function Power(w: nat): (p: nat)
    ensures p > 0
  {
    if w == 0 then 1 else 256 * Power(w - 1)
  }

  function Le(n: nat, w: nat): (b: seq<Byte>)
    ensures |b| == w
  {
    if w == 0 then [] else [n % 256] + Le(n / 256, w - 1)
  }

  function UnLe(b: seq<Byte>): nat {
    if b == [] then 0 else b[0] + 256 * UnLe(b[1..])
  }

  lemma {:induction false} UnLeLe(n: nat, w: nat)
    requires n < Power(w)
    ensures UnLe(Le(n, w)) == n
  {
    if w > 0 {
      UnLeLe(n / 256, w - 1);
      assert Le(n, w)[1..] == Le(n / 256, w - 1);
    }
  }

  // ---------------------------------------------------------------- headers

  datatype Header = Header(magic: nat, opcode: nat, handle: nat, lba: nat, count: nat)

  function Encode(h: Header): (b: seq<Byte>)
    ensures |b| == HEADER_SIZE
  {
    Le(h.magic, 2) + Le(h.opcode, 2) + Le(h.handle, 8) + Le(h.lba, 8) + Le(h.count, 4)
  }

  function Decode(b: seq<Byte>): Header
    requires |b| == HEADER_SIZE
  {
    Header(UnLe(b[0..2]), UnLe(b[2..4]), UnLe(b[4..12]), UnLe(b[12..20]), UnLe(b[20..24]))
  }

  predicate Fits(h: Header) {
    h.magic < 0x1_0000 && h.opcode < 0x1_0000 && h.handle < TWO64 && h.lba < TWO64 && h.count < 0x1_0000_0000
  }

  lemma {:induction false} Widths()
    ensures Power(2) == 0x1_0000 && Power(4) == 0x1_0000_0000 && Power(8) == TWO64
  {
  }

  lemma {:induction false} DecodeEncode(h: Header)
    requires Fits(h)
    ensures Decode(Encode(h)) == h
  {
    hide Le, UnLe, Power;
    Widths();
    UnLeLe(h.magic, 2);
    UnLeLe(h.opcode, 2);
    UnLeLe(h.handle, 8);
    UnLeLe(h.lba, 8);
    UnLeLe(h.count, 4);
    var b := Encode(h);
    assert b[0..2] == Le(h.magic, 2) && b[2..4] == Le(h.opcode, 2) && b[4..12] == Le(h.handle, 8);
    assert b[12..20] == Le(h.lba, 8) && b[20..24] == Le(h.count, 4);
  }

  // ---------------------------------------------------------------- requests

  datatype Command =
    | Read(lba: nat, count: nat, handle: nat)
    | Write(lba: nat, count: nat, handle: nat, payload: seq<Byte>)
    | Register(iops: nat, slo: nat, handle: nat)

  /** The device the requests go to. */
  datatype Device = Device(sector: nat, size: nat)

  function Pages(n: nat): nat {
    (n + PAGE_SIZE - 1) / PAGE_SIZE
  }

  datatype Status = Open | Closed | Aborted

  /** pending says the header is complete and a payload is on its way. */
  datatype Rx = Rx(head: seq<Byte>, pending: bool, body: seq<Byte>, commands: seq<Command>, status: Status)

  function Start(): Rx {
    Rx([], false, [], [], Open)
  }

  predicate Valid(s: Rx, d: Device) {
    s.status == Open ==>
      if s.pending then
        |s.head| == HEADER_SIZE && Decode(s.head).opcode == CMD_SET && |s.body| < Decode(s.head).count * d.sector
      else |s.head| < HEADER_SIZE
  }

  /** The connection is finished; what was half received no longer matters. */
  function Stop(s: Rx, status: Status): Rx {
    Rx([], false, [], s.commands, status)
  }

  /** A complete request goes to the device. */
  function Issue(s: Rx, c: Command, d: Device): Rx
    requires !c.Register?
  {
    if (c.lba * 512) % TWO64 >= d.size then Stop(s, Aborted)
    else s.(head := [], pending := false, body := [], commands := s.commands + [c])
  }

  function OnHeader(s: Rx, d: Device): Rx
    requires |s.head| == HEADER_SIZE
  {
    var h := Decode(s.head);
    if h.magic != HEADER_SIZE then Stop(s, Aborted)
    else if h.opcode == CMD_REG then s.(head := [], commands := s.commands + [Register(h.lba, h.count, h.handle)])
    else if Pages(h.count * d.sector) > MAX_PAGES_PER_ACCESS then Stop(s, Aborted)
    else if h.opcode == CMD_SET then
      if h.count * d.sector > 0 then s.(pending := true, body := [])
      else Issue(s, Write(h.lba, h.count, h.handle, []), d)
    else if h.opcode == CMD_GET then Issue(s, Read(h.lba, h.count, h.handle), d)
    else Stop(s, Closed)
  }

  function OnBody(s: Rx, d: Device): Rx
    requires |s.head| == HEADER_SIZE
  {
    var h := Decode(s.head);
    if |s.body| < h.count * d.sector then s else Issue(s, Write(h.lba, h.count, h.handle, s.body), d)
  }

  function Eat(s: Rx, b: Byte, d: Device): Rx {
    if s.status != Open then s
    else if s.pending then
      if |s.head| == HEADER_SIZE then OnBody(s.(body := s.body + [b]), d) else s
    else
      var s' := s.(head := s.head + [b]);
      if |s'.head| == HEADER_SIZE then OnHeader(s', d) else s'
  }

  function Feed(s: Rx, bytes: seq<Byte>, d: Device): Rx
    decreases |bytes|
  {
    if bytes == [] then s else Feed(Eat(s, bytes[0], d), bytes[1..], d)
  }

  // ---------------------------------------------------------------- cutting does not matter

  lemma {:induction false} FeedAppend(s: Rx, a: seq<Byte>, b: seq<Byte>, d: Device)
    ensures Feed(s, a + b, d) == Feed(Feed(s, a, d), b, d)
    decreases |a|
  {
    if a == [] {
      assert a + b == b;
    } else {
      FeedAppend(Eat(s, a[0], d), a[1..], b, d);
      assert (a + b)[1..] == a[1..] + b;
    }
  }

  function FeedChunks(s: Rx, chunks: seq<seq<Byte>>, d: Device): Rx
    decreases |chunks|
  {
    if chunks == [] then s else FeedChunks(Feed(s, chunks[0], d), chunks[1..], d)
  }

  lemma {:induction false} FeedJoined(s: Rx, chunks: seq<seq<Byte>>, d: Device)
    ensures FeedChunks(s, chunks, d) == Feed(s, Join(chunks), d)
    decreases |chunks|
  {
    if chunks != [] {
      FeedAppend(s, chunks[0], Join(chunks[1..]), d);
      FeedJoined(Feed(s, chunks[0], d), chunks[1..], d);
    }
  }

  lemma {:induction false} EatValid(s: Rx, b: Byte, d: Device)
    requires Valid(s, d)
    ensures Valid(Eat(s, b, d), d)
  {
  }

  lemma {:induction false} FeedValid(s: Rx, bytes: seq<Byte>, d: Device)
    requires Valid(s, d)
    ensures Valid(Feed(s, bytes, d), d)
    decreases |bytes|
  {
    hide Valid, Eat;
    if bytes != [] {
      EatValid(s, bytes[0], d);
      FeedValid(Eat(s, bytes[0], d), bytes[1..], d);
    }
  }

  /** Bytes that do not complete the header. */
  lemma {:induction false} FeedHead(s: Rx, bytes: seq<Byte>, d: Device)
    requires s.status == Open && !s.pending && |s.head| + |bytes| <= HEADER_SIZE && |s.head| < HEADER_SIZE
    ensures var s' := s.(head := s.head + bytes);
      Feed(s, bytes, d) == if |s'.head| == HEADER_SIZE then OnHeader(s', d) else s'
    decreases |bytes|
  {
    hide OnHeader;
    if bytes == [] {
      assert s.head + bytes == s.head;
    } else if |bytes| == 1 {
      assert bytes == [bytes[0]] && bytes[1..] == [];
      assert Feed(s, bytes, d) == Feed(Eat(s, bytes[0], d), [], d);
    } else {
      FeedHead(s.(head := s.head + [bytes[0]]), bytes[1..], d);
      assert s.head + [bytes[0]] + bytes[1..] == s.head + bytes;
    }
  }

  /** Bytes of the payload, up to its end. */
  lemma {:induction false} FeedBody(s: Rx, bytes: seq<Byte>, d: Device)
    requires s.status == Open && s.pending && |s.head| == HEADER_SIZE && bytes != []
    requires |s.body| + |bytes| <= Decode(s.head).count * d.sector
    ensures Feed(s, bytes, d) == OnBody(s.(body := s.body + bytes), d)
    decreases |bytes|
  {
    hide Issue, Decode;
    if |bytes| == 1 {
      assert bytes == [bytes[0]] && bytes[1..] == [];
      assert Feed(s, bytes, d) == Feed(Eat(s, bytes[0], d), [], d);
    } else {
      var s' := s.(body := s.body + [bytes[0]]);
      assert Eat(s, bytes[0], d) == s';
      FeedBody(s', bytes[1..], d);
      assert s.body + [bytes[0]] + bytes[1..] == s.body + bytes;
    }
  }

  // ---------------------------------------------------------------- from the wire and back

  function Wire(c: Command): seq<Byte> {
    match c
    case Read(lba, count, handle) => Encode(Header(HEADER_SIZE, CMD_GET, handle, lba, count))
    case Write(lba, count, handle, payload) => Encode(Header(HEADER_SIZE, CMD_SET, handle, lba, count)) + payload
    case Register(iops, slo, handle) => Encode(Header(HEADER_SIZE, CMD_REG, handle, iops, slo))
  }

  function WireAll(cs: seq<Command>): seq<Byte> {
    if cs == [] then [] else Wire(cs[0]) + WireAll(cs[1..])
  }

  /** A request the server accepts. */
  predicate Proper(c: Command, d: Device) {
    match c
    case Register(iops, slo, handle) => iops < TWO64 && slo < 0x1_0000_0000 && handle < TWO64
    case _ =>
      && c.lba < TWO64 && c.count < 0x1_0000_0000 && c.handle < TWO64
      && Pages(c.count * d.sector) <= MAX_PAGES_PER_ACCESS && (c.lba * 512) % TWO64 < d.size
      && (c.Write? ==> |c.payload| == c.count * d.sector)
  }

  predicate Idle(s: Rx) {
    s.head == [] && !s.pending && s.body == [] && s.status == Open
  }

  lemma {:induction false} ReceivesOne(s: Rx, c: Command, d: Device)
    requires Idle(s) && Proper(c, d)
    ensures Feed(s, Wire(c), d) == s.(commands := s.commands + [c])
  {
    hide Encode, Decode, Pages;
    var h := match c
      case Read(lba, count, handle) => Header(HEADER_SIZE, CMD_GET, handle, lba, count)
      case Write(lba, count, handle, payload) => Header(HEADER_SIZE, CMD_SET, handle, lba, count)
      case Register(iops, slo, handle) => Header(HEADER_SIZE, CMD_REG, handle, iops, slo);
    DecodeEncode(h);
    FeedHead(s, Encode(h), d);
    assert [] + Encode(h) == Encode(h);
    if c.Write? {
      FeedAppend(s, Encode(h), c.payload, d);
      if c.payload != [] {
        FeedBody(s.(head := Encode(h), pending := true, body := []), c.payload, d);
        assert [] + c.payload == c.payload;
      }
    }
  }

  lemma {:induction false} ReceivesAll(s: Rx, cs: seq<Command>, d: Device)
    requires Idle(s) && forall i | 0 <= i < |cs| :: Proper(cs[i], d)
    ensures Feed(s, WireAll(cs), d) == s.(commands := s.commands + cs)
    decreases |cs|
  {
    hide Wire, Proper, Eat;
    if cs == [] {
      assert s.commands + cs == s.commands;
    } else {
      ReceivesOne(s, cs[0], d);
      FeedAppend(s, Wire(cs[0]), WireAll(cs[1..]), d);
      ReceivesAll(s.(commands := s.commands + [cs[0]]), cs[1..], d);
      assert s.commands + [cs[0]] + cs[1..] == s.commands + cs;
    }
  }

  /** However the transport cuts the stream of any list of requests, exactly these requests come
      out, in order and with their payloads. */
  lemma {:induction false} ChunkingIsInvisible(cs: seq<Command>, chunks: seq<seq<Byte>>, d: Device)
    requires Join(chunks) == WireAll(cs) && forall i | 0 <= i < |cs| :: Proper(cs[i], d)
    ensures FeedChunks(Start(), chunks, d) == Start().(commands := cs)
  {
    FeedJoined(Start(), chunks, d);
    ReceivesAll(Start(), cs, d);
    assert [] + cs == cs;
  }
}
