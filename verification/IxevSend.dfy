/** The send side of an ixev connection as a function of values: a scatter/gather array over
    library buffers and application memory, and the release callbacks keyed to stream positions. */
module IxevSend {
  import opened Segments
  import opened Wrappers

  const IXEV_SEND_DEPTH: nat := 16
  const IXEV_SEND_WIN_SIZE: nat := 0x2_0000
  const BUF_SIZE: nat := 8192

  /** A library buffer, or a piece of memory the application lends. */
  datatype Region = Buf(id: nat) | App(id: nat)

  datatype Entry = Entry(region: Region, off: nat, len: nat)

  datatype Ref = Ref(region: Region, pos: nat)

  /** send, cur, refs and the totals are fields of ixev_ctx; mem holds the contents of all
      regions.  The rest is history: bytes taken from the application, the region each of them
      lies in, bytes handed to the kernel, and the regions whose callback has fired. */
  datatype Ctx = Ctx(send: seq<Entry>, cur: Option<Region>, refs: seq<Ref>, sendTotal: nat, sentTotal: nat, dead: bool,
                     mem: map<Region, seq<Byte>>, nextBuf: nat,
                     accepted: seq<Byte>, owner: seq<Region>, kernel: seq<Byte>, released: set<Region>)

  datatype Result = Sent(n: nat) | EIO | EAGAIN | ENOBUFS

  function Fresh(): Ctx {
    Ctx([], None, [], 0, 0, false, map[], 0, [], [], [], {})
  }

  /** The bytes an array of entries points to. */
  function Pending(send: seq<Entry>, mem: map<Region, seq<Byte>>): (r: seq<Byte>)
    requires Valid(send, mem)
  {
    if send == [] then [] else Bytes(send[0], mem) + Pending(send[1..], mem)
  }

  predicate ValidEntry(e: Entry, mem: map<Region, seq<Byte>>) {
    e.region in mem && 1 <= e.len && e.off + e.len <= |mem[e.region]|
  }

  predicate Valid(send: seq<Entry>, mem: map<Region, seq<Byte>>) {
    forall i | 0 <= i < |send| :: ValidEntry(send[i], mem)
  }

  function Bytes(e: Entry, mem: map<Region, seq<Byte>>): (r: seq<Byte>)
    requires ValidEntry(e, mem)
    ensures |r| == e.len
  {
    mem[e.region][e.off..e.off + e.len]
  }

  function Repeat(r: Region, n: nat): seq<Region> {
    seq(n, _ => r)
  }

  function Min(a: int, b: int): int {
    if a < b then a else b
  }

  /** What the window lets through, as the unsigned subtraction computes it. */
  function WindowLen(c: Ctx, len: nat): nat {
    var left := (IXEV_SEND_WIN_SIZE - c.sendTotal + c.sentTotal) % 0x1_0000_0000_0000_0000;
    Min(left, len)
  }

  function SetPos(refs: seq<Ref>, r: Region, pos: nat): (rs: seq<Ref>)
    ensures |rs| == |refs|
    ensures forall i | 0 <= i < |refs| :: rs[i] == if refs[i].region == r then Ref(r, pos) else refs[i]
  {
    if refs == [] then []
    else [if refs[0].region == r then Ref(r, pos) else refs[0]] + SetPos(refs[1..], r, pos)
  }

  /** Bytes of data in region r are taken from the application. */
  function Taken(c: Ctx, data: seq<Byte>, r: Region): Ctx {
    c.(sendTotal := c.sendTotal + |data|, accepted := c.accepted + data, owner := c.owner + Repeat(r, |data|))
  }

  /** The hot path may be taken: entries are waiting and the last buffer is known. */
  predicate Hot(c: Ctx) {
    c.send != [] && c.cur.Some? && c.cur.value in c.mem
  }

  /** The last entry k bytes longer. */
  function Lengthened(send: seq<Entry>, k: nat): seq<Entry>
    requires send != []
  {
    var last := send[|send| - 1];
    send[..|send| - 1] + [last.(len := last.len + k)]
  }

  /** How many of len bytes a buffer holding used bytes can store. */
  function Fits(used: nat, len: nat): (k: nat)
    ensures k <= len
  {
    if used >= BUF_SIZE then 0 else Min(len, BUF_SIZE - used)
  }

  /** Appends what fits to the current buffer and lengthens the last entry. */
  function HotPath(c: Ctx, data: seq<Byte>): (p: (Ctx, nat))
    requires Hot(c)
    ensures p.1 <= |data|
  {
    var b := c.cur.value;
    var k := Fits(|c.mem[b]|, |data|);
    var c1 := Taken(c, data[..k], b);
    (c1.(mem := c.mem[b := c.mem[b] + data[..k]], send := Lengthened(c.send, k),
      refs := SetPos(c.refs, b, c1.sendTotal)), k)
  }

  /** One new buffer with the first bytes of data. */
  function ColdStep(c: Ctx, data: seq<Byte>): Ctx {
    var b, k := Buf(c.nextBuf), Min(|data|, BUF_SIZE);
    var c1 := Taken(c, data[..k], b);
    c1.(mem := c.mem[b := data[..k]], nextBuf := c.nextBuf + 1, cur := Some(b),
        send := c.send + [Entry(b, 0, k)], refs := c.refs + [Ref(b, c1.sendTotal)])
  }

  /** Fills new buffers until the data, the array or the pool is used up. */
  function ColdPath(c: Ctx, data: seq<Byte>, pool: nat): (Ctx, nat)
    decreases |data|
  {
    if data == [] || |c.send| >= IXEV_SEND_DEPTH then (c, 0)
    else if pool == 0 then (c.(cur := None), 0)
    else
      var k := Min(|data|, BUF_SIZE);
      var (c', n) := ColdPath(ColdStep(c, data), data[k..], pool - 1);
      (c', k + n)
  }

  /** ixev_send with pool buffers to be had. */
  function Send(c: Ctx, data: seq<Byte>, pool: nat): (Ctx, Result) {
    var len := WindowLen(c, |data|);
    if c.dead then (c, EIO)
    else if len == 0 then (c, EAGAIN)
    else
      var (c1, k) := if Hot(c) then HotPath(c, data[..len]) else (c, 0);
      var (c2, n) := ColdPath(c1, data[k..len], pool);
      (c2, if k + n == 0 then ENOBUFS else Sent(k + n))
  }

  /** ixev_send_zc of len bytes at offset off of application memory. */
  function SendZc(c: Ctx, id: nat, content: seq<Byte>, off: nat, len: nat): (Ctx, Result)
    requires off + len <= |content|
  {
    var n := WindowLen(c, len);
    if c.dead then (c, EIO)
    else if n == 0 then (c, EAGAIN)
    else if |c.send| >= IXEV_SEND_DEPTH then (c, ENOBUFS)
    else
      (Taken(c, content[off..off + n], App(id)).(mem := c.mem[App(id) := content], cur := None,
         send := c.send + [Entry(App(id), off, n)]), Sent(n))
  }

  function AddSentCb(c: Ctx, r: Region): Ctx {
    c.(refs := c.refs + [Ref(r, c.sendTotal)])
  }

  /** The array after the kernel has taken ret bytes. */
  function Shift(send: seq<Entry>, ret: nat): seq<Entry> {
    if send == [] then []
    else if ret < send[0].len then [send[0].(off := send[0].off + ret, len := send[0].len - ret)] + send[1..]
    else Shift(send[1..], ret - send[0].len)
  }

  function HandleSendvRet(c: Ctx, ret: int): Ctx
    requires Valid(c.send, c.mem) && ret <= |Pending(c.send, c.mem)|
  {
    if ret < 0 then c.(dead := true)
    else c.(send := Shift(c.send, ret), kernel := c.kernel + Pending(c.send, c.mem)[..ret])
  }

  /** Callbacks fire from the head of the list while their position has been reached. */
  function Fire(refs: seq<Ref>, total: nat): (seq<Ref>, set<Region>) {
    if refs != [] && refs[0].pos <= total then
      var (rest, fired) := Fire(refs[1..], total);
      (rest, fired + {refs[0].region})
    else (refs, {})
  }

  function TcpSent(c: Ctx, len: nat): Ctx {
    var total := c.sentTotal + len;
    var (rest, fired) := Fire(c.refs, total);
    c.(sentTotal := total, refs := rest, released := c.released + fired, cur := if rest == [] then None else c.cur)
  }
}
