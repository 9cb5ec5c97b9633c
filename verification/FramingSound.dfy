/** Receiving, the other way round: for any bytes at all, what reaches the device are proper requests
    that were on the wire, and all of them. */
module FramingSound {
  import opened Segments
  import opened Framing

  // ---------------------------------------------------------------- fields

  lemma {:induction false} LeUnLe(b: seq<Byte>)
    ensures UnLe(b) < Power(|b|) && Le(UnLe(b), |b|) == b
    decreases |b|
  {
    if b != [] {
      LeUnLe(b[1..]);
      assert b == [b[0]] + b[1..];
    }
  }

  lemma {:induction false} EncodeDecode(b: seq<Byte>)
    requires |b| == HEADER_SIZE
    ensures Fits(Decode(b)) && Encode(Decode(b)) == b
  {
    hide Le, UnLe, Power;
    Widths();
    LeUnLe(b[0..2]);
    LeUnLe(b[2..4]);
    LeUnLe(b[4..12]);
    LeUnLe(b[12..20]);
    LeUnLe(b[20..24]);
    assert b == b[0..2] + b[2..4] + b[4..12] + b[12..20] + b[20..24];
  }

  // ---------------------------------------------------------------- every byte accounted for

  lemma {:induction false} WireAppend(cs: seq<Command>, c: Command)
    ensures WireAll(cs + [c]) == WireAll(cs) + Wire(c)
    decreases |cs|
  {
    hide Wire;
    if cs == [] {
      assert cs + [c] == [c] && [c][1..] == [];
      assert WireAll([c]) == Wire(c) + WireAll([]);
      assert Wire(c) + [] == Wire(c) && [] + Wire(c) == Wire(c);
    } else {
      WireAppend(cs[1..], c);
      assert (cs + [c])[1..] == cs[1..] + [c];
      assert Wire(cs[0]) + (WireAll(cs[1..]) + Wire(c)) == Wire(cs[0]) + WireAll(cs[1..]) + Wire(c);
    }
  }

  predicate AllProper(cs: seq<Command>, d: Device) {
    forall i | 0 <= i < |cs| :: Proper(cs[i], d)
  }

  /** A write whose header has come and whose payload is on its way. */
  predicate Awaited(s: Rx, d: Device) {
    && |s.head| == HEADER_SIZE
    && var h := Decode(s.head);
       && h.magic == HEADER_SIZE && h.opcode == CMD_SET && Pages(h.count * d.sector) <= MAX_PAGES_PER_ACCESS
       && |s.body| < h.count * d.sector
  }

  /** The bytes so far are those of the requests handed over, followed by what is half received. */
  predicate Explained(s: Rx, bytes: seq<Byte>, d: Device) {
    && AllProper(s.commands, d)
    && (s.status == Open ==>
          && bytes == WireAll(s.commands) + s.head + s.body
          && (if s.pending then Awaited(s, d) else |s.head| < HEADER_SIZE && s.body == []))
    && (s.status != Open ==> WireAll(s.commands) <= bytes)
  }

  /** Handing a request over: its bytes are the header and the payload received. */
  lemma {:induction false} HandsOver(s: Rx, bytes: seq<Byte>, c: Command, d: Device)
    requires AllProper(s.commands, d) && bytes == WireAll(s.commands) + s.head + s.body
    requires Wire(c) == s.head + s.body && Proper(c, d)
    ensures
      var s' := s.(head := [], pending := false, body := [], commands := s.commands + [c], status := Open);
      Explained(s', bytes, d)
  {
    hide Wire, Proper, WireAll;
    WireAppend(s.commands, c);
    var w := WireAll(s.commands);
    assert w + (s.head + s.body) == w + s.head + s.body;
    assert w + Wire(c) + [] + [] == w + Wire(c);
  }

  lemma {:induction false} Stops(s: Rx, bytes: seq<Byte>, status: Status, d: Device)
    requires AllProper(s.commands, d) && WireAll(s.commands) <= bytes && status != Open
    ensures Explained(Stop(s, status), bytes, d)
  {
  }

  lemma {:induction false} IssueExplains(s: Rx, bytes: seq<Byte>, c: Command, d: Device)
    requires AllProper(s.commands, d) && s.status == Open && bytes == WireAll(s.commands) + s.head + s.body
    requires !c.Register? && Wire(c) == s.head + s.body
    requires c.lba < TWO64 && c.count < 0x1_0000_0000 && c.handle < TWO64
    requires Pages(c.count * d.sector) <= MAX_PAGES_PER_ACCESS && (c.Write? ==> |c.payload| == c.count * d.sector)
    ensures Explained(Issue(s, c, d), bytes, d)
  {
    hide Wire, WireAll, Pages, AllProper;
    if (c.lba * 512) % TWO64 >= d.size {
      Stops(s, bytes, Aborted, d);
    } else {
      HandsOver(s, bytes, c, d);
    }
  }

  lemma {:induction false} OnHeaderExplains(s: Rx, bytes: seq<Byte>, d: Device)
    requires AllProper(s.commands, d) && s.status == Open && !s.pending && s.body == [] && |s.head| == HEADER_SIZE
    requires bytes == WireAll(s.commands) + s.head + s.body
    ensures Explained(OnHeader(s, d), bytes, d)
  {
    hide Encode, Decode, WireAll, Pages, AllProper, Issue;
    var h := Decode(s.head);
    EncodeDecode(s.head);
    assert s.head + s.body == s.head && s.head + [] == s.head;
    if h.magic != HEADER_SIZE {
      Stops(s, bytes, Aborted, d);
    } else if h.opcode == CMD_REG {
      HandsOver(s, bytes, Register(h.lba, h.count, h.handle), d);
    } else if Pages(h.count * d.sector) > MAX_PAGES_PER_ACCESS {
      Stops(s, bytes, Aborted, d);
    } else if h.opcode == CMD_SET {
      if h.count * d.sector <= 0 {
        IssueExplains(s, bytes, Write(h.lba, h.count, h.handle, []), d);
      }
    } else if h.opcode == CMD_GET {
      IssueExplains(s, bytes, Read(h.lba, h.count, h.handle), d);
    } else {
      Stops(s, bytes, Closed, d);
    }
  }

  lemma {:induction false} OnBodyExplains(s: Rx, bytes: seq<Byte>, d: Device)
    requires AllProper(s.commands, d) && s.status == Open && s.pending && |s.head| == HEADER_SIZE
    requires bytes == WireAll(s.commands) + s.head + s.body
    requires var h := Decode(s.head);
      && h.magic == HEADER_SIZE && h.opcode == CMD_SET && Pages(h.count * d.sector) <= MAX_PAGES_PER_ACCESS
      && |s.body| <= h.count * d.sector
    ensures Explained(OnBody(s, d), bytes, d)
  {
    hide Encode, Decode, WireAll, Pages, AllProper, Issue;
    var h := Decode(s.head);
    EncodeDecode(s.head);
    if |s.body| == h.count * d.sector {
      IssueExplains(s, bytes, Write(h.lba, h.count, h.handle, s.body), d);
    }
  }

  lemma {:induction false} EatExplains(s: Rx, bytes: seq<Byte>, b: Byte, d: Device)
    requires Explained(s, bytes, d)
    ensures Explained(Eat(s, b, d), bytes + [b], d)
  {
    hide WireAll, AllProper, OnHeader, OnBody, Decode, Pages;
    var w := WireAll(s.commands);
    if s.status == Open {
      if s.pending {
        assert w + s.head + s.body + [b] == w + s.head + (s.body + [b]);
        OnBodyExplains(s.(body := s.body + [b]), bytes + [b], d);
      } else {
        var s' := s.(head := s.head + [b]);
        assert w + s.head + [] + [b] == w + (s.head + [b]) + [];
        if |s'.head| == HEADER_SIZE {
          OnHeaderExplains(s', bytes + [b], d);
        }
      }
    }
  }

  lemma {:induction false} FeedExplains(s: Rx, before: seq<Byte>, bytes: seq<Byte>, d: Device)
    requires Explained(s, before, d)
    ensures Explained(Feed(s, bytes, d), before + bytes, d)
    decreases |bytes|
  {
    hide Explained, Eat;
    if bytes == [] {
      assert before + bytes == before;
    } else {
      EatExplains(s, before, bytes[0], d);
      FeedExplains(Eat(s, bytes[0], d), before + [bytes[0]], bytes[1..], d);
      assert before + [bytes[0]] + bytes[1..] == before + bytes;
    }
  }

  // ---------------------------------------------------------------- and nothing is missed

  lemma {:induction false} EatGrows(s: Rx, b: Byte, d: Device)
    ensures s.commands <= Eat(s, b, d).commands
  {
    hide Decode, Pages;
  }

  lemma {:induction false} FeedGrows(s: Rx, bytes: seq<Byte>, d: Device)
    ensures s.commands <= Feed(s, bytes, d).commands
    decreases |bytes|
  {
    hide Eat;
    if bytes != [] {
      EatGrows(s, bytes[0], d);
      FeedGrows(Eat(s, bytes[0], d), bytes[1..], d);
    }
  }

  /** For any bytes whatever: the requests handed to the device are proper, they are on the wire one
      after the other from the first byte on, and no further proper request follows them there.  So a
      connection is stopped only by bytes that are no proper request. */
  lemma {:induction false} ExactlyTheProper(bytes: seq<Byte>, d: Device)
    ensures var s := Feed(Start(), bytes, d);
      && AllProper(s.commands, d) && WireAll(s.commands) <= bytes
      && forall c: Command | Proper(c, d) :: !(WireAll(s.commands + [c]) <= bytes)
  {
    hide Feed, Proper, Wire;
    var s := Feed(Start(), bytes, d);
    assert WireAll([]) == [] && [] + bytes == bytes;
    FeedExplains(Start(), [], bytes, d);
    forall c: Command | Proper(c, d) ensures !(WireAll(s.commands + [c]) <= bytes) {
      if WireAll(s.commands + [c]) <= bytes {
        MoreWouldCome(bytes, s.commands, c, d);
        assert false;
      }
    }
  }

  lemma {:induction false} MoreWouldCome(bytes: seq<Byte>, cs: seq<Command>, c: Command, d: Device)
    requires AllProper(cs, d) && Proper(c, d) && WireAll(cs + [c]) <= bytes
    ensures |cs| < |Feed(Start(), bytes, d).commands|
  {
    hide Feed, Proper, Wire, WireAll;
    var w := WireAll(cs + [c]);
    ReceivesAll(Start(), cs + [c], d);
    FeedAppend(Start(), w, bytes[|w|..], d);
    assert w + bytes[|w|..] == bytes;
    FeedGrows(Feed(Start(), w, d), bytes[|w|..], d);
    assert Feed(Start(), w, d).commands == [] + (cs + [c]);
  }
}
