/** TCP segments as they sit on the queues of a connection. */
module Segments {

  type Byte = x: int | 0 <= x < 256

  /** Pieces of data one after the other. */
  function Join(pieces: seq<seq<Byte>>): seq<Byte> {
    if pieces == [] then [] else pieces[0] + Join(pieces[1..])
  }

  /** seqno is the stream position of the first byte; the payload length is |data|. */
  datatype Segment = Segment(seqno: int, data: seq<Byte>, fin: bool) {

    /** One past the last payload position (a FIN is not counted). */
    function End(): int {
      seqno + |data|
    }

    /** The last payload position, or seqno itself when there is no payload. */
    function Last(): int {
      if data == [] then seqno else End() - 1
    }

    /** Sequence space used: payload plus one for a FIN. */
    function TcpLen(): nat {
      |data| + if fin then 1 else 0
    }

    /** Keeps the payload before position pos. */
    function TrimTo(pos: int): (r: Segment)
      requires seqno <= pos
      ensures r.seqno == seqno && r.fin == fin
      ensures r.data <= data && r.End() == (if pos < End() then pos else End())
    {
      if pos < End() then this.(data := data[..pos - seqno]) else this
    }
  }

  /** s carries bytes of the given stream, whose first byte has position base, and a FIN
      only at the very end of it. */
  predicate CutOf(s: Segment, stream: seq<Byte>, base: int) {
    && base <= s.seqno
    && s.End() <= base + |stream|
    && s.data == stream[s.seqno - base .. s.End() - base]
    && (s.fin ==> s.End() == base + |stream|)
  }

  /** s is cut from the stream and uses no sequence space at or beyond limit. */
  predicate PieceOf(s: Segment, stream: seq<Byte>, base: int, limit: int) {
    CutOf(s, stream, base) && s.seqno + s.TcpLen() <= limit
  }

  predicate AllPieces(q: seq<Segment>, stream: seq<Byte>, base: int, limit: int) {
    forall i | 0 <= i < |q| :: PieceOf(q[i], stream, base, limit)
  }

  lemma {:induction false} TrimKeepsPiece(s: Segment, pos: int, stream: seq<Byte>, base: int, limit: int)
    requires PieceOf(s, stream, base, limit) && s.seqno <= pos
    requires s.fin ==> s.End() <= pos
    ensures PieceOf(s.TrimTo(pos), stream, base, limit)
  {
  }

  /** Position x is a payload byte of some segment of q. */
  ghost predicate Covers(q: seq<Segment>, x: int) {
    exists i :: 0 <= i < |q| && q[i].seqno <= x < q[i].End()
  }
}
