/** 32-bit TCP sequence numbers (section 3.3 of RFC 793).

    The stack compares sequence numbers through a signed 32-bit difference.  The models
    in this project keep unbounded stream positions; the predicates below are the
    comparison macros applied to the low 32 bits of those positions. */
module SequenceNumbers {

  const TWO_32: int := 0x1_0000_0000
  const HALF: int := 0x8000_0000

  /** The low 32 bits of a position: what the header field or pcb field holds. */
  function U32(x: int): (r: int)
    ensures 0 <= r < TWO_32
  {
    x % TWO_32
  }

  /** Reinterprets an unsigned 32-bit value as signed. */
  function S32(x: int): (r: int)
    requires 0 <= x < TWO_32
  {
    if x < HALF then x else x - TWO_32
  }

  /** The signed 32-bit difference the macros test against zero. */
  function SeqDiff(a: int, b: int): (r: int)
    ensures -HALF <= a - b < HALF ==> r == a - b
  {
    DiffOfWrapped(a, b);
    S32(U32(U32(a) - U32(b)))
  }

  predicate SeqLt(a: int, b: int) { SeqDiff(a, b) < 0 }
  predicate SeqLeq(a: int, b: int) { SeqDiff(a, b) <= 0 }
  predicate SeqGt(a: int, b: int) { SeqDiff(a, b) > 0 }
  predicate SeqGeq(a: int, b: int) { SeqDiff(a, b) >= 0 }

  /** b <= a <= c, by the macros. */
  predicate SeqBetween(a: int, b: int, c: int) { SeqGeq(a, b) && SeqLeq(a, c) }

  lemma {:induction false} WrapIsUnique(x: int, r: int, k: int)
    requires 0 <= r < TWO_32 && x == r + TWO_32 * k
    ensures x % TWO_32 == r
  {
  }

  lemma {:induction false} DiffOfWrapped(a: int, b: int)
    ensures U32(U32(a) - U32(b)) == U32(a - b)
  {
    var d := U32(a) - U32(b);
    assert a - b == d + TWO_32 * (a / TWO_32 - b / TWO_32);
    WrapIsUnique(a - b, d % TWO_32, d / TWO_32 + (a / TWO_32 - b / TWO_32));
  }

  /** Inside a half-range window every macro agrees with the order of the integers. */
  lemma {:induction false} MacrosAgreeWithOrder(a: int, b: int, c: int)
    requires -HALF <= a - b < HALF && -HALF <= a - c < HALF
    ensures SeqLt(a, b) <==> a < b
    ensures SeqLeq(a, b) <==> a <= b
    ensures SeqGt(a, b) <==> a > b
    ensures SeqGeq(a, b) <==> a >= b
    ensures SeqBetween(a, b, c) <==> b <= a <= c
  {
  }

  /** A distance in the first half of its turn, counted forwards from 0 or backwards from -1. */
  ghost predicate NearHalf(d: int) {
    exists turns: nat :: Forwards(d, turns) || Backwards(d, turns)
  }

  predicate Forwards(d: int, turns: nat) {
    turns * TWO_32 <= d < turns * TWO_32 + HALF
  }

  predicate Backwards(d: int, turns: nat) {
    -HALF <= d + turns * TWO_32 < 0
  }

  /** For any two positions, the distances at which the "less than" macro tells the truth. */
  lemma {:induction false} SeqLtAgreesIff(a: int, b: int)
    ensures (SeqLt(a, b) <==> a < b) <==> NearHalf(a - b)
  {
    var d := a - b;
    DiffOfWrapped(a, b);
    var turns: nat := if d >= 0 then d / TWO_32 else (-d - 1) / TWO_32;
    assert Forwards(d, turns) || Backwards(d, turns) || !NearHalf(d) by {
      forall k: nat ensures Forwards(d, k) ==> k == turns && d >= 0
                    ensures Backwards(d, k) ==> k == turns && d < 0 {
      }
    }
  }

  /** The window cannot be widened: at distance exactly 2^31 the macro inverts the order. */
  lemma {:induction false} HalfRangeIsTight(b: int)
    ensures SeqLt(b + HALF, b)
  {
    DiffOfWrapped(b + HALF, b);
    WrapIsUnique(HALF, HALF, 0);
  }
}
