/** One's-complement sums of bytes, section 2 of RFC 1071. */
module OnesComplement {
  import opened ModArith
  import opened Segments

  const ONES: nat := 0xFFFF
  const TWO16: nat := 0x1_0000
  const TWO32: nat := 0x1_0000_0000

  /** The 16-bit one's-complement value of a sum: zero only for zero. */
  function Canon(x: nat): (r: nat)
    ensures r <= ONES
  {
    if x == 0 then 0 else (x - 1) % ONES + 1
  }

  function Fold(x: nat): nat {
    x / TWO16 + x % TWO16
  }

  function Swap(w: nat): nat {
    (w % 256) * 256 + w / 256 % 256
  }

  /** The bytes added as 16-bit words in memory order of a little-endian host. */
  function LeSum(d: seq<Byte>): nat {
    if d == [] then 0 else if |d| == 1 then d[0] else d[0] + 256 * d[1] + LeSum(d[2..])
  }

  /** The same in network order. */
  function BeSum(d: seq<Byte>): nat {
    if d == [] then 0 else if |d| == 1 then 256 * d[0] else 256 * d[0] + d[1] + BeSum(d[2..])
  }

  // ---------------------------------------------------------------- the arithmetic

  lemma {:induction false} CanonSmall(x: nat)
    requires x <= ONES
    ensures Canon(x) == x
  {
  }

  /** Canon(x) and x differ by a multiple. */
  lemma {:induction false} CanonIs(x: nat) returns (k: nat)
    ensures x == Canon(x) + k * ONES && (Canon(x) == 0 <==> x == 0)
  {
    k := if x == 0 then 0 else (x - 1) / ONES;
  }

  lemma {:induction false} CanonUp(x: nat, y: nat, k: nat)
    requires x == y + k * ONES && (x == 0 <==> y == 0)
    ensures Canon(x) == Canon(y)
  {
  }

  lemma {:induction false} CanonAdd(a: nat, b: nat)
    ensures Canon(Canon(a) + b) == Canon(a + b)
  {
  }

  lemma {:induction false} FoldFacts(x: nat)
    ensures Canon(Fold(x)) == Canon(x)
    ensures x < TWO32 ==> Fold(x) <= 2 * ONES
    ensures x <= 2 * ONES ==> Fold(x) <= ONES
    ensures x <= ONES ==> Fold(x) == x
    ensures x > ONES ==> Fold(x) < x
  {
  }

  lemma {:induction false} SwapFacts(w: nat)
    requires w <= ONES
    ensures Swap(w) <= ONES && Swap(w) == Canon(256 * w)
  {
    var q := w / 256;
    assert w == q * 256 + w % 256 && q < 256;
    assert 256 * w == Swap(w) + q * ONES;
    CanonUp(256 * w, Swap(w), q);
    CanonSmall(Swap(w));
  }

  lemma {:induction false} CanonTimes(a: nat)
    ensures Canon(256 * Canon(a)) == Canon(256 * a)
  {
    var k := CanonIs(a);
    assert 256 * a == 256 * Canon(a) + 256 * k * ONES;
    CanonUp(256 * a, 256 * Canon(a), 256 * k);
  }

  lemma {:induction false} CanonTwice(a: nat)
    ensures Canon(256 * (256 * a)) == Canon(a)
  {
  }

  // ---------------------------------------------------------------- byte order

  function Evens(d: seq<Byte>): nat {
    if d == [] then 0 else if |d| == 1 then d[0] else d[0] + Evens(d[2..])
  }

  lemma {:induction false} LeBe(d: seq<Byte>)
    ensures 256 * BeSum(d) == LeSum(d) + ONES * Evens(d)
    ensures LeSum(d) == 0 <==> BeSum(d) == 0
  {
    if |d| > 1 {
      LeBe(d[2..]);
    }
  }

  /** Swapping the bytes of the sum in one order gives the sum in the other. */
  lemma {:induction false} SwapBe(d: seq<Byte>)
    ensures Swap(Canon(BeSum(d))) == Canon(LeSum(d))
  {
    LeBe(d);
    SwapFacts(Canon(BeSum(d)));
    CanonTimes(BeSum(d));
    CanonUp(256 * BeSum(d), LeSum(d), Evens(d));
  }

  /** Read from an odd address, the words are those of the other order. */
  lemma {:induction false} OddStart(d: seq<Byte>)
    requires d != []
    ensures BeSum(d) == 256 * d[0] + LeSum(d[1..])
  {
    if |d| > 2 {
      OddStart(d[2..]);
      assert d[1..][2..] == d[2..][1..];
    }
  }

  lemma {:induction false} LeAppend(a: seq<Byte>, b: seq<Byte>)
    ensures LeSum(a + b) == LeSum(a) + if |a| % 2 == 0 then LeSum(b) else BeSum(b)
  {
    if |a| == 0 {
      assert a + b == b;
    } else if |a| == 1 {
      if b == [] {
        assert a + b == a;
      } else {
        OddStart(b);
        assert (a + b)[2..] == b[1..];
      }
    } else {
      LeAppend(a[2..], b);
      assert (a + b)[2..] == a[2..] + b;
    }
  }

  lemma {:induction false} LeBound(d: seq<Byte>)
    ensures LeSum(d) <= (|d| + 1) / 2 * ONES
    ensures BeSum(d) <= (|d| + 1) / 2 * ONES
  {
    if |d| > 1 {
      LeBound(d[2..]);
    }
  }
}
