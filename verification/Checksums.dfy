/** The checksum loops.  A buffer is its bytes and the address it starts at; the host is
    little-endian and its words have 16 and 32 bits. */
module Checksums {
  import opened ModArith
  import opened OnesComplement
  import opened Segments

  /** A 16-bit word in memory. */
  function Word(d: seq<Byte>, i: nat): (w: nat)
    requires i + 1 < |d|
    ensures w <= ONES
  {
    d[i] as int + 256 * (d[i + 1] as int)
  }

  lemma {:induction false} LeTail(d: seq<Byte>, i: nat)
    requires i <= |d|
    ensures i + 1 < |d| ==> LeSum(d[i..]) == Word(d, i) + LeSum(d[i + 2..])
    ensures i + 1 == |d| ==> LeSum(d[i..]) == d[i]
    ensures i == |d| ==> LeSum(d[i..]) == 0
  {
  }

  lemma {:induction false} BeTail(d: seq<Byte>, i: nat)
    requires i <= |d|
    ensures i + 1 < |d| ==> BeSum(d[i..]) == 256 * (d[i] as int) + d[i + 1] as int + BeSum(d[i + 2..])
    ensures i + 1 == |d| ==> BeSum(d[i..]) == 256 * (d[i] as int)
    ensures i == |d| ==> BeSum(d[i..]) == 0
  {
  }

  lemma {:induction false} FoldTwice(x: nat)
    requires x < TWO32
    ensures Fold(Fold(x)) == Canon(x)
  {
  }

  /** The deferred carries of version 1, folded in at most twice. */
  method AddCarries(sum: nat) returns (acc: nat)
    requires sum < TWO32
    ensures acc == Canon(sum)
  {
    FoldTwice(sum);
    FoldFacts(sum);
    acc := Fold(sum);
    FoldFacts(acc);
    if acc / TWO16 != 0 {
      acc := Fold(acc);
    }
  }

  /** Version 1: two bytes at a time in network order. */
  method ChksumV1(d: seq<Byte>) returns (r: nat)
    requires |d| <= 0xFFFF
    ensures r == Canon(LeSum(d))
  {
    hide Canon, Swap, LeSum, BeSum;
    LeBound(d);
    var acc: nat, i: nat := 0, 0;
    assert d[0..] == d;
    while |d| - i > 1
      invariant i <= |d| && acc + BeSum(d[i..]) == BeSum(d)
    {
      BeTail(d, i);
      acc := (acc + 256 * (d[i] as int) + d[i + 1] as int) % TWO32;
      i := i + 2;
    }
    BeTail(d, i);
    if |d| - i > 0 {
      acc := (acc + 256 * (d[i] as int)) % TWO32;
    }
    acc := AddCarries(acc);
    SwapBe(d);
    r := Swap(acc);
  }

  /** The sum of the words read from an odd or even start: the first byte of an odd buffer and
      the last byte of the rest share the word t. */
  function Sum(d: seq<Byte>, odd: bool): nat {
    if odd then BeSum(d) else LeSum(d)
  }

  lemma {:induction false} SumUnswapped(d: seq<Byte>, odd: bool, s: nat)
    requires s == Canon(Sum(d, odd))
    ensures (if odd then Swap(s) else s) == Canon(LeSum(d))
  {
    SwapBe(d);
  }

  /** Adds whole words in memory order; at most one byte is left. */
  method SumWords(d: seq<Byte>, sum0: nat, i0: nat) returns (sum: nat, i: nat)
    requires i0 <= |d| && sum0 + LeSum(d[i0..]) < TWO32
    ensures i <= |d| && |d| - i <= 1 && sum + LeSum(d[i..]) == sum0 + LeSum(d[i0..])
  {
    sum, i := sum0, i0;
    while |d| - i > 1
      invariant i <= |d| && sum + LeSum(d[i..]) == sum0 + LeSum(d[i0..])
    {
      LeTail(d, i);
      sum := (sum + Word(d, i)) % TWO32;
      i := i + 2;
    }
  }

  /** The common end: the last byte joins t, the sum is folded and swapped back. */
  method Finish(d: seq<Byte>, odd: bool, t: nat, sum0: nat, i: nat) returns (r: nat)
    requires i <= |d| && |d| - i <= 1 && t + sum0 + LeSum(d[i..]) < TWO32
    requires Canon(t + sum0 + LeSum(d[i..])) == Canon(Sum(d, odd))
    ensures r == Canon(LeSum(d))
  {
    hide Canon, Fold, Swap, Sum, LeSum;
    LeTail(d, i);
    var t', sum := t, sum0;
    if |d| - i > 0 {
      t' := t' + d[i] as int;
    }
    sum := (sum + t') % TWO32;
    FoldTwice(sum);
    sum := Fold(sum);
    sum := Fold(sum);
    SumUnswapped(d, odd, sum);
    if odd {
      sum := Swap(sum);
    }
    r := sum;
  }

  /** An odd start address: the first byte is the high byte of t. */
  method AlignStart(d: seq<Byte>, addr: nat) returns (odd: bool, t: nat, i: nat)
    ensures i <= |d| && t + LeSum(d[i..]) == Sum(d, odd) && t <= ONES && i <= 1
    ensures odd == (addr % 2 == 1) && (i == 0 ==> t == 0)
  {
    odd, t, i := addr % 2 == 1, 0, 0;
    assert d[0..] == d;
    if odd && |d| > 0 {
      OddStart(d);
      t, i := 256 * (d[0] as int), 1;
    }
  }

  /** Version 2: memory order, with the start aligned to 16 bits. */
  method ChksumV2(d: seq<Byte>, addr: nat) returns (r: nat)
    requires |d| <= 0x2_0000
    ensures r == Canon(LeSum(d))
  {
    hide Canon;
    LeBound(d);
    var odd, t, i := AlignStart(d, addr);
    var sum;
    sum, i := SumWords(d, 0, i);
    r := Finish(d, odd, t, sum, i);
  }

  /** Addition of 32-bit words with the carry added back. */
  function Add32(a: nat, w: nat): (s: nat)
    requires a < TWO32 && w < TWO32
    ensures s < TWO32
  {
    var t := (a + w) % TWO32;
    if t < a then t + 1 else t
  }

  lemma {:induction false} Add32Canon(a: nat, w: nat, rest: nat)
    requires a < TWO32 && w < TWO32
    ensures Canon(Add32(a, w) + rest) == Canon(a + w + rest)
  {
  }

  /** A 32-bit word counts as its two halves. */
  lemma {:induction false} HalvesCanon(a: nat, h0: nat, h1: nat, rest: nat)
    ensures Canon(a + (h0 + TWO16 * h1) + rest) == Canon(a + h0 + h1 + rest)
  {
  }

  function Word32(d: seq<Byte>, i: nat): (w: nat)
    requires i + 3 < |d|
    ensures w < TWO32
  {
    Word(d, i) + TWO16 * Word(d, i + 2)
  }

  /** One step of the unrolled loop keeps the one's-complement sum of everything still to add. */
  lemma {:induction false} Add32Step(d: seq<Byte>, t: nat, sum: nat, i: nat)
    requires i + 3 < |d| && sum < TWO32
    ensures Canon(t + Add32(sum, Word32(d, i)) + LeSum(d[i + 4..])) == Canon(t + sum + LeSum(d[i..]))
  {
    LeTail(d, i);
    LeTail(d, i + 2);
    var rest := LeSum(d[i + 4..]);
    Add32Canon(sum, Word32(d, i), t + rest);
    HalvesCanon(sum, Word(d, i), Word(d, i + 2), t + rest);
  }

  /** Version 3: eight bytes at a time with end-around carry, the start aligned to 32 bits. */
  method ChksumV3(d: seq<Byte>, addr: nat) returns (r: nat)
    ensures r == Canon(LeSum(d))
  {
    hide Canon, LeSum, Sum;
    var odd, t, i := AlignStart(d, addr);
    var sum: nat := 0;
    LeTail(d, i);
    if (addr + i) % 4 != 0 && |d| - i > 1 {
      sum := sum + Word(d, i);
      i := i + 2;
    }
    sum, i := SumLongs(d, t, sum, i);
    FoldFacts(sum);
    CanonSplit(t + LeSum(d[i..]), sum);
    LeBound(d[i..]);
    sum := Fold(sum);
    sum, i := SumWords(d, sum, i);
    r := Finish(d, odd, t, sum, i);
  }

  lemma {:induction false} CanonSplit(a: nat, x: nat)
    ensures Canon(a + Fold(x)) == Canon(a + x)
  {
    FoldFacts(x);
    CanonAdd(Fold(x), a);
    CanonAdd(x, a);
  }

  /** The unrolled loop of version 3. */
  method SumLongs(d: seq<Byte>, t: nat, sum0: nat, i0: nat) returns (sum: nat, i: nat)
    requires i0 <= |d| && sum0 < TWO32
    ensures i <= |d| && |d| - i <= 7 && sum < TWO32
    ensures Canon(t + sum + LeSum(d[i..])) == Canon(t + sum0 + LeSum(d[i0..]))
  {
    hide Canon, LeSum;
    sum, i := sum0, i0;
    while |d| - i > 7
      invariant i <= |d| && sum < TWO32 && Canon(t + sum + LeSum(d[i..])) == Canon(t + sum0 + LeSum(d[i0..]))
    {
      Add32Step(d, t, sum, i);
      var tmp := (sum + Word32(d, i)) % TWO32;
      if tmp < sum {
        tmp := tmp + 1;
      }
      Add32Step(d, t, tmp, i + 4);
      sum := (tmp + Word32(d, i + 4)) % TWO32;
      if sum < tmp {
        sum := sum + 1;
      }
      i := i + 8;
    }
  }

  // ---------------------------------------------------------------- chains of pbufs

  function Parity(n: nat): nat {
    n % 2
  }

  /** What the accumulator stands for after a prefix: its sum, in the other byte order if the
      prefix has odd length. */
  predicate Stands(acc: nat, front: seq<Byte>) {
    acc <= ONES && acc == Canon(if Parity(|front|) == 1 then 256 * LeSum(front) else LeSum(front))
  }

  lemma {:induction false} StandsNothing()
    ensures Stands(0, [])
  {
  }

  /** Adding a piece to the accumulator. */
  lemma {:induction false} FoldedSum(acc: nat, w: nat, y: nat)
    requires acc == Canon(w)
    ensures Fold(acc + Canon(y)) == Canon(w + y)
  {
    var f := Fold(acc + Canon(y));
    FoldFacts(acc + Canon(y));
    CanonSmall(f);
    CanonAdd(w, Canon(y));
    CanonAdd(y, w);
  }

  /** The sum of a longer prefix, in the order the accumulator has. */
  lemma {:induction false} LongerSum(front: seq<Byte>, q: seq<Byte>)
    ensures if Parity(|front|) == 1 then Canon(256 * LeSum(front) + LeSum(q)) == Canon(256 * LeSum(front + q))
            else LeSum(front) + LeSum(q) == LeSum(front + q)
  {
    LeAppend(front, q);
    if Parity(|front|) == 1 {
      LeBe(q);
      var w := 256 * LeSum(front);
      assert 256 * LeSum(front + q) == w + 256 * BeSum(q);
      CanonUp(w + 256 * BeSum(q), w + LeSum(q), Evens(q));
    }
  }

  lemma {:induction false} StandsStep(acc: nat, front: seq<Byte>, q: seq<Byte>)
    requires Stands(acc, front)
    ensures var f := Fold(acc + Canon(LeSum(q)));
      Stands(if |q| % 2 != 0 then Swap(f) else f, front + q)
  {
    hide Canon, Fold, Swap, LeSum;
    var odd := Parity(|front|) == 1;
    var w := if odd then 256 * LeSum(front) else LeSum(front);
    var f := Fold(acc + Canon(LeSum(q)));
    FoldedSum(acc, w, LeSum(q));
    LongerSum(front, q);
    var all := LeSum(front + q);
    assert f == Canon(if odd then 256 * all else all);
    SwapFacts(f);
    CanonTimes(all);
    CanonTimes(256 * all);
    CanonTwice(all);
  }

  lemma {:induction false} JoinStep(chain: seq<seq<Byte>>, q: nat, front: seq<Byte>)
    requires q < |chain|
    ensures front + Join(chain[q..]) == front + chain[q] + Join(chain[q + 1..])
  {
    assert chain[q..][1..] == chain[q + 1..];
    assert front + (chain[q] + Join(chain[q + 1..])) == front + chain[q] + Join(chain[q + 1..]);
  }

  lemma {:induction false} JoinEnd(chain: seq<seq<Byte>>, front: seq<Byte>)
    ensures front + Join(chain[|chain|..]) == front
  {
  }

  /** inet_chksum_pbuf: the sum over a chain is that over the bytes it holds, however they are
      cut into pieces. */
  method ChksumPbuf(chain: seq<seq<Byte>>, addrs: seq<nat>) returns (r: nat)
    requires |addrs| == |chain| && forall k | 0 <= k < |chain| :: |chain[k]| <= 0xFFFF
    ensures r == ONES - Canon(LeSum(Join(chain)))
  {
    hide Canon, Fold, Swap, LeSum, Join;
    var acc: nat, swapped: nat, q: nat := 0, 0, 0;
    StandsNothing();
    ghost var front: seq<Byte> := [];
    assert chain[0..] == chain;
    while q < |chain|
      invariant q <= |chain| && front + Join(chain[q..]) == Join(chain)
      invariant Stands(acc, front) && swapped == Parity(|front|)
    {
      StandsStep(acc, front, chain[q]);
      var piece := ChksumV2(chain[q], addrs[q]);
      acc := Fold(acc + piece);
      if |chain[q]| % 2 != 0 {
        swapped := 1 - swapped;
        acc := Swap(acc);
      }
      JoinStep(chain, q, front);
      front := front + chain[q];
      q := q + 1;
    }
    assert front == Join(chain) by {
      JoinEnd(chain, front);
    }
    if swapped == 1 {
      SwapFacts(acc);
      CanonTimes(256 * LeSum(front));
      CanonTwice(LeSum(front));
      acc := Swap(acc);
    }
    r := ONES - acc;
  }

  // ---------------------------------------------------------------- storing and checking

  /** chksum_internet, the portable branch. */
  method ChksumInternet(d: seq<Byte>) returns (r: nat)
    ensures r == ONES - Canon(LeSum(d))
  {
    hide Canon, LeSum;
    var sum: nat, i: nat := 0, 0;
    assert d[0..] == d;
    while |d| - i >= 2
      invariant i <= |d| && sum + LeSum(d[i..]) == LeSum(d)
    {
      LeTail(d, i);
      sum := sum + Word(d, i);
      i := i + 2;
    }
    LeTail(d, i);
    if |d| - i == 1 {
      sum := sum + d[i] as int;
    }
    while sum / TWO16 != 0
      invariant Canon(sum) == Canon(LeSum(d))
      decreases sum
    {
      FoldFacts(sum);
      sum := sum % TWO16 + sum / TWO16;
    }
    CanonSmall(sum);
    r := ONES - sum;
  }

  /** Writes a 16-bit value at a position, low byte first. */
  function Put(d: seq<Byte>, i: nat, v: nat): (d': seq<Byte>)
    requires i + 1 < |d| && v <= ONES
    ensures |d'| == |d|
  {
    d[i := v % 256][i + 1 := v / 256]
  }

  lemma {:induction false} PutSum(d: seq<Byte>, i: nat, v: nat)
    requires i + 1 < |d| && v <= ONES && i % 2 == 0 && d[i] == 0 && d[i + 1] == 0
    ensures LeSum(Put(d, i, v)) == LeSum(d) + v
    decreases i
  {
    if i == 0 {
      assert Put(d, i, v)[2..] == d[2..];
    } else {
      PutSum(d[2..], i - 2, v);
      assert Put(d, i, v)[2..] == Put(d[2..], i - 2, v);
    }
  }

  /** A checksum stored in its zeroed, 16-bit aligned field makes the sum all ones, so that the
      check of the buffer gives zero. */
  lemma {:induction false} RecheckIsZero(d: seq<Byte>, i: nat)
    requires i + 1 < |d| && i % 2 == 0 && d[i] == 0 && d[i + 1] == 0
    ensures ONES - Canon(LeSum(Put(d, i, ONES - Canon(LeSum(d))))) == 0
  {
    var s := LeSum(d);
    PutSum(d, i, ONES - Canon(s));
    var k := CanonIs(s);
    CanonUp(s + (ONES - Canon(s)), ONES, k);
    CanonSmall(ONES);
  }

  /** At an odd position the two bytes fall in different words, the other way round. */
  lemma {:induction false} PutSumOdd(d: seq<Byte>, i: nat, v: nat)
    requires i + 1 < |d| && v <= ONES && i % 2 == 1 && d[i] == 0 && d[i + 1] == 0
    ensures LeSum(Put(d, i, v)) == LeSum(d) + Swap(v)
    decreases i
  {
    var d' := Put(d, i, v);
    if i == 1 {
      assert d'[2..] == d[2..][0 := v / 256];
      assert |d| > 3 ==> d'[2..][2..] == d[2..][2..];
    } else {
      PutSumOdd(d[2..], i - 2, v);
      assert d'[2..] == Put(d[2..], i - 2, v);
    }
  }

  lemma {:induction false} SwapComplement(w: nat)
    requires w <= ONES
    ensures Swap(ONES - w) == ONES - Swap(w)
  {
    var h, l := w / 256, w % 256;
    assert ONES - w == (255 - h) * 256 + (255 - l);
    DivModUnique(ONES - w, 256, 255 - h, 255 - l);
  }

  /** At an odd position the check gives zero exactly when the two bytes of the sum are equal. */
  lemma {:induction false} MisalignedRecheckIff(d: seq<Byte>, i: nat)
    requires i + 1 < |d| && i % 2 == 1 && d[i] == 0 && d[i + 1] == 0
    ensures ONES - Canon(LeSum(Put(d, i, ONES - Canon(LeSum(d))))) == 0
       <==> Canon(LeSum(d)) / 256 == Canon(LeSum(d)) % 256
  {
    hide Canon, LeSum, Swap, Put;
    var s := LeSum(d);
    var c := Canon(s);
    SwapFixed(c);
    PutSumOdd(d, i, ONES - c);
    SwapComplement(c);
    var k := CanonIs(s);
    var x := c + ONES - Swap(c);
    CanonUp(s + ONES - Swap(c), x, k);
    AllOnes(x);
  }

  lemma {:induction false} SwapFixed(w: nat)
    requires w <= ONES
    ensures Swap(w) <= ONES && (Swap(w) == w <==> w / 256 == w % 256) && (Swap(w) == 0 <==> w == 0)
  {
  }

  lemma {:induction false} AllOnes(x: nat)
    requires 0 < x <= 2 * ONES
    ensures Canon(x) == ONES <==> x == ONES || x == 2 * ONES
  {
  }
}
