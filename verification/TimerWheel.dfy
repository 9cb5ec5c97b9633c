/** Where a timer is put in the hierarchical wheel, and when that bucket is next visited. */
module TimerWheel {
  import opened ModArith

  const WHEEL_SIZE: nat := 256
  const WHEEL_COUNT: nat := 3
  const MIN_DELAY_US: nat := 16
  const MAX_DELAY_US: nat := 0x1000_0000

  // ---------------------------------------------------------------- the leading-zero index

  function Pow2(k: nat): (p: nat)
    ensures p > 0
  {
    if k == 0 then 1 else 2 * Pow2(k - 1)
  }

  /** The position of the highest bit: 63 minus the count of leading zeros of a 64-bit value. */
  function HighBit(x: nat): nat
    requires x > 0
  {
    if x == 1 then 0 else 1 + HighBit(x / 2)
  }

  lemma {:induction false} HighBitBelow(x: nat, k: nat)
    requires x > 0
    ensures HighBit(x) < k <==> x < Pow2(k)
    decreases x
  {
    if x > 1 && k > 0 {
      HighBitBelow(x / 2, k - 1);
    }
  }

  function Index(delay: nat): int
    requires delay > 0
  {
    (HighBit(delay) - 4) / 8
  }

  lemma {:induction false} Powers()
    ensures Pow2(4) == 16 && Pow2(12) == 4096 && Pow2(20) == 0x10_0000 && Pow2(28) == MAX_DELAY_US
  {
  }

  /** Microseconds from one visit of a bucket of wheel w to that of the next bucket. */
  function Grain(w: nat): nat {
    if w == 0 then 16 else if w == 1 then 4096 else 0x10_0000
  }

  /** Exactly the delays from 16 microseconds up to the maximum get a wheel, the one whose range
      they are in. */
  lemma {:induction false} IndexIsWheel(delay: nat)
    requires delay > 0
    ensures 0 <= Index(delay) < WHEEL_COUNT <==> MIN_DELAY_US <= delay < MAX_DELAY_US
    ensures MIN_DELAY_US <= delay < MAX_DELAY_US ==>
      Grain(Index(delay)) <= delay < WHEEL_SIZE * Grain(Index(delay))
  {
    hide HighBit, Pow2;
    Powers();
    HighBitBelow(delay, 4);
    HighBitBelow(delay, 12);
    HighBitBelow(delay, 20);
    HighBitBelow(delay, 28);
  }

  // ---------------------------------------------------------------- visits

  function Offset(t: nat, w: nat): (off: nat)
    ensures off < WHEEL_SIZE
  {
    t / Grain(w) % WHEEL_SIZE
  }

  /** timer_run and timer_collapse at tick p: wheel 0 always, and each next wheel if the offsets
      of the wheels before it are all zero. */
  predicate Reaches(p: nat, w: nat) {
    forall v: nat | v < w :: Offset(p, v) == 0
  }

  /** Ticks are sixteen microseconds apart, at whatever remainder the clock had at start-up: the
      offsets depend on the multiple of 16 before the tick only. */
  function Base(p: nat): nat {
    p - p % MIN_DELAY_US
  }

  lemma {:induction false} OffsetBase(p: nat, w: nat)
    ensures Offset(Base(p), w) == Offset(p, w)
  {
    DivBase(p, if w == 0 then 1 else if w == 1 then 256 else 0x1_0000);
  }

  lemma {:induction false} DivBase(p: nat, h: nat)
    requires h > 0
    ensures Base(p) / (16 * h) == p / (16 * h)
  {
    var q, r := p / 16, p % 16;
    var a, b := q / h, q % h;
    assert p == 16 * q + r && q == a * h + b;
    assert a * (16 * h) == 16 * (a * h);
    DivModUnique(p, 16 * h, a, 16 * b + r);
    DivModUnique(p - r, 16 * h, a, 16 * b);
  }

  /** A tick reaches wheel w exactly when its multiple of 16 is one of the wheel's grain. */
  lemma {:induction false} ReachesAligned(p: nat, w: nat)
    requires w < WHEEL_COUNT
    ensures Reaches(p, w) <==> Base(p) % Grain(w) == 0
  {
    hide Offset;
    OffsetBase(p, 0);
    OffsetBase(p, 1);
    ZeroOffset(Base(p), 0);
    ZeroOffset(Base(p), 1);
    assert Reaches(p, 1) <==> Offset(p, 0) == 0;
    assert Reaches(p, 2) <==> Offset(p, 0) == 0 && Offset(p, 1) == 0;
  }

  lemma {:induction false} ZeroOffset(p: nat, w: nat)
    requires w < 2
    ensures p % Grain(w) == 0 ==> (Offset(p, w) == 0 <==> p % Grain(w + 1) == 0)
    ensures p % Grain(w + 1) == 0 ==> p % Grain(w) == 0
  {
    var g, g' := Grain(w), Grain(w + 1);
    assert g' == 256 * g;
    if p % g == 0 {
      AlignedStep(p, g);
    }
    if p % g' == 0 {
      var q := p / g';
      assert p == q * g' == (q * 256) * g;
      DivModUnique(p, g, q * 256, 0);
    }
  }

  lemma {:induction false} AlignedStep(p: nat, g: nat)
    requires g > 0 && p % g == 0
    ensures p / g % 256 == 0 <==> p % (256 * g) == 0
  {
    var q := p / g;
    assert p == q * g;
    assert p == (q / 256) * (256 * g) + (q % 256) * g by {
      assert q == (q / 256) * 256 + q % 256;
      assert (q / 256 * 256) * g == (q / 256) * (256 * g);
    }
    MulMonoLt(q % 256, 256, g);
    DivModUnique(p, 256 * g, q / 256, (q % 256) * g);
  }

  lemma {:induction false} MulMonoLt(a: nat, b: nat, g: nat)
    requires a < b && g > 0
    ensures 0 <= a * g < b * g && (a * g == 0 <==> a == 0)
  {
  }

  predicate Visits(p: nat, w: nat, off: nat) {
    Reaches(p, w) && Offset(p, w) == off
  }

  /** The last multiple of the wheel's grain at or before a time. */
  function Floor(t: nat, w: nat): nat {
    t / Grain(w) * Grain(w)
  }

  lemma {:induction false} FloorFacts(t: nat, w: nat)
    requires w < WHEEL_COUNT
    ensures t - Grain(w) < Floor(t, w) <= t && Floor(t, w) % Grain(w) == 0 && Floor(t, w) % MIN_DELAY_US == 0
    ensures Floor(t, w) / Grain(w) == t / Grain(w)
  {
    var g := Grain(w);
    var q := t / g;
    assert t == q * g + t % g;
    DivModUnique(q * g, g, q, 0);
    assert g == g / 16 * 16;
    assert q * (g / 16 * 16) == q * (g / 16) * 16;
    ModMultiple(0, q * (g / 16), 16);
  }

  /** The bucket of a time is visited at the tick of that time rounded down to the grain. */
  lemma {:induction false} FloorVisits(t: nat, w: nat, r: nat)
    requires w < WHEEL_COUNT && r < MIN_DELAY_US
    ensures Base(Floor(t, w) + r) == Floor(t, w)
    ensures Visits(Floor(t, w) + r, w, Offset(t, w))
  {
    hide Reaches, Floor, Base, Grain;
    var f := Floor(t, w);
    FloorFacts(t, w);
    SameBase(f, r);
    BaseOfTick(f + r, r);
    ReachesAligned(f + r, w);
    OffsetBase(f + r, w);
  }

  /** And only at ticks a whole number of turns of the wheel from that. */
  lemma {:induction false} VisitsAreTurns(p: nat, t: nat, w: nat)
    requires w < WHEEL_COUNT && Visits(p, w, Offset(t, w))
    ensures exists k: int :: Base(p) == Floor(t, w) + k * (WHEEL_SIZE * Grain(w))
  {
    ReachesAligned(p, w);
    OffsetBase(p, w);
    SameOffset(Base(p), t, w);
  }

  lemma {:induction false} SameOffset(p: nat, t: nat, w: nat)
    requires p % Grain(w) == 0 && Offset(p, w) == Offset(t, w)
    ensures exists k: int :: p == Floor(t, w) + k * (WHEEL_SIZE * Grain(w))
  {
    var g := Grain(w);
    var a, b := p / g, t / g;
    assert p == a * g;
    var k := a / 256 - b / 256;
    assert a - b == 256 * k;
    assert p - b * g == (a - b) * g;
    assert (256 * k) * g == k * (256 * g);
  }

  /** Two positions at which timer_run may stop: a multiple of 16 apart. */
  predicate SameTicks(p: nat, q: nat) {
    p % MIN_DELAY_US == q % MIN_DELAY_US
  }

  /** From tick pos on, f is the first tick at which the bucket is visited. */
  ghost predicate FirstVisit(pos: nat, w: nat, off: nat, f: nat) {
    && pos <= f && SameTicks(f, pos) && Visits(f, w, off)
    && forall p | pos <= p < f && SameTicks(p, pos) :: !Visits(p, w, off)
  }

  /** The tick for a time t: t rounded down to the grain, at the remainder of the ticks. */
  function TickFor(pos: nat, t: nat, w: nat): nat {
    Floor(t, w) + pos % MIN_DELAY_US
  }

  /** A timer for time t in wheel w is met at the tick for t, exactly when that is not in the past
      and less than a turn of the wheel ahead. */
  lemma {:induction false} FirstVisitIff(pos: nat, t: nat, w: nat)
    requires w < WHEEL_COUNT
    ensures
      FirstVisit(pos, w, Offset(t, w), TickFor(pos, t, w)) <==>
      pos <= TickFor(pos, t, w) < pos + WHEEL_SIZE * Grain(w)
  {
    hide Visits, Offset, Floor, Grain, Base;
    var r := pos % MIN_DELAY_US;
    var f, turn, off := TickFor(pos, t, w), WHEEL_SIZE * Grain(w), Offset(t, w);
    assert Visits(f, w, off) by {
      FloorVisits(t, w, r);
    }
    assert SameTicks(f, pos) by {
      FloorFacts(t, w);
      SameBase(Floor(t, w), r);
    }
    TurnIsTicks(w);
    if pos <= f < pos + turn {
      forall p | pos <= p < f && SameTicks(p, pos) ensures !Visits(p, w, off) {
        if Visits(p, w, off) {
          VisitsAreTurns(p, t, w);
          var k: int :| Base(p) == Floor(t, w) + k * turn;
          TurnsApart(k, turn);
          BaseOfTick(p, r);
          assert false;
        }
      }
    } else if f >= pos + turn {
      assert t >= turn && f - turn >= 0 by {
        FloorFacts(t, w);
        TickPast(pos, Floor(t, w), turn);
      }
      EarlierVisit(t, w, r);
      assert SameTicks(f - turn, pos) by {
        SameTicksBack(f, turn);
      }
    }
  }

  lemma {:induction false} SameBase(f: nat, r: nat)
    requires f % MIN_DELAY_US == 0 && r < MIN_DELAY_US
    ensures (f + r) % MIN_DELAY_US == r
  {
  }

  lemma {:induction false} BaseOfTick(p: nat, r: nat)
    requires p % MIN_DELAY_US == r
    ensures Base(p) == p - r
  {
  }

  lemma {:induction false} TickPast(pos: nat, f: nat, turn: nat)
    requires f + pos % MIN_DELAY_US >= pos + turn
    ensures f >= turn
  {
    assert pos >= pos % MIN_DELAY_US;
  }

  lemma {:induction false} TurnIsTicks(w: nat)
    requires w < WHEEL_COUNT
    ensures WHEEL_SIZE * Grain(w) % MIN_DELAY_US == 0 < Grain(w)
  {
  }

  lemma {:induction false} SameTicksBack(f: nat, turn: nat)
    requires turn <= f && turn % MIN_DELAY_US == 0
    ensures SameTicks(f - turn, f)
  {
  }

  lemma {:induction false} TurnsApart(k: int, turn: nat)
    requires turn > 0
    ensures k * turn >= 0 || k * turn + turn <= 0
  {
  }

  lemma {:induction false} EarlierVisit(t: nat, w: nat, r: nat)
    requires w < WHEEL_COUNT && t >= WHEEL_SIZE * Grain(w) && r < MIN_DELAY_US
    ensures Floor(t, w) >= WHEEL_SIZE * Grain(w)
    ensures Visits(Floor(t, w) + r - WHEEL_SIZE * Grain(w), w, Offset(t, w))
  {
    hide Visits;
    var g, turn := Grain(w), WHEEL_SIZE * Grain(w);
    var u := t - turn;
    DivModUnique(u, g, t / g - 256, t % g);
    ModMultiple(t / g - 256, 1, 256);
    FloorVisits(u, w, r);
    assert Floor(u, w) == Floor(t, w) - turn;
  }

  // ---------------------------------------------------------------- placement

  /** The clock and the next tick between two calls of timer_run. */
  predicate Between(now: nat, pos: nat) {
    now <= pos <= now + MIN_DELAY_US
  }

  predicate Placeable(now: nat, expires: nat) {
    now <= expires && expires + MIN_DELAY_US - now < MAX_DELAY_US
  }

  /** Outside timer_run: the index is a wheel, and the bucket is next visited at the tick for the
      expiry time plus 16 if and only if that tick is less than a turn ahead.  Otherwise the next
      tick of all visits it, a turn early.  The condition holds if the clock at start-up was a
      multiple of 16. */
  lemma {:induction false} PlacedIff(now: nat, pos: nat, expires: nat)
    requires Between(now, pos) && Placeable(now, expires)
    ensures
      var t := expires + MIN_DELAY_US;
      var w := Index(t - now);
      && 0 <= w < WHEEL_COUNT && pos <= TickFor(pos, t, w)
      && (FirstVisit(pos, w, Offset(t, w), TickFor(pos, t, w)) <==>
          TickFor(pos, t, w) < pos + WHEEL_SIZE * Grain(w))
      && (pos + WHEEL_SIZE * Grain(w) <= TickFor(pos, t, w) ==> FirstVisit(pos, w, Offset(t, w), pos))
      && (now <= Base(pos) ==> TickFor(pos, t, w) < pos + WHEEL_SIZE * Grain(w))
  {
    hide FirstVisit, Offset, Floor, Visits, Grain, Base, Index;
    var t := expires + MIN_DELAY_US;
    IndexIsWheel(t - now);
    var w := Index(t - now);
    var turn := WHEEL_SIZE * Grain(w);
    FloorFacts(t, w);
    assert pos <= TickFor(pos, t, w) by {
      NextTick(now, pos, Floor(t, w));
    }
    FirstVisitIff(pos, t, w);
    TurnIsTicks(w);
    WithinTurn(now, pos, Floor(t, w), turn);
    if pos + turn <= TickFor(pos, t, w) {
      TickPast(pos, Floor(t, w), turn);
      EarlierVisit(t, w, pos % MIN_DELAY_US);
      VisitNow(pos, w, Offset(t, w));
    }
  }

  lemma {:induction false} WithinTurn(now: nat, pos: nat, f: nat, turn: nat)
    requires f % MIN_DELAY_US == 0 && turn % MIN_DELAY_US == 0 && Between(now, pos) && f < now + turn
    ensures pos + turn <= f + pos % MIN_DELAY_US ==> f + pos % MIN_DELAY_US == pos + turn
    ensures now <= Base(pos) ==> f + pos % MIN_DELAY_US < pos + turn
  {
    var q, m, n := pos / 16, f / 16, turn / 16;
    assert pos == 16 * q + pos % 16 && f == 16 * m && turn == 16 * n;
  }

  /** A multiple of 16 after the clock is not before the next tick. */
  lemma {:induction false} NextTick(now: nat, pos: nat, f: nat)
    requires f % MIN_DELAY_US == 0 && pos <= now + MIN_DELAY_US && now < f
    ensures pos <= f + pos % MIN_DELAY_US
  {
    var q, m := pos / 16, f / 16;
    assert pos == 16 * q + pos % 16 && f == 16 * m;
  }

  lemma {:induction false} VisitNow(pos: nat, w: nat, off: nat)
    requires Visits(pos, w, off)
    ensures FirstVisit(pos, w, off, pos)
  {
  }

  /** The tick is at most the remainder of the ticks past t and less than a grain before it.  In wheel
      0 it is after the expiry time: at most 16 microseconds with ticks at multiples of 16, at most
      31 with others. */
  lemma {:induction false} PlacedOnTime(now: nat, pos: nat, expires: nat)
    requires Between(now, pos) && Placeable(now, expires) && now <= Base(pos)
    ensures
      var t, r := expires + MIN_DELAY_US, pos % MIN_DELAY_US;
      var w := Index(t - now);
      && 0 <= w < WHEEL_COUNT
      && FirstVisit(pos, w, Offset(t, w), TickFor(pos, t, w))
      && t - Grain(w) + r < TickFor(pos, t, w) <= t + r
      && (w == 0 ==> expires + r < TickFor(pos, t, w) <= expires + MIN_DELAY_US + r)
  {
    hide FirstVisit, Offset, Floor;
    var t := expires + MIN_DELAY_US;
    PlacedIff(now, pos, expires);
    FloorFacts(t, Index(t - now));
  }

  /** At any other remainder the condition can fail: a timer 4080 microseconds or so ahead is put
      in the bucket that the very next tick runs. */
  lemma {:induction false} UnalignedFiresEarly(pos: nat)
    requires pos % MIN_DELAY_US >= 2
    ensures
      var now, expires := pos - 1, Base(pos) + 4080;
      var t := expires + MIN_DELAY_US;
      && Between(now, pos) && Placeable(now, expires) && Index(t - now) == 0
      && FirstVisit(pos, 0, Offset(t, 0), pos) && pos + 4000 < expires
  {
    hide FirstVisit, Offset;
    var t := Base(pos) + 4096;
    IndexIsWheel(t - (pos - 1));
    assert Floor(t, 0) == t;
    PlacedIff(pos - 1, pos, Base(pos) + 4080);
  }

  /** When a bucket of a higher wheel is emptied the clock may be past the tick: a delay just short
      of a turn from the clock is more than a turn from the tick.  The timer, put in wheel 2 a turn
      of wheel 1 before, leaves its bucket at this tick for the very bucket of wheel 0 that the
      tick runs next, four milliseconds early. */
  lemma {:induction false} CascadeFiresEarly(tick: nat)
    requires tick % 0x10_0000 == 0 && tick > 0
    ensures
      var added, now, expires := tick - 0x10_0000, tick + 10, tick + 4084;
      var t := expires + MIN_DELAY_US;
      && Index(t - added) == 2 && Visits(tick, 2, Offset(t, 2))
      && Index(t - now) == 0
      && FirstVisit(tick, 0, Offset(t, 0), tick) && tick + 4000 < expires
  {
    hide FirstVisit, Offset, Visits, Floor;
    var t := tick + 4100;
    IndexIsWheel(4090);
    IndexIsWheel(t - (tick - 0x10_0000));
    FloorsNear(tick);
    FloorVisits(t, 2, 0);
    EarlierVisit(t, 0, 0);
    VisitNow(tick, 0, Offset(t, 0));
  }

  lemma {:induction false} FloorsNear(tick: nat)
    requires tick % 0x10_0000 == 0
    ensures Floor(tick + 4100, 2) == tick && Floor(tick + 4100, 0) == tick + 4096
  {
    DivModUnique(tick + 4100, 0x10_0000, tick / 0x10_0000, 4100);
    DivModUnique(tick + 4100, 16, tick / 16 + 256, 4);
  }
}
