/** timer_run: every tick up to the clock empties the buckets it visits, and no timer is lost or
    kept past its time. */
module TimerRuns {
  import opened TimerWheel

  datatype Timer = Timer(id: nat, expires: nat)

  type Wheels = seq<seq<seq<Timer>>>

  /** timer_insert's rounded expiry time. */
  function Target(t: Timer): nat {
    t.expires + MIN_DELAY_US
  }

  predicate Shape(ws: Wheels) {
    |ws| == WHEEL_COUNT && forall w | 0 <= w < WHEEL_COUNT :: |ws[w]| == WHEEL_SIZE
  }

  function SetBucket(ws: Wheels, w: nat, off: nat, b: seq<Timer>): Wheels
    requires Shape(ws) && w < WHEEL_COUNT && off < WHEEL_SIZE
    ensures Shape(SetBucket(ws, w, off, b))
  {
    ws[w := ws[w][off := b]]
  }

  function NoTimers(): Wheels
    ensures Shape(NoTimers())
  {
    seq(WHEEL_COUNT, _ => seq(WHEEL_SIZE, _ => []))
  }

  // ---------------------------------------------------------------- the operations

  predicate Fits(t: Timer, now: nat) {
    now + MIN_DELAY_US <= Target(t) < now + MAX_DELAY_US
  }

  function WheelOf(t: Timer, now: nat): (w: nat)
    requires Fits(t, now)
    ensures w < WHEEL_COUNT && Grain(w) <= Target(t) - now
  {
    IndexIsWheel(Target(t) - now);
    Index(Target(t) - now)
  }

  /** timer_insert. */
  function Put(ws: Wheels, t: Timer, now: nat): (ws': Wheels)
    requires Shape(ws) && Fits(t, now)
    ensures Shape(ws')
  {
    var w := WheelOf(t, now);
    var off := Offset(Target(t), w);
    SetBucket(ws, w, off, [t] + ws[w][off])
  }

  predicate Bounded(l: seq<Timer>, now: nat) {
    forall i | 0 <= i < |l| :: Target(l[i]) < now + MAX_DELAY_US
  }

  datatype Outcome = Outcome(wheels: Wheels, taken: seq<Timer>)

  /** timer_reinsert_bucket on the timers l taken off a bucket. */
  function Reinsert(ws: Wheels, l: seq<Timer>, now: nat): (o: Outcome)
    requires Shape(ws) && Bounded(l, now)
    ensures Shape(o.wheels)
    decreases |l|
  {
    if l == [] then
      Outcome(ws, [])
    else if l[0].expires <= now then
      var o := Reinsert(ws, l[1..], now);
      Outcome(o.wheels, [l[0]] + o.taken)
    else
      Reinsert(Put(ws, l[0], now), l[1..], now)
  }

  /** Whether every stored timer is within reach of the clock. */
  predicate AllBounded(ws: Wheels, now: nat)
    requires Shape(ws)
  {
    forall w, off | 0 <= w < WHEEL_COUNT && 0 <= off < WHEEL_SIZE :: Bounded(ws[w][off], now)
  }

  function Emptied(ws: Wheels, w: nat, p: nat, now: nat): (o: Outcome)
    requires Shape(ws) && AllBounded(ws, now) && w < WHEEL_COUNT
    ensures Shape(o.wheels)
  {
    var off := Offset(p, w);
    Reinsert(SetBucket(ws, w, off, []), ws[w][off], now)
  }

  lemma {:induction false} SetBounded(ws: Wheels, w: nat, off: nat, b: seq<Timer>, now: nat)
    requires Shape(ws) && AllBounded(ws, now) && w < WHEEL_COUNT && off < WHEEL_SIZE && Bounded(b, now)
    ensures AllBounded(SetBucket(ws, w, off, b), now)
  {
    hide Bounded;
    var ws' := SetBucket(ws, w, off, b);
    forall v, o | 0 <= v < WHEEL_COUNT && 0 <= o < WHEEL_SIZE ensures Bounded(ws'[v][o], now) {
      assert ws'[v][o] == (if v == w && o == off then b else ws[v][o]);
    }
  }

  lemma {:induction false} PutBounded(ws: Wheels, t: Timer, now: nat)
    requires Shape(ws) && AllBounded(ws, now) && Fits(t, now)
    ensures AllBounded(Put(ws, t, now), now)
  {
    hide Offset, AllBounded;
    var w := WheelOf(t, now);
    var off := Offset(Target(t), w);
    assert Bounded(ws[w][off], now) by {
      BoundedAt(ws, w, off, now);
    }
    SetBounded(ws, w, off, [t] + ws[w][off], now);
  }

  lemma {:induction false} BoundedAt(ws: Wheels, w: nat, off: nat, now: nat)
    requires Shape(ws) && AllBounded(ws, now) && w < WHEEL_COUNT && off < WHEEL_SIZE
    ensures Bounded(ws[w][off], now)
  {
  }

  lemma {:induction false} ReinsertBounded(ws: Wheels, l: seq<Timer>, now: nat)
    requires Shape(ws) && AllBounded(ws, now) && Bounded(l, now)
    ensures AllBounded(Reinsert(ws, l, now).wheels, now)
    decreases |l|
  {
    hide AllBounded, Put;
    if l == [] {
    } else if l[0].expires <= now {
      ReinsertBounded(ws, l[1..], now);
    } else {
      PutBounded(ws, l[0], now);
      ReinsertBounded(Put(ws, l[0], now), l[1..], now);
    }
  }

  lemma {:induction false} EmptiedBounded(ws: Wheels, w: nat, p: nat, now: nat)
    requires Shape(ws) && AllBounded(ws, now) && w < WHEEL_COUNT
    ensures AllBounded(Emptied(ws, w, p, now).wheels, now)
  {
    hide Reinsert, SetBucket, Offset;
    var off := Offset(p, w);
    SetBounded(ws, w, off, [], now);
    ReinsertBounded(SetBucket(ws, w, off, []), ws[w][off], now);
  }

  /** timer_collapse from wheel w on: the next wheel only if the offset is zero. */
  function Collapse(ws: Wheels, w: nat, p: nat, now: nat): (o: Outcome)
    requires Shape(ws) && AllBounded(ws, now) && w <= WHEEL_COUNT
    ensures Shape(o.wheels) && AllBounded(o.wheels, now)
    decreases WHEEL_COUNT - w
  {
    if w == WHEEL_COUNT then
      Outcome(ws, [])
    else
      EmptiedBounded(ws, w, p, now);
      var o := Emptied(ws, w, p, now);
      if Offset(p, w) != 0 then
        o
      else
        var rest := Collapse(o.wheels, w + 1, p, now);
        Outcome(rest.wheels, o.taken + rest.taken)
  }

  /** One turn of timer_run's loop. */
  function Tick(ws: Wheels, p: nat, now: nat): (o: Outcome)
    requires Shape(ws) && AllBounded(ws, now)
    ensures Shape(o.wheels) && AllBounded(o.wheels, now)
  {
    var off := Offset(p, 0);
    var o := if off == 0 then Collapse(ws, 1, p, now) else Outcome(ws, []);
    SetBounded(o.wheels, 0, off, [], now);
    Outcome(SetBucket(o.wheels, 0, off, []), o.taken + o.wheels[0][off])
  }

  /** timer_run from tick p to the clock. */
  function Run(ws: Wheels, p: nat, now: nat): (o: Outcome)
    requires Shape(ws) && AllBounded(ws, now)
    ensures Shape(o.wheels) && AllBounded(o.wheels, now)
    decreases now - p
  {
    if p > now then
      Outcome(ws, [])
    else
      var o := Tick(ws, p, now);
      var rest := Run(o.wheels, p + MIN_DELAY_US, now);
      Outcome(rest.wheels, o.taken + rest.taken)
  }

  /** The position timer_run leaves. */
  function NextPos(p: nat, now: nat): (p': nat)
    ensures p' % MIN_DELAY_US == p % MIN_DELAY_US && now < p'
    ensures p <= now + MIN_DELAY_US ==> p' <= now + MIN_DELAY_US
    decreases now - p
  {
    if p > now then p else NextPos(p + MIN_DELAY_US, now)
  }

  // ---------------------------------------------------------------- no timer is lost

  function InWheel(v: seq<seq<Timer>>, x: Timer): nat {
    if v == [] then 0 else multiset(v[0])[x] + InWheel(v[1..], x)
  }

  /** How often a timer is on the wheels. */
  function Stored(ws: Wheels, x: Timer): nat {
    if ws == [] then 0 else InWheel(ws[0], x) + Stored(ws[1..], x)
  }

  lemma {:induction false} InWheelSet(v: seq<seq<Timer>>, off: nat, b: seq<Timer>, x: Timer)
    requires off < |v|
    ensures InWheel(v[off := b], x) + multiset(v[off])[x] == InWheel(v, x) + multiset(b)[x]
    decreases |v|
  {
    var v' := v[off := b];
    if off == 0 {
      assert v'[1..] == v[1..];
    } else {
      InWheelSet(v[1..], off - 1, b, x);
      assert v'[1..] == v[1..][off - 1 := b];
    }
  }

  lemma {:induction false} StoredWheel(ws: Wheels, w: nat, v: seq<seq<Timer>>, x: Timer)
    requires w < |ws|
    ensures Stored(ws[w := v], x) + InWheel(ws[w], x) == Stored(ws, x) + InWheel(v, x)
    decreases |ws|
  {
    hide InWheel;
    var ws' := ws[w := v];
    if w == 0 {
      assert ws'[1..] == ws[1..];
    } else {
      StoredWheel(ws[1..], w - 1, v, x);
      assert ws'[1..] == ws[1..][w - 1 := v];
    }
  }

  lemma {:induction false} StoredSet(ws: Wheels, w: nat, off: nat, b: seq<Timer>, x: Timer)
    requires Shape(ws) && w < WHEEL_COUNT && off < WHEEL_SIZE
    ensures Stored(SetBucket(ws, w, off, b), x) + multiset(ws[w][off])[x] == Stored(ws, x) + multiset(b)[x]
  {
    hide InWheel, Stored;
    InWheelSet(ws[w], off, b, x);
    StoredWheel(ws, w, ws[w][off := b], x);
  }

  lemma {:induction false} PutStores(ws: Wheels, t: Timer, now: nat, x: Timer)
    requires Shape(ws) && Fits(t, now)
    ensures Stored(Put(ws, t, now), x) == Stored(ws, x) + multiset{t}[x]
  {
    hide Stored, SetBucket, Offset;
    var w := WheelOf(t, now);
    var off := Offset(Target(t), w);
    StoredSet(ws, w, off, [t] + ws[w][off], x);
  }

  lemma {:induction false} ReinsertKeepsAll(ws: Wheels, l: seq<Timer>, now: nat, x: Timer)
    requires Shape(ws) && Bounded(l, now)
    ensures
      var o := Reinsert(ws, l, now);
      Stored(o.wheels, x) + multiset(o.taken)[x] == Stored(ws, x) + multiset(l)[x]
    decreases |l|
  {
    hide Stored, Put;
    if l != [] {
      assert multiset(l) == multiset{l[0]} + multiset(l[1..]) by {
        assert l == [l[0]] + l[1..];
      }
      if l[0].expires <= now {
        ReinsertKeepsAll(ws, l[1..], now, x);
      } else {
        PutStores(ws, l[0], now, x);
        ReinsertKeepsAll(Put(ws, l[0], now), l[1..], now, x);
      }
    }
  }

  lemma {:induction false} EmptiedKeepsAll(ws: Wheels, w: nat, p: nat, now: nat, x: Timer)
    requires Shape(ws) && AllBounded(ws, now) && w < WHEEL_COUNT
    ensures
      var o := Emptied(ws, w, p, now);
      Stored(o.wheels, x) + multiset(o.taken)[x] == Stored(ws, x)
  {
    hide Stored, Reinsert, SetBucket, Offset;
    var off := Offset(p, w);
    StoredSet(ws, w, off, [], x);
    ReinsertKeepsAll(SetBucket(ws, w, off, []), ws[w][off], now, x);
  }

  lemma {:induction false} CollapseKeepsAll(ws: Wheels, w: nat, p: nat, now: nat, x: Timer)
    requires Shape(ws) && AllBounded(ws, now) && w <= WHEEL_COUNT
    ensures
      var o := Collapse(ws, w, p, now);
      Stored(o.wheels, x) + multiset(o.taken)[x] == Stored(ws, x)
    decreases WHEEL_COUNT - w
  {
    hide Stored, Emptied, AllBounded, Offset;
    if w < WHEEL_COUNT {
      EmptiedKeepsAll(ws, w, p, now, x);
      EmptiedBounded(ws, w, p, now);
      if Offset(p, w) == 0 {
        CollapseKeepsAll(Emptied(ws, w, p, now).wheels, w + 1, p, now, x);
      }
    }
  }

  lemma {:induction false} TickKeepsAll(ws: Wheels, p: nat, now: nat, x: Timer)
    requires Shape(ws) && AllBounded(ws, now)
    ensures
      var o := Tick(ws, p, now);
      Stored(o.wheels, x) + multiset(o.taken)[x] == Stored(ws, x)
  {
    hide Stored, Collapse, SetBucket, AllBounded, Offset;
    var off := Offset(p, 0);
    var o := if off == 0 then Collapse(ws, 1, p, now) else Outcome(ws, []);
    if off == 0 {
      CollapseKeepsAll(ws, 1, p, now, x);
    }
    StoredSet(o.wheels, 0, off, [], x);
  }

  /** Every timer is either still on a wheel or was taken off, once for each time it was there. */
  lemma {:induction false} NoTimerLost(ws: Wheels, p: nat, now: nat, x: Timer)
    requires Shape(ws) && AllBounded(ws, now)
    ensures
      var o := Run(ws, p, now);
      Stored(o.wheels, x) + multiset(o.taken)[x] == Stored(ws, x)
    decreases now - p
  {
    hide Stored, Tick, AllBounded;
    if p <= now {
      TickKeepsAll(ws, p, now, x);
      NoTimerLost(Tick(ws, p, now).wheels, p + MIN_DELAY_US, now, x);
    }
  }

  // ---------------------------------------------------------------- no timer is late

  /** The timer is in the bucket of its time, and the tick for it has not passed. */
  predicate Sits(t: Timer, w: nat, off: nat, p: nat) {
    off == Offset(Target(t), w) && p <= TickFor(p, Target(t), w)
  }

  predicate BucketSits(b: seq<Timer>, w: nat, off: nat, p: nat) {
    forall i | 0 <= i < |b| :: Sits(b[i], w, off, p)
  }

  /** At tick p, with the buckets in done visited already: those hold timers for later ticks only. */
  predicate AllSit(ws: Wheels, p: nat, done: set<(int, int)>)
    requires Shape(ws)
  {
    forall w, off | 0 <= w < WHEEL_COUNT && 0 <= off < WHEEL_SIZE ::
      BucketSits(ws[w][off], w, off, if (w, off) in done then p + MIN_DELAY_US else p)
  }

  lemma {:induction false} SetSits(
    ws: Wheels, w: nat, off: nat, b: seq<Timer>, p: nat, done: set<(int, int)>, done': set<(int, int)>)
    requires Shape(ws) && AllSit(ws, p, done) && w < WHEEL_COUNT && off < WHEEL_SIZE
    requires done <= done' <= done + {(w, off)}
    requires BucketSits(b, w, off, if (w, off) in done' then p + MIN_DELAY_US else p)
    ensures AllSit(SetBucket(ws, w, off, b), p, done')
  {
    hide BucketSits;
    var ws' := SetBucket(ws, w, off, b);
    forall v, o | 0 <= v < WHEEL_COUNT && 0 <= o < WHEEL_SIZE
      ensures BucketSits(ws'[v][o], v, o, if (v, o) in done' then p + MIN_DELAY_US else p)
    {
      if v == w && o == off {
        assert ws'[v][o] == b;
      } else {
        assert ws'[v][o] == ws[v][o] && ((v, o) in done <==> (v, o) in done');
      }
    }
  }

  /** A timer put in while the clock is at or past the tick sits in a bucket of a later tick. */
  lemma {:induction false} PutLater(t: Timer, now: nat, p: nat)
    requires Fits(t, now) && now < t.expires && p <= now
    ensures
      var w := WheelOf(t, now);
      && Sits(t, w, Offset(Target(t), w), p + MIN_DELAY_US)
      && Sits(t, w, Offset(Target(t), w), p)
  {
    hide Offset, Floor;
    var w := WheelOf(t, now);
    FloorFacts(Target(t), w);
  }

  lemma {:induction false} PutSits(ws: Wheels, t: Timer, now: nat, p: nat, done: set<(int, int)>)
    requires Shape(ws) && AllSit(ws, p, done) && Fits(t, now) && now < t.expires && p <= now
    ensures AllSit(Put(ws, t, now), p, done)
  {
    hide Sits, Offset, SetBucket, AllSit;
    var w := WheelOf(t, now);
    var off := Offset(Target(t), w);
    SitsAt(ws, w, off, p, done);
    PutLater(t, now, p);
    SetSits(ws, w, off, [t] + ws[w][off], p, done, done);
  }

  lemma {:induction false} SitsAt(ws: Wheels, w: nat, off: nat, p: nat, done: set<(int, int)>)
    requires Shape(ws) && AllSit(ws, p, done) && w < WHEEL_COUNT && off < WHEEL_SIZE
    ensures BucketSits(ws[w][off], w, off, if (w, off) in done then p + MIN_DELAY_US else p)
  {
  }

  lemma {:induction false} ReinsertSits(ws: Wheels, l: seq<Timer>, now: nat, p: nat, done: set<(int, int)>)
    requires Shape(ws) && AllSit(ws, p, done) && Bounded(l, now) && p <= now
    ensures AllSit(Reinsert(ws, l, now).wheels, p, done)
    decreases |l|
  {
    hide AllSit, Put;
    if l == [] {
    } else if l[0].expires <= now {
      ReinsertSits(ws, l[1..], now, p, done);
    } else {
      PutSits(ws, l[0], now, p, done);
      ReinsertSits(Put(ws, l[0], now), l[1..], now, p, done);
    }
  }

  lemma {:induction false} EmptiedSits(ws: Wheels, w: nat, now: nat, p: nat, done: set<(int, int)>)
    requires Shape(ws) && AllBounded(ws, now) && AllSit(ws, p, done) && w < WHEEL_COUNT && p <= now
    ensures AllSit(Emptied(ws, w, p, now).wheels, p, done + {(w, Offset(p, w))})
  {
    hide AllSit, Reinsert, SetBucket, Offset;
    var off := Offset(p, w);
    var done' := done + {(w, off)};
    SetSits(ws, w, off, [], p, done, done');
    ReinsertSits(SetBucket(ws, w, off, []), ws[w][off], now, p, done');
  }

  /** The buckets a tick visits from wheel w on. */
  function Visited(p: nat, w: nat): set<(int, int)>
    decreases WHEEL_COUNT - w
  {
    if w >= WHEEL_COUNT then {}
    else {(w, Offset(p, w))} + if Offset(p, w) != 0 then {} else Visited(p, w + 1)
  }

  lemma {:induction false} VisitedAll(p: nat, w: nat, v: nat)
    requires w <= v < WHEEL_COUNT && Reaches(p, v)
    ensures (v, Offset(p, v)) in Visited(p, w)
    decreases v - w
  {
    hide Offset;
    if w < v {
      VisitedAll(p, w + 1, v);
    }
  }

  lemma {:induction false} CollapseSits(ws: Wheels, w: nat, now: nat, p: nat, done: set<(int, int)>)
    requires Shape(ws) && AllBounded(ws, now) && AllSit(ws, p, done) && w <= WHEEL_COUNT && p <= now
    ensures AllSit(Collapse(ws, w, p, now).wheels, p, done + Visited(p, w))
    decreases WHEEL_COUNT - w
  {
    hide AllSit, AllBounded, Emptied, Offset;
    if w < WHEEL_COUNT {
      EmptiedSits(ws, w, now, p, done);
      EmptiedBounded(ws, w, p, now);
      var done' := done + {(w, Offset(p, w))};
      if Offset(p, w) == 0 {
        CollapseSits(Emptied(ws, w, p, now).wheels, w + 1, now, p, done');
        assert done' + Visited(p, w + 1) == done + Visited(p, w);
      } else {
        assert done' == done + Visited(p, w);
      }
    } else {
      assert done + Visited(p, w) == done;
    }
  }

  /** Two ticks differ by 16 microseconds at least. */
  lemma {:induction false} NextTickAfter(p: nat, f: nat, r: nat)
    requires p % MIN_DELAY_US == r && f % MIN_DELAY_US == 0 && p < f + r
    ensures p + MIN_DELAY_US <= f + r && (p + MIN_DELAY_US) % MIN_DELAY_US == r
  {
    var a, b := p / 16, f / 16;
    assert p == 16 * a + r && f == 16 * b;
    assert 16 * a < 16 * b;
    assert p + 16 == 16 * (a + 1) + r;
  }

  /** What a tick does not visit is for a later tick. */
  lemma {:induction false} NotYet(t: Timer, w: nat, off: nat, p: nat)
    requires w < WHEEL_COUNT && Sits(t, w, off, p) && !Visits(p, w, off)
    ensures Sits(t, w, off, p + MIN_DELAY_US)
  {
    hide Offset, Floor, Visits, Grain, Base;
    var r := p % MIN_DELAY_US;
    FloorFacts(Target(t), w);
    FloorVisits(Target(t), w, r);
    assert p != TickFor(p, Target(t), w);
    NextTickAfter(p, Floor(Target(t), w), r);
  }

  lemma {:induction false} TickDone(ws: Wheels, p: nat, done: set<(int, int)>)
    requires Shape(ws) && AllSit(ws, p, done)
    requires forall w: nat | w < WHEEL_COUNT && Reaches(p, w) :: (w, Offset(p, w)) in done
    ensures AllSit(ws, p + MIN_DELAY_US, {})
  {
    hide Sits, Offset, Reaches;
    forall w, off | 0 <= w < WHEEL_COUNT && 0 <= off < WHEEL_SIZE
      ensures BucketSits(ws[w][off], w, off, p + MIN_DELAY_US)
    {
      SitsAt(ws, w, off, p, done);
      if (w, off) !in done {
        forall i | 0 <= i < |ws[w][off]| ensures Sits(ws[w][off][i], w, off, p + MIN_DELAY_US) {
          NotYet(ws[w][off][i], w, off, p);
        }
      }
    }
  }

  lemma {:induction false} TickSits(ws: Wheels, p: nat, now: nat)
    requires Shape(ws) && AllBounded(ws, now) && AllSit(ws, p, {}) && p <= now
    ensures AllSit(Tick(ws, p, now).wheels, p + MIN_DELAY_US, {})
  {
    hide AllSit, AllBounded, Collapse, Offset, Reaches, SetBucket;
    var off := Offset(p, 0);
    var o := if off == 0 then Collapse(ws, 1, p, now) else Outcome(ws, []);
    var higher := if off == 0 then Visited(p, 1) else {};
    if off == 0 {
      CollapseSits(ws, 1, now, p, {});
      assert {} + higher == higher;
    }
    var done := higher + {(0, off)};
    SetSits(o.wheels, 0, off, [], p, higher, done);
    assert done == Visited(p, 0);
    forall w: nat | w < WHEEL_COUNT && Reaches(p, w) ensures (w, Offset(p, w)) in done {
      VisitedAll(p, 0, w);
    }
    TickDone(SetBucket(o.wheels, 0, off, []), p, done);
  }

  /** After timer_run every timer left is in the bucket of its time, for a tick still to come. */
  lemma {:induction false} RunSits(ws: Wheels, p: nat, now: nat)
    requires Shape(ws) && AllBounded(ws, now) && AllSit(ws, p, {})
    ensures AllSit(Run(ws, p, now).wheels, NextPos(p, now), {})
    decreases now - p
  {
    hide AllSit, AllBounded, Tick;
    if p <= now {
      TickSits(ws, p, now);
      RunSits(Tick(ws, p, now).wheels, p + MIN_DELAY_US, now);
    }
  }

  // ---------------------------------------------------------------- whole runs

  /** timer_add and timer_run. */
  datatype Event = Add(t: Timer) | Pass(clock: nat)

  datatype State = State(nowUs: nat, timerPos: nat, wheels: Wheels, taken: seq<Timer>)

  /** What every event keeps. */
  predicate Inv(s: State) {
    && Shape(s.wheels) && Between(s.nowUs, s.timerPos)
    && AllBounded(s.wheels, s.nowUs) && AllSit(s.wheels, s.timerPos, {})
  }

  /** timer_init_cpu. */
  function Init(now: nat): (s: State)
    ensures Inv(s)
  {
    State(now, now, NoTimers(), [])
  }

  predicate Allowed(s: State, e: Event) {
    match e
    case Add(t) => Placeable(s.nowUs, t.expires)
    case Pass(clock) => s.nowUs <= clock
  }

  function Step(s: State, e: Event): State
    requires Inv(s) && Allowed(s, e)
  {
    match e
    case Add(t) =>
      s.(wheels := Put(s.wheels, t, s.nowUs))
    case Pass(clock) =>
      LaterBounded(s.wheels, s.nowUs, clock);
      var o := Run(s.wheels, s.timerPos, clock);
      State(clock, NextPos(s.timerPos, clock), o.wheels, s.taken + o.taken)
  }

  lemma {:induction false} LaterBounded(ws: Wheels, now: nat, now': nat)
    requires Shape(ws) && AllBounded(ws, now) && now <= now'
    ensures AllBounded(ws, now')
  {
  }

  lemma {:induction false} StepInv(s: State, e: Event)
    requires Inv(s) && Allowed(s, e)
    ensures Inv(Step(s, e))
  {
    hide AllSit, AllBounded, Put, Run, NextPos;
    match e
    case Add(t) =>
      PutBounded(s.wheels, t, s.nowUs);
      PutOutside(s.wheels, t, s.nowUs, s.timerPos);
    case Pass(clock) =>
      LaterBounded(s.wheels, s.nowUs, clock);
      RunSits(s.wheels, s.timerPos, clock);
  }

  /** Times a timer was seen: on a wheel or taken off. */
  function Seen(s: State, x: Timer): nat {
    Stored(s.wheels, x) + multiset(s.taken)[x]
  }

  lemma {:induction false} StepSeen(s: State, e: Event, x: Timer)
    requires Inv(s) && Allowed(s, e)
    ensures Seen(Step(s, e), x) == Seen(s, x) + if e == Add(x) then 1 else 0
  {
    hide AllSit, AllBounded, Put, Run, NextPos, Stored;
    match e
    case Add(t) =>
      PutStores(s.wheels, t, s.nowUs, x);
    case Pass(clock) =>
      LaterBounded(s.wheels, s.nowUs, clock);
      NoTimerLost(s.wheels, s.timerPos, clock, x);
  }

  lemma {:induction false} PutOutside(ws: Wheels, t: Timer, now: nat, pos: nat)
    requires Shape(ws) && AllSit(ws, pos, {}) && Between(now, pos) && Placeable(now, t.expires)
    ensures AllSit(Put(ws, t, now), pos, {})
  {
    hide AllSit, SetBucket, Offset, Floor;
    var w := WheelOf(t, now);
    var off := Offset(Target(t), w);
    PlacedIff(now, pos, t.expires);
    SitsAt(ws, w, off, pos, {});
    SetSits(ws, w, off, [t] + ws[w][off], pos, {}, {});
  }

  predicate AllAllowed(s: State, es: seq<Event>)
    requires Inv(s)
    decreases |es|
  {
    es == [] || (Allowed(s, es[0]) && (StepInv(s, es[0]); AllAllowed(Step(s, es[0]), es[1..])))
  }

  function Steps(s: State, es: seq<Event>): State
    requires Inv(s) && AllAllowed(s, es)
    decreases |es|
  {
    if es == [] then s else
      StepInv(s, es[0]);
      Steps(Step(s, es[0]), es[1..])
  }

  lemma {:induction false} StepsInv(s: State, es: seq<Event>, x: Timer)
    requires Inv(s) && AllAllowed(s, es)
    ensures Inv(Steps(s, es)) && Seen(Steps(s, es), x) == Seen(s, x) + multiset(es)[Add(x)]
    decreases |es|
  {
    hide Inv, Allowed, Step, Seen;
    if es != [] {
      StepInv(s, es[0]);
      StepSeen(s, es[0], x);
      StepsInv(Step(s, es[0]), es[1..], x);
      assert es == [es[0]] + es[1..];
    }
  }

  lemma {:induction false} EmptyWheel(v: seq<seq<Timer>>, x: Timer)
    requires forall i | 0 <= i < |v| :: v[i] == []
    ensures InWheel(v, x) == 0
    decreases |v|
  {
    if v != [] {
      EmptyWheel(v[1..], x);
    }
  }

  lemma {:induction false} NoneStored(ws: Wheels, x: Timer)
    requires forall w, off | 0 <= w < |ws| && 0 <= off < |ws[w]| :: ws[w][off] == []
    ensures Stored(ws, x) == 0
    decreases |ws|
  {
    hide InWheel;
    if ws != [] {
      EmptyWheel(ws[0], x);
      NoneStored(ws[1..], x);
    }
  }

  /** Over any run from timer_init_cpu: every timer added is on a wheel or was taken off, each
      once, and a timer still on a wheel expired less than 32 microseconds before the next tick. */
  lemma {:induction false} NeverLate(now: nat, es: seq<Event>, x: Timer)
    requires AllAllowed(Init(now), es)
    ensures
      var s := Steps(Init(now), es);
      && Inv(s) && Seen(s, x) == multiset(es)[Add(x)]
      && (0 < Stored(s.wheels, x) ==> s.timerPos < x.expires + 2 * MIN_DELAY_US)
  {
    hide Inv, Stored, Steps, AllAllowed;
    NoneStored(NoTimers(), x);
    StepsInv(Init(now), es, x);
    var s := Steps(Init(now), es);
    if 0 < Stored(s.wheels, x) {
      StoredInTime(s, x);
    }
  }

  lemma {:induction false} StoredInTime(s: State, x: Timer)
    requires Inv(s) && 0 < Stored(s.wheels, x)
    ensures s.timerPos < x.expires + 2 * MIN_DELAY_US
  {
    hide AllSit, AllBounded, Stored, InWheel, Offset, Floor;
    var w := StoredWhere(s.wheels, x);
    var off, i := InWheelWhere(s.wheels[w], x);
    SitsAt(s.wheels, w, off, s.timerPos, {});
    assert Sits(x, w, off, s.timerPos);
    FloorFacts(Target(x), w);
  }

  lemma {:induction false} StoredWhere(ws: Wheels, x: Timer) returns (w: nat)
    requires 0 < Stored(ws, x)
    ensures w < |ws| && 0 < InWheel(ws[w], x)
    decreases |ws|
  {
    hide InWheel;
    if 0 < InWheel(ws[0], x) {
      w := 0;
    } else {
      var v := StoredWhere(ws[1..], x);
      w := v + 1;
    }
  }

  lemma {:induction false} InWheelWhere(v: seq<seq<Timer>>, x: Timer) returns (off: nat, i: nat)
    requires 0 < InWheel(v, x)
    ensures off < |v| && i < |v[off]| && v[off][i] == x
    decreases |v|
  {
    if x in v[0] {
      off := 0;
      i :| 0 <= i < |v[0]| && v[0][i] == x;
    } else {
      var o, k := InWheelWhere(v[1..], x);
      off, i := o + 1, k;
    }
  }

  // ---------------------------------------------------------------- when a timer is taken

  /** Emptying a bucket takes exactly the timers that have expired and puts exactly the others back. */
  lemma {:induction false} ReinsertExactly(ws: Wheels, l: seq<Timer>, now: nat, x: Timer)
    requires Shape(ws) && Bounded(l, now)
    ensures
      var o := Reinsert(ws, l, now);
      if x.expires <= now then multiset(o.taken)[x] == multiset(l)[x] && Stored(o.wheels, x) == Stored(ws, x)
      else multiset(o.taken)[x] == 0 && Stored(o.wheels, x) == Stored(ws, x) + multiset(l)[x]
    decreases |l|
  {
    hide Stored, Put;
    if l != [] {
      assert multiset(l) == multiset{l[0]} + multiset(l[1..]) by {
        assert l == [l[0]] + l[1..];
      }
      if l[0].expires <= now {
        ReinsertExactly(ws, l[1..], now, x);
      } else {
        PutStores(ws, l[0], now, x);
        ReinsertExactly(Put(ws, l[0], now), l[1..], now, x);
      }
    }
  }

  /** The cascade takes only timers that have expired. */
  lemma {:induction false} CollapseTakesExpired(ws: Wheels, w: nat, p: nat, now: nat, x: Timer)
    requires Shape(ws) && AllBounded(ws, now) && w <= WHEEL_COUNT && x in Collapse(ws, w, p, now).taken
    ensures x.expires <= now
    decreases WHEEL_COUNT - w
  {
    hide Reinsert, AllBounded, Offset, SetBucket;
    if w < WHEEL_COUNT {
      var o := Emptied(ws, w, p, now);
      EmptiedBounded(ws, w, p, now);
      if x in o.taken {
        EmptiedTakesExpired(ws, w, p, now, x);
      } else {
        CollapseTakesExpired(o.wheels, w + 1, p, now, x);
      }
    }
  }

  lemma {:induction false} EmptiedTakesExpired(ws: Wheels, w: nat, p: nat, now: nat, x: Timer)
    requires Shape(ws) && AllBounded(ws, now) && w < WHEEL_COUNT && x in Emptied(ws, w, p, now).taken
    ensures x.expires <= now
  {
    hide Reinsert, SetBucket, Offset, Stored;
    var off := Offset(p, w);
    ReinsertExactly(SetBucket(ws, w, off, []), ws[w][off], now, x);
  }

  /** The tick is a turn of wheel 0 or more before the one the timer is for. */
  predicate TurnsEarly(p: nat, x: Timer) {
    p + WHEEL_SIZE * Grain(0) <= TickFor(p, Target(x), 0)
  }

  /** A timer that sits in the bucket of wheel 0 a tick runs is there at its own tick, which is after
      its expiry, or turns early. */
  lemma {:induction false} InBucketOf(p: nat, x: Timer)
    requires Sits(x, 0, Offset(p, 0), p)
    ensures x.expires < p || TurnsEarly(p, x)
  {
    hide Floor;
    var t, r := Target(x), p % MIN_DELAY_US;
    FloorFacts(t, 0);
    assert Visits(p, 0, Offset(t, 0));
    VisitsAreTurns(p, t, 0);
    var k: int :| Base(p) == Floor(t, 0) + k * (WHEEL_SIZE * Grain(0));
    TurnsApart(k, WHEEL_SIZE * Grain(0));
    if k * (WHEEL_SIZE * Grain(0)) >= 0 {
      assert p >= TickFor(p, t, 0);
    }
  }

  /** One tick takes a timer that has not expired only from the bucket of wheel 0 it runs, and then
      turns early. */
  lemma {:induction false} TickTakesDue(ws: Wheels, p: nat, now: nat, x: Timer)
    requires Shape(ws) && AllBounded(ws, now) && AllSit(ws, p, {}) && p <= now && x in Tick(ws, p, now).taken
    ensures x.expires <= now || TurnsEarly(p, x)
  {
    hide AllSit, AllBounded, Collapse, Offset, SetBucket, TurnsEarly;
    var off := Offset(p, 0);
    var o := if off == 0 then Collapse(ws, 1, p, now) else Outcome(ws, []);
    if x in o.taken {
      CollapseTakesExpired(ws, 1, p, now, x);
    } else {
      assert x in o.wheels[0][off];
      CollapsedBucket(ws, p, now, x);
      InBucketOf(p, x);
    }
  }

  lemma {:induction false} CollapsedBucket(ws: Wheels, p: nat, now: nat, x: Timer)
    requires Shape(ws) && AllBounded(ws, now) && AllSit(ws, p, {}) && p <= now
    requires
      var o := if Offset(p, 0) == 0 then Collapse(ws, 1, p, now) else Outcome(ws, []);
      x in o.wheels[0][Offset(p, 0)]
    ensures Sits(x, 0, Offset(p, 0), p)
  {
    hide AllSit, AllBounded, Collapse, Offset, Sits, Visited;
    var off := Offset(p, 0);
    if off == 0 {
      CollapseSits(ws, 1, now, p, {});
      NotWheelZero(p, 1, off);
      SitsAt(Collapse(ws, 1, p, now).wheels, 0, off, p, {} + Visited(p, 1));
    } else {
      SitsAt(ws, 0, off, p, {});
    }
  }

  lemma {:induction false} NotWheelZero(p: nat, w: nat, off: int)
    requires w >= 1
    ensures (0, off) !in Visited(p, w)
    decreases WHEEL_COUNT - w
  {
    if w < WHEEL_COUNT {
      NotWheelZero(p, w + 1, off);
    }
  }

  /** A timer is taken by a timer_run from pos to the clock after its expiry, or at a tick turns early. */
  ghost predicate TakenDue(pos: nat, clock: nat, x: Timer) {
    x.expires <= clock || exists p: nat :: pos <= p <= clock && SameTicks(p, pos) && TurnsEarly(p, x)
  }

  lemma {:induction false} RunTakesDue(ws: Wheels, p: nat, now: nat, x: Timer)
    requires Shape(ws) && AllBounded(ws, now) && AllSit(ws, p, {}) && x in Run(ws, p, now).taken
    ensures TakenDue(p, now, x)
    decreases now - p
  {
    hide AllSit, AllBounded, Tick, TurnsEarly;
    if p <= now {
      var o := Tick(ws, p, now);
      if x in o.taken {
        TickTakesDue(ws, p, now, x);
        assert x.expires <= now || (SameTicks(p, p) && TurnsEarly(p, x));
      } else {
        TickSits(ws, p, now);
        RunTakesDue(o.wheels, p + MIN_DELAY_US, now, x);
        LaterRun(p, now, x);
      }
    }
  }

  lemma {:induction false} LaterRun(p: nat, now: nat, x: Timer)
    requires TakenDue(p + MIN_DELAY_US, now, x)
    ensures TakenDue(p, now, x)
  {
    hide TurnsEarly;
    if x.expires > now {
      var p': nat :| p + MIN_DELAY_US <= p' <= now && SameTicks(p', p + MIN_DELAY_US) && TurnsEarly(p', x);
      assert SameTicks(p', p);
    }
  }

  /** Some timer_run of the run took the timer when it was due, or turns early. */
  ghost predicate SomeTakesDue(s: State, es: seq<Event>, x: Timer)
    requires Inv(s) && AllAllowed(s, es)
    decreases |es|
  {
    && es != []
    && (|| (es[0].Pass? && TakenDue(s.timerPos, es[0].clock, x))
        || (StepInv(s, es[0]); SomeTakesDue(Step(s, es[0]), es[1..], x)))
  }

  /** Over any run, every timer taken off was taken at a clock past its expiry, or at a tick a turn or
      more before the one it was for: the case of a timer placed too far ahead for wheel 0, and the
      only one. */
  lemma {:induction false} NeverEarlyBut(s: State, es: seq<Event>, x: Timer)
    requires Inv(s) && AllAllowed(s, es) && x in Steps(s, es).taken && x !in s.taken
    ensures SomeTakesDue(s, es, x)
    decreases |es|
  {
    hide Inv, Allowed, TakenDue, Step;
    if es != [] {
      StepInv(s, es[0]);
      var s' := Step(s, es[0]);
      if x in s'.taken {
        StepTakesDue(s, es[0], x);
      } else {
        NeverEarlyBut(s', es[1..], x);
      }
    }
  }

  lemma {:induction false} StepTakesDue(s: State, e: Event, x: Timer)
    requires Inv(s) && Allowed(s, e) && x in Step(s, e).taken && x !in s.taken
    ensures e.Pass? && TakenDue(s.timerPos, e.clock, x)
  {
    hide AllSit, AllBounded, TakenDue, Run, NextPos, Put;
    if e.Pass? {
      LaterBounded(s.wheels, s.nowUs, e.clock);
      RunTakesDue(s.wheels, s.timerPos, e.clock, x);
    }
  }

  // ---------------------------------------------------------------- a timer taken early

  lemma {:induction false} PutKeepsBucket(ws: Wheels, t: Timer, now: nat, off: nat, x: Timer)
    requires Shape(ws) && Fits(t, now) && off < WHEEL_SIZE && x in ws[0][off]
    ensures x in Put(ws, t, now)[0][off]
  {
    hide Offset;
  }

  lemma {:induction false} ReinsertKeepsBucket(ws: Wheels, l: seq<Timer>, now: nat, off: nat, x: Timer)
    requires Shape(ws) && Bounded(l, now) && off < WHEEL_SIZE && x in ws[0][off]
    ensures x in Reinsert(ws, l, now).wheels[0][off]
    decreases |l|
  {
    hide Put;
    if l == [] {
    } else if l[0].expires <= now {
      ReinsertKeepsBucket(ws, l[1..], now, off, x);
    } else {
      PutKeepsBucket(ws, l[0], now, off, x);
      ReinsertKeepsBucket(Put(ws, l[0], now), l[1..], now, off, x);
    }
  }

  lemma {:induction false} CollapseKeepsBucket(ws: Wheels, w: nat, p: nat, now: nat, off: nat, x: Timer)
    requires Shape(ws) && AllBounded(ws, now) && 1 <= w <= WHEEL_COUNT && off < WHEEL_SIZE && x in ws[0][off]
    ensures x in Collapse(ws, w, p, now).wheels[0][off]
    decreases WHEEL_COUNT - w
  {
    hide Reinsert, AllBounded, Offset;
    if w < WHEEL_COUNT {
      EmptiedKeepsBucket(ws, w, p, now, off, x);
      EmptiedBounded(ws, w, p, now);
      if Offset(p, w) == 0 {
        CollapseKeepsBucket(Emptied(ws, w, p, now).wheels, w + 1, p, now, off, x);
      }
    }
  }

  lemma {:induction false} EmptiedKeepsBucket(ws: Wheels, w: nat, p: nat, now: nat, off: nat, x: Timer)
    requires Shape(ws) && AllBounded(ws, now) && 1 <= w < WHEEL_COUNT && off < WHEEL_SIZE && x in ws[0][off]
    ensures x in Emptied(ws, w, p, now).wheels[0][off]
  {
    hide Reinsert, Offset;
    var o := Offset(p, w);
    ReinsertKeepsBucket(SetBucket(ws, w, o, []), ws[w][o], now, off, x);
  }

  /** A tick runs everything in its bucket of wheel 0. */
  lemma {:induction false} TickTakes(ws: Wheels, p: nat, now: nat, x: Timer)
    requires Shape(ws) && AllBounded(ws, now) && x in ws[0][Offset(p, 0)]
    ensures x in Tick(ws, p, now).taken
  {
    hide Collapse, AllBounded, Offset;
    if Offset(p, 0) == 0 {
      CollapseKeepsBucket(ws, 1, p, now, Offset(p, 0), x);
    }
  }

  lemma {:induction false} PutHere(ws: Wheels, t: Timer, now: nat)
    requires Shape(ws) && Fits(t, now)
    ensures var w := WheelOf(t, now); t in Put(ws, t, now)[w][Offset(Target(t), w)]
  {
    hide Offset;
  }

  /** How a run gets there: started at a clock that is no multiple of 16, one timer_run, a timer more
      than four milliseconds ahead, and the next timer_run takes it. */
  lemma {:induction false} UnalignedTakesEarly(pos: nat, id: nat)
    requires MIN_DELAY_US <= pos && pos % MIN_DELAY_US >= 2
    ensures
      var t := Timer(id, Base(pos) + 4080);
      var es := [Pass(pos - 1), Add(t), Pass(pos)];
      && AllAllowed(Init(pos - MIN_DELAY_US), es)
      && t in Steps(Init(pos - MIN_DELAY_US), es).taken && pos + 4000 < t.expires
  {
    hide Offset, AllSit, AllBounded, Put, Run, NextPos;
    var t := Timer(id, Base(pos) + 4080);
    var s0 := Init(pos - MIN_DELAY_US);
    StepInv(s0, Pass(pos - 1));
    var s1 := Step(s0, Pass(pos - 1));
    NextPosOnce(pos);
    UnalignedFiresEarly(pos);
    StepInv(s1, Add(t));
    var s2 := Step(s1, Add(t));
    StepInv(s2, Pass(pos));
    assert WheelOf(t, pos - 1) == 0 && Offset(Target(t), 0) == Offset(pos, 0);
    PutHere(s1.wheels, t, pos - 1);
    PassTakes(s2, t);
    ThreeSteps(s0, Pass(pos - 1), Add(t), Pass(pos));
  }

  lemma {:induction false} NextPosOnce(pos: nat)
    requires MIN_DELAY_US <= pos
    ensures NextPos(pos - MIN_DELAY_US, pos - 1) == pos
  {
    assert NextPos(pos, pos - 1) == pos;
  }

  lemma {:induction false} PassTakes(s: State, t: Timer)
    requires Inv(s) && s.nowUs <= s.timerPos && t in s.wheels[0][Offset(s.timerPos, 0)]
    ensures t in Step(s, Pass(s.timerPos)).taken
  {
    hide Tick, AllSit, AllBounded, Offset;
    LaterBounded(s.wheels, s.nowUs, s.timerPos);
    TickTakes(s.wheels, s.timerPos, s.timerPos, t);
  }

  lemma {:induction false} ThreeSteps(s: State, a: Event, b: Event, c: Event)
    requires Inv(s) && Allowed(s, a) && Inv(Step(s, a)) && Allowed(Step(s, a), b) && Inv(Step(Step(s, a), b))
    requires Allowed(Step(Step(s, a), b), c)
    ensures AllAllowed(s, [a, b, c]) && Steps(s, [a, b, c]) == Step(Step(Step(s, a), b), c)
  {
    hide Inv, Allowed, Step;
    var es := [a, b, c];
    assert es[1..] == [b, c] && es[1..][1..] == [c] && es[1..][1..][1..] == [];
    var s3 := Step(Step(Step(s, a), b), c);
    StepInv(Step(Step(s, a), b), c);
    assert AllAllowed(s3, []) && Steps(s3, []) == s3;
    assert AllAllowed(Step(Step(s, a), b), [c]) && Steps(Step(Step(s, a), b), [c]) == s3;
    assert AllAllowed(Step(s, a), [b, c]) && Steps(Step(s, a), [b, c]) == s3;
  }

  // ---------------------------------------------------------------- the wheel itself

  class TimerWheelCpu {
    var nowUs: nat
    var timerPos: nat
    var wheels: Wheels

    ghost predicate Valid()
      reads this
    {
      Inv(State(nowUs, timerPos, wheels, []))
    }

    constructor (now: nat)
      ensures Valid() && State(nowUs, timerPos, wheels, []) == Init(now)
    {
      nowUs, timerPos, wheels := now, now, NoTimers();
    }

    /** timer_insert outside timer_run: the timer goes to the head of one bucket.  The wheel reaches
        it at the tick for its time if that is less than a turn ahead, else at once. */
    method Insert(t: Timer) returns (w: nat, off: nat)
      requires Valid() && Placeable(nowUs, t.expires)
      modifies `wheels
      ensures Valid() && w < WHEEL_COUNT && off < WHEEL_SIZE
      ensures wheels == old(wheels)[w := old(wheels)[w][off := [t] + old(wheels)[w][off]]]
      ensures
        var tick := TickFor(timerPos, t.expires + MIN_DELAY_US, w);
        && FirstVisit(timerPos, w, off, if tick < timerPos + WHEEL_SIZE * Grain(w) then tick else timerPos)
        && (nowUs <= Base(timerPos) ==> tick < timerPos + WHEEL_SIZE * Grain(w))
        && (w == 0 ==> t.expires < tick < t.expires + 2 * MIN_DELAY_US)
    {
      hide FirstVisit, Floor, AllSit, AllBounded;
      w, off := Place(t);
      PlacedIff(nowUs, timerPos, t.expires);
      FloorFacts(t.expires + MIN_DELAY_US, w);
      StepInv(State(nowUs, timerPos, old(wheels), []), Add(t));
    }

    method Place(t: Timer) returns (w: nat, off: nat)
      requires Shape(wheels) && Fits(t, nowUs)
      modifies `wheels
      ensures w == WheelOf(t, nowUs) && off == Offset(Target(t), w)
      ensures wheels == Put(old(wheels), t, nowUs)
    {
      var expireUs := t.expires + MIN_DELAY_US;
      w := WheelOf(t, nowUs);
      off := Offset(expireUs, w);
      wheels := SetBucket(wheels, w, off, [t] + wheels[w][off]);
    }

    /** timer_reinsert_bucket. */
    method ReinsertBucket(w: nat, off: nat) returns (taken: seq<Timer>)
      requires Shape(wheels) && AllBounded(wheels, nowUs) && w < WHEEL_COUNT && off < WHEEL_SIZE
      modifies `wheels
      ensures Outcome(wheels, taken) ==
              Reinsert(SetBucket(old(wheels), w, off, []), old(wheels)[w][off], nowUs)
    {
      hide Put, SetBucket;
      var bucket := wheels[w][off];
      wheels, taken := SetBucket(wheels, w, off, []), [];
      ghost var start := wheels;
      var i := 0;
      while i < |bucket|
        invariant i <= |bucket| && Shape(wheels) && nowUs == old(nowUs)
        invariant
          var o := Reinsert(wheels, bucket[i..], nowUs);
          Reinsert(start, bucket, nowUs) == Outcome(o.wheels, taken + o.taken)
      {
        assert bucket[i..][1..] == bucket[i + 1..];
        if bucket[i].expires <= nowUs {
          taken := taken + [bucket[i]];
        } else {
          var _, _ := Place(bucket[i]);
        }
        i := i + 1;
      }
    }

    /** timer_collapse. */
    method CollapseAt(p: nat) returns (taken: seq<Timer>)
      requires Shape(wheels) && AllBounded(wheels, nowUs)
      modifies `wheels
      ensures Outcome(wheels, taken) == Collapse(old(wheels), 1, p, nowUs)
    {
      hide Reinsert, SetBucket, AllBounded, Offset;
      var w := 1;
      taken := [];
      while w < WHEEL_COUNT
        invariant 1 <= w <= WHEEL_COUNT && Shape(wheels) && AllBounded(wheels, nowUs)
        invariant
          var o := Collapse(wheels, w, p, nowUs);
          Collapse(old(wheels), 1, p, nowUs) == Outcome(o.wheels, taken + o.taken)
      {
        ghost var before := wheels;
        var off := Offset(p, w);
        EmptiedBounded(before, w, p, nowUs);
        var fired := ReinsertBucket(w, off);
        assert Outcome(wheels, fired) == Emptied(before, w, p, nowUs);
        taken := taken + fired;
        if off != 0 {
          break;
        }
        w := w + 1;
      }
    }

    /** timer_run, with the clock as a parameter. */
    method RunTimers(clock: nat) returns (taken: seq<Timer>)
      requires Valid() && nowUs <= clock
      modifies this
      ensures Valid() && nowUs == clock < timerPos
      ensures State(nowUs, timerPos, wheels, taken) ==
              Step(State(old(nowUs), old(timerPos), old(wheels), []), Pass(clock))
    {
      hide AllSit, AllBounded, Collapse, SetBucket, Offset;
      StepInv(State(nowUs, timerPos, wheels, []), Pass(clock));
      LaterBounded(wheels, nowUs, clock);
      var pos := timerPos;
      nowUs, taken := clock, [];
      while pos <= nowUs
        invariant nowUs == clock && Shape(wheels) && AllBounded(wheels, clock)
        invariant NextPos(pos, clock) == NextPos(old(timerPos), clock)
        invariant
          var o := Run(wheels, pos, clock);
          Run(old(wheels), old(timerPos), clock) == Outcome(o.wheels, taken + o.taken)
      {
        ghost var before := wheels;
        var highOff := Offset(pos, 0);
        var fired := [];
        if highOff == 0 {
          fired := CollapseAt(pos);
        }
        fired := fired + wheels[0][highOff];
        wheels := SetBucket(wheels, 0, highOff, []);
        assert Outcome(wheels, fired) == Tick(before, pos, clock);
        taken := taken + fired;
        pos := pos + MIN_DELAY_US;
      }
      timerPos := pos;
    }

    /** The buckets timer_run and timer_collapse touch at tick p: higher wheels first. */
    method BucketsAt(p: nat) returns (bs: seq<(nat, nat)>)
      ensures forall w: nat, off: nat | w < WHEEL_COUNT :: (w, off) in bs <==> Visits(p, w, off)
    {
      bs := [];
      if Offset(p, 0) == 0 {
        var w := 1;
        while w < WHEEL_COUNT
          invariant 1 <= w <= WHEEL_COUNT && Reaches(p, w)
          invariant forall b | b in bs :: 1 <= b.0 < w && Visits(p, b.0, b.1)
          invariant forall v: nat | 1 <= v < w :: (v, Offset(p, v)) in bs
        {
          bs := bs + [(w, Offset(p, w))];
          w := w + 1;
          if Offset(p, w - 1) != 0 {
            break;
          }
        }
        Beyond(p, w);
      }
      bs := bs + [(0, Offset(p, 0))];
    }
  }

  lemma {:induction false} Beyond(p: nat, w: nat)
    ensures w > 0 && Offset(p, w - 1) != 0 ==> forall v: nat | v >= w :: !Reaches(p, v)
  {
  }
}
