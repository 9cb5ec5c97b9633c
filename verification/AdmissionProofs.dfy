/** The device model interpolates monotonically, and no run of registrations and removals hands
    out more tokens than the device has. */
module AdmissionProofs {
  import opened Admission
  import opened ModArith

  // ---------------------------------------------------------------- the interpolation

  predicate Sorted(m: seq<Point>) {
    forall j, k | 0 <= j < k < |m| :: m[j].latency < m[k].latency
  }

  /** No limit or latency is wider than 32 bits, so the products fit in 64. */
  predicate Narrow(m: seq<Point>) {
    forall k | 0 <= k < |m| :: m[k].latency <= UINT_MAX && m[k].mixed <= UINT_MAX && m[k].rdonly <= UINT_MAX
  }

  predicate Rising(m: seq<Point>, readonly: bool) {
    forall j, k | 0 <= j <= k < |m| :: LimitAt(m[j], readonly) <= LimitAt(m[k], readonly)
  }

  lemma {:induction false} ProductFits(a: nat, b: nat)
    requires a <= UINT_MAX && b <= UINT_MAX
    ensures 0 <= a * b < TWO64
  {
    assert 0 <= a * b;
    assert a * b <= UINT_MAX * b;
  }

  lemma {:induction false} MulMono(a: nat, b: nat, c: nat)
    requires b <= c
    ensures a * b <= a * c
  {
  }

  /** Between two lines whose limits rise, the interpolation is the exact floor and stays between. */
  lemma {:induction false} InterpolateFacts(y0: nat, y1: nat, x0: nat, x1: nat, lat: nat)
    requires x0 <= lat < x1 <= UINT_MAX && y0 <= y1 <= UINT_MAX
    ensures Interpolate(y0, y1, x0, x1, lat) == y0 + (y1 - y0) * (lat - x0) / (x1 - x0)
    ensures y0 <= Interpolate(y0, y1, x0, x1, lat) <= y1
  {
    var a, b, n := y1 - y0, lat - x0, x1 - x0;
    ProductFits(a, b);
    assert (y1 - y0) % TWO64 == a;
    assert (a * b) % TWO64 == a * b;
    MulMono(a, b, n);
    DivMono(a * b, a * n, n);
    DivModUnique(a * n, n, a, 0);
    DivMono(0, a * b, n);
  }

  lemma {:induction false} InterpolateMono(y0: nat, y1: nat, x0: nat, x1: nat, lat: nat, lat': nat)
    requires x0 <= lat <= lat' < x1 <= UINT_MAX && y0 <= y1 <= UINT_MAX
    ensures Interpolate(y0, y1, x0, x1, lat) <= Interpolate(y0, y1, x0, x1, lat')
  {
    InterpolateFacts(y0, y1, x0, x1, lat);
    InterpolateFacts(y0, y1, x0, x1, lat');
    MulMono(y1 - y0, lat - x0, lat' - x0);
    DivMono((y1 - y0) * (lat - x0), (y1 - y0) * (lat' - x0), x1 - x0);
  }

  /** The limit lies between those of the lines around the SLO. */
  lemma {:induction false} TokenLimitBetween(m: seq<Point>, ro: bool, lat: nat)
    requires m != [] && Narrow(m) && Rising(m, ro)
    ensures var i, y := Bracket(m, lat), TokenLimit(m, ro, lat);
      && (i > 0 ==> LimitAt(m[i - 1], ro) <= y)
      && (i < |m| ==> y <= LimitAt(m[i], ro))
      && y <= UINT_MAX
  {
    var i := Bracket(m, lat);
    if 0 < i < |m| {
      assert LimitAt(m[i - 1], ro) <= LimitAt(m[i], ro);
      InterpolateFacts(LimitAt(m[i - 1], ro), LimitAt(m[i], ro), m[i - 1].latency, m[i].latency, lat);
    }
  }

  lemma {:induction false} TokenLimitMono(m: seq<Point>, ro: bool, lat: nat, lat': nat)
    requires m != [] && Narrow(m) && Rising(m, ro) && Sorted(m) && lat <= lat'
    ensures TokenLimit(m, ro, lat) <= TokenLimit(m, ro, lat')
  {
    var i, i' := Bracket(m, lat), Bracket(m, lat');
    assert i <= i';
    TokenLimitBetween(m, ro, lat);
    TokenLimitBetween(m, ro, lat');
    if i == i' {
      if 0 < i < |m| {
        assert LimitAt(m[i - 1], ro) <= LimitAt(m[i], ro);
        InterpolateMono(LimitAt(m[i - 1], ro), LimitAt(m[i], ro), m[i - 1].latency, m[i].latency, lat, lat');
      }
    } else {
      assert LimitAt(m[i], ro) <= LimitAt(m[i' - 1], ro);
    }
  }

  /** At the latency of a line the limit is the one written there. */
  lemma {:induction false} TokenLimitAtPoint(m: seq<Point>, ro: bool, k: nat)
    requires k < |m| && Sorted(m)
    ensures TokenLimit(m, ro, m[k].latency) == LimitAt(m[k], ro)
  {
    hide Bracket, Interpolate;
    var lat := m[k].latency;
    var i := Bracket(m, lat);
    assert k + 1 < |m| ==> lat < m[k + 1].latency;
    assert i == k + 1;
    if i < |m| {
      InterpolateStart(LimitAt(m[k], ro), LimitAt(m[i], ro), lat, m[i].latency);
    }
  }

  lemma {:induction false} InterpolateStart(y0: nat, y1: nat, x0: nat, x1: nat)
    requires x0 < x1
    ensures Interpolate(y0, y1, x0, x1, x0) == y0
  {
    var d := (y1 - y0) % TWO64;
    assert d * (x0 - x0) == 0;
  }

  ghost predicate Monotone(m: seq<Point>, ro: bool)
    requires m != []
  {
    forall lat: nat, lat': nat | lat <= lat' :: TokenLimit(m, ro, lat) <= TokenLimit(m, ro, lat')
  }

  /** A laxer latency never lowers the limit exactly when the limits in the table rise. */
  lemma {:induction false} MonotoneIff(m: seq<Point>, ro: bool)
    requires m != [] && Narrow(m) && Sorted(m)
    ensures Monotone(m, ro) <==> Rising(m, ro)
  {
    if Rising(m, ro) {
      forall lat: nat, lat': nat | lat <= lat' ensures TokenLimit(m, ro, lat) <= TokenLimit(m, ro, lat') {
        TokenLimitMono(m, ro, lat, lat');
      }
    }
    if Monotone(m, ro) {
      forall j, k | 0 <= j <= k < |m| ensures LimitAt(m[j], ro) <= LimitAt(m[k], ro) {
        TokenLimitAtPoint(m, ro, j);
        TokenLimitAtPoint(m, ro, k);
        assert m[j].latency <= m[k].latency;
      }
    }
  }

  // ---------------------------------------------------------------- the accounts

  function SumLc(slots: seq<Slot>): nat {
    if slots == [] then 0 else (if slots[0].accepted && Lc(slots[0]) then slots[0].scaled else 0) + SumLc(slots[1..])
  }

  function CountLc(slots: seq<Slot>): nat {
    if slots == [] then 0 else (if slots[0].accepted && Lc(slots[0]) then 1 else 0) + CountLc(slots[1..])
  }

  function CountBe(slots: seq<Slot>): nat {
    if slots == [] then 0 else (if slots[0].accepted && !Lc(slots[0]) then 1 else 0) + CountBe(slots[1..])
  }

  /** Reservations fit the rate, and so do reservations plus BE shares or LC boosts. */
  predicate Balanced(r: Registry) {
    && 0 <= r.nLc && 0 <= r.nBe
    && 0 <= r.lcSum <= r.rate < TWO64
    && r.lcSum + r.nBe * r.beRate <= r.rate
    && r.lcSum + r.nLc * r.boost <= r.rate
    && (r.nBe > 0 ==> r.boost == 0)
  }

  /** The running sums are those of the accepted tenants. */
  predicate Accounted(r: Registry) {
    && r.lcSum == SumLc(r.slots) && r.nLc == CountLc(r.slots) && r.nBe == CountBe(r.slots)
    && forall i | 0 <= i < |r.slots| :: r.slots[i].accepted ==> r.slots[i].used
  }

  predicate SameTenants(a: seq<Slot>, b: seq<Slot>) {
    |a| == |b| && forall i | 0 <= i < |a| :: b[i] == a[i].(limit := b[i].limit)
  }

  lemma {:induction false} ReadjustKeepsTenants(slots: seq<Slot>, boost: nat, left: int)
    ensures SameTenants(slots, Readjust(slots, boost, left))
  {
    if slots != [] {
      ReadjustKeepsTenants(slots[1..], boost, left - 1);
      ReadjustKeepsTenants(slots[1..], boost, left);
    }
  }

  lemma {:induction false} SumsOfSame(a: seq<Slot>, b: seq<Slot>)
    requires SameTenants(a, b)
    ensures SumLc(a) == SumLc(b) && CountLc(a) == CountLc(b) && CountBe(a) == CountBe(b)
  {
    if a != [] {
      SumsOfSame(a[1..], b[1..]);
    }
  }

  lemma {:induction false} SumsUpdate(slots: seq<Slot>, i: nat, s: Slot)
    requires i < |slots|
    ensures var t := slots[i];
      && SumLc(slots[i := s]) == SumLc(slots) - (if t.accepted && Lc(t) then t.scaled else 0)
        + (if s.accepted && Lc(s) then s.scaled else 0)
      && CountLc(slots[i := s]) == CountLc(slots) - (if t.accepted && Lc(t) then 1 else 0)
        + (if s.accepted && Lc(s) then 1 else 0)
      && CountBe(slots[i := s]) == CountBe(slots) - (if t.accepted && !Lc(t) then 1 else 0)
        + (if s.accepted && !Lc(s) then 1 else 0)
  {
    if i == 0 {
      assert slots[i := s][1..] == slots[1..];
    } else {
      SumsUpdate(slots[1..], i - 1, s);
      assert slots[i := s][1..] == slots[1..][i - 1 := s];
    }
  }

  lemma {:induction false} PartFits(rate: nat, lcSum: int, n: int)
    requires 0 <= lcSum <= rate < TWO64 && n > 0
    ensures lcSum + n * Part(rate, lcSum, n) <= rate
  {
    var x := rate - lcSum;
    assert x % TWO64 == x;
    assert x == n * (x / n) + x % n;
  }

  /** The shares are right exactly when the reservations fit the rate; a share cut to 32 bits is
      only smaller. */
  lemma {:induction false} ShareBalanced(r: Registry)
    requires r.nLc >= 0 && r.nBe >= 0 && 0 <= r.lcSum && r.rate < TWO64
    ensures Balanced(Share(r)) <==> r.lcSum <= r.rate
    ensures SameTenants(r.slots, Share(r).slots)
    ensures var r' := Share(r); r' == r.(beRate := r'.beRate, boost := r'.boost, slots := r'.slots)
  {
    ReadjustKeepsTenants(r.slots, NewBoost(r), r.nLc);
    if r.lcSum <= r.rate {
      if r.nBe > 0 {
        PartFits(r.rate, r.lcSum, r.nBe);
        var p := Part(r.rate, r.lcSum, r.nBe);
        MulMono(r.nBe, p % (UINT_MAX + 1), p);
      } else if r.nLc > 0 {
        PartFits(r.rate, r.lcSum, r.nLc);
      }
    }
  }

  predicate GoodRate(d: Device)
  {
    d.Modelled? ==> d.points != [] && Narrow(d.points) && Rising(d.points, true) && Rising(d.points, false)
  }

  /** Admission never unbalances the accounts and never raises the rate, for any device model
      and whatever the slots hold; an LC tenant is admitted exactly when the reservations fit
      both the current rate and the limit at its own latency. */
  lemma {:induction false} AddBalanced(r: Registry, d: Device, i: nat)
    requires ValidDevice(d) && i < |r.slots| && Balanced(r)
    ensures var (r', ok) := Add(r, d, i);
      && Balanced(r') && r'.rate <= r.rate && r'.lcSum >= r.lcSum
      && (!ok ==> r' == r.(readonly := r'.readonly))
      && (ok <==> Lc(r.slots[i]) ==>
            r.lcSum + r.slots[i].scaled <= r.rate &&
            r.lcSum + r.slots[i].scaled <= Lookup(d, r.readonly && r.slots[i].rwRatio >= 100, r.slots[i].latency))
  {
    hide Share, Lookup;
    var s := r.slots[i];
    if Lc(s) ==> r.lcSum + s.scaled <= NewRate(r, d, s) {
      ShareBalanced(Booked(r.(readonly := NewFlag(r, s)), i, NewRate(r, d, s)));
    }
  }

  // ---------------------------------------------------------------- runs of registrations

  datatype Request = Request(i: nat, latency: nat, rwRatio: nat, scaled: nat)

  function RegisterAll(r: Registry, d: Device, qs: seq<Request>): Registry
    requires ValidDevice(d) && forall k | 0 <= k < |qs| :: qs[k].i < |r.slots|
    decreases |qs|
  {
    if qs == [] then r
    else
      var q := qs[0];
      RegisterAll(Register(r, d, q.i, q.latency, q.rwRatio, q.scaled).0, d, qs[1..])
  }

  /** Over any sequence of registrations, accepted or refused, even into slots that refused
      tenants still hold. */
  lemma {:induction false} RegistrationsBalanced(r: Registry, d: Device, qs: seq<Request>)
    requires ValidDevice(d) && (forall k | 0 <= k < |qs| :: qs[k].i < |r.slots|) && Balanced(r)
    ensures Balanced(RegisterAll(r, d, qs)) && RegisterAll(r, d, qs).rate <= r.rate
    decreases |qs|
  {
    if qs != [] {
      var q := qs[0];
      AddBalanced(Fill(r, q.i, q.latency, q.rwRatio, q.scaled), d, q.i);
      hide Add, Balanced;
      RegistrationsBalanced(Register(r, d, q.i, q.latency, q.rwRatio, q.scaled).0, d, qs[1..]);
    }
  }

  // ---------------------------------------------------------------- removals

  /** One column of limits, as when the configuration gives no read-only rates. */
  predicate Uniform(m: seq<Point>) {
    forall k | 0 <= k < |m| :: m[k].mixed == m[k].rdonly
  }

  predicate Simple(d: Device) {
    d.Modelled? ==>
      d.points != [] && Sorted(d.points) && Narrow(d.points) && Rising(d.points, true) && Uniform(d.points)
  }

  lemma {:induction false} SimpleLookup(d: Device, ro: bool, lat: nat, lat': nat)
    requires Simple(d) && lat <= lat'
    ensures Lookup(d, ro, lat) == Lookup(d, true, lat) <= Lookup(d, true, lat') <= UINT_MAX
  {
    if d.Modelled? {
      TokenLimitMono(d.points, true, lat, lat');
      TokenLimitBetween(d.points, true, lat');
    }
  }

  /** The rate is no higher than the limit at any accepted tenant's latency. */
  predicate Covered(r: Registry, d: Device)
    requires ValidDevice(d)
  {
    forall i | 0 <= i < |r.slots| ::
      r.slots[i].accepted && Lc(r.slots[i]) ==>
        r.slots[i].latency <= UINT_MAX && r.rate <= Lookup(d, true, r.slots[i].latency)
  }

  predicate RegInv(r: Registry, d: Device)
    requires ValidDevice(d)
  {
    Balanced(r) && Accounted(r) && Covered(r, d)
  }

  predicate NoSquatter(r: Registry) {
    forall i | 0 <= i < |r.slots| :: r.slots[i].used ==> r.slots[i].accepted
  }

  lemma {:induction false} StrictestFacts(slots: seq<Slot>, skip: int)
    ensures var x := Strictest(slots, skip);
      && x <= UINT_MAX
      && (forall k | 0 <= k < |slots| ::
            slots[k].used && k != skip && Lc(slots[k]) ==> x <= slots[k].latency || UINT_MAX < slots[k].latency)
      && (x == UINT_MAX || exists k | 0 <= k < |slots| ::
            slots[k].used && k != skip && Lc(slots[k]) && slots[k].latency == x)
  {
    if slots != [] {
      StrictestFacts(slots[1..], skip - 1);
      assert forall k | 1 <= k < |slots| :: slots[k] == slots[1..][k - 1];
      var x, y := Strictest(slots, skip), Strictest(slots[1..], skip - 1);
      if x == y < UINT_MAX {
        var k :| 0 <= k < |slots[1..]| && slots[1..][k].used && k != skip - 1 && Lc(slots[1..][k])
          && slots[1..][k].latency == y;
        assert slots[k + 1].latency == x;
      }
    }
  }

  lemma {:induction false} NoLcSum(slots: seq<Slot>)
    requires forall k | 0 <= k < |slots| :: slots[k].accepted ==> !Lc(slots[k])
    ensures SumLc(slots) == 0 && CountLc(slots) == 0
  {
    if slots != [] {
      NoLcSum(slots[1..]);
    }
  }

  /** What is left after a removal fits the limit at the strictest remaining latency. */
  lemma {:induction false} RemainingFits(r: Registry, d: Device, i: nat, ro: bool)
    requires Simple(d) && RegInv(r, d) && NoSquatter(r)
    requires i < |r.slots| && r.slots[i].accepted && Lc(r.slots[i])
    ensures 0 <= r.lcSum - r.slots[i].scaled <= Lookup(d, ro, Strictest(r.slots, i)) <= UINT_MAX
    ensures forall k | 0 <= k < |r.slots| && k != i ::
      r.slots[k].accepted && Lc(r.slots[k]) ==>
        Lookup(d, ro, Strictest(r.slots, i)) <= Lookup(d, true, r.slots[k].latency)
  {
    var x := Strictest(r.slots, i);
    StrictestFacts(r.slots, i);
    SumsUpdate(r.slots, i, r.slots[i].(used := false, accepted := false));
    var rest := Remaining(r, i);
    SimpleLookup(d, ro, x, x);
    if k :| 0 <= k < |r.slots| && k != i && r.slots[k].accepted && Lc(r.slots[k]) {
      assert x <= r.slots[k].latency <= UINT_MAX;
      if x == UINT_MAX {
        assert r.slots[k].latency == x;
      }
    } else {
      NoLcSum(rest);
    }
    forall k | 0 <= k < |r.slots| && k != i && r.slots[k].accepted && Lc(r.slots[k])
      ensures Lookup(d, ro, x) <= Lookup(d, true, r.slots[k].latency)
    {
      SimpleLookup(d, ro, x, r.slots[k].latency);
    }
  }

  /** After Share, with the departing or arriving slot already settled. */
  lemma {:induction false} ShareInv(r: Registry, d: Device)
    requires ValidDevice(d) && Accounted(r) && Covered(r, d) && 0 <= r.lcSum <= r.rate < TWO64
    ensures RegInv(Share(r), d)
  {
    ShareBalanced(r);
    var r' := Share(r);
    SumsOfSame(r.slots, r'.slots);
    hide Share, Balanced, Lookup;
    assert forall k | 0 <= k < |r.slots| :: r'.slots[k] == r.slots[k].(limit := r'.slots[k].limit);
  }

  /** Clearing the slot before or after the shares are recomputed makes no difference to the
      accounts. */
  lemma {:induction false} ClearedInv(r: Registry, d: Device, i: nat)
    requires ValidDevice(d) && i < |r.slots| && r.slots[i].accepted
    requires Accounted(r.(slots := Remaining(r, i))) && Covered(r.(slots := Remaining(r, i)), d)
    requires 0 <= r.lcSum && r.rate < TWO64
    ensures var r' := Share(r);
      && |r'.slots| == |r.slots|
      && var r2 := r'.(slots := Remaining(r', i));
         (RegInv(r2, d) <==> r.lcSum <= r.rate) && (Balanced(r2) <==> r.lcSum <= r.rate)
  {
    ShareBalanced(r);
    var r' := Share(r);
    assert SameTenants(Remaining(r, i), Remaining(r', i));
    SumsOfSame(Remaining(r, i), Remaining(r', i));
    hide Share, Lookup;
    assert forall k | 0 <= k < |r.slots| ::
      Remaining(r', i)[k] == Remaining(r, i)[k].(limit := Remaining(r', i)[k].limit);
  }

  lemma {:induction false} SettledInv(r: Registry, d: Device, i: nat)
    requires Simple(d) && RegInv(r, d)
    requires i < |r.slots| && r.slots[i].accepted && (Lc(r.slots[i]) ==> NoSquatter(r))
    ensures var s := Settled(r, d, i);
      && Accounted(s.(slots := Remaining(s, i))) && Covered(s.(slots := Remaining(s, i)), d)
      && 0 <= s.lcSum <= s.rate < TWO64
  {
    SumsUpdate(r.slots, i, r.slots[i].(used := false, accepted := false));
    if Lc(r.slots[i]) {
      RemainingFits(r, d, i, ReadOnly(r.slots, i));
    }
    hide Lookup, Strictest, ReadOnly, SumLc, CountLc, CountBe;
  }

  /** A removal keeps the books in order when limits rise with latency and do not depend on the
      read-only flag, and, if the tenant is LC, no refused tenant holds a slot. */
  lemma {:induction false} UnregisterInv(r: Registry, d: Device, i: nat)
    requires Simple(d) && RegInv(r, d)
    requires i < |r.slots| && r.slots[i].accepted && (Lc(r.slots[i]) ==> NoSquatter(r))
    ensures RegInv(Unregister(r, d, i), d)
  {
    hide Share, RegInv, Balanced, Lookup;
    SettledInv(r, d, i);
    ClearedInv(Settled(r, d, i), d, i);
    ShareBalanced(Settled(r, d, i));
  }

  /** For any device and whatever the slots hold: the accounts are balanced after a removal exactly
      when what remains reserved fits the limit at the strictest remaining latency. */
  lemma {:induction false} UnregisterBalancedIff(r: Registry, d: Device, i: nat)
    requires ValidDevice(d) && Balanced(r) && Accounted(r)
    requires i < |r.slots| && r.slots[i].accepted
    ensures Balanced(Unregister(r, d, i)) <==>
      Lc(r.slots[i]) ==> SumLc(Remaining(r, i)) <= Lookup(d, ReadOnly(r.slots, i), Strictest(r.slots, i)) < TWO64
  {
    hide Lookup, Strictest, Readjust, Part;
    SumsUpdate(r.slots, i, r.slots[i].(used := false, accepted := false));
    var s := Settled(r, d, i);
    if s.rate < TWO64 {
      ShareBalanced(s);
    }
  }

  /** Booking a tenant that fits. */
  lemma {:induction false} BookedInv(r: Registry, d: Device, i: nat)
    requires Simple(d) && RegInv(r, d) && i < |r.slots|
    requires var s := r.slots[i];
      s.used && !s.accepted && s.latency <= UINT_MAX && (Lc(s) ==> r.lcSum + s.scaled <= NewRate(r, d, s))
    ensures var r' := Booked(r.(readonly := NewFlag(r, r.slots[i])), i, NewRate(r, d, r.slots[i]));
      Accounted(r') && Covered(r', d) && 0 <= r'.lcSum <= r'.rate < TWO64
  {
    var s := r.slots[i];
    SumsUpdate(r.slots, i, s.(accepted := true));
    SimpleLookup(d, NewFlag(r, s), s.latency, s.latency);
    hide Lookup;
  }

  // ---------------------------------------------------------------- the sums, for any device

  lemma {:induction false} ShareAccounted(r: Registry)
    requires Accounted(r)
    ensures Accounted(Share(r))
  {
    hide SumLc, CountLc, CountBe, Readjust, NewBoost, Part;
    var r' := Share(r);
    ReadjustKeepsTenants(r.slots, NewBoost(r), r.nLc);
    assert SameTenants(r.slots, r'.slots);
    SumsOfSame(r.slots, r'.slots);
  }

  lemma {:induction false} FillAccounted(r: Registry, i: nat, latency: nat, rwRatio: nat, scaled: nat)
    requires Accounted(r) && i < |r.slots| && !r.slots[i].used
    ensures Accounted(Fill(r, i, latency, rwRatio, scaled))
  {
    SumsUpdate(r.slots, i, Fill(r, i, latency, rwRatio, scaled).slots[i]);
  }

  lemma {:induction false} BookedAccounted(r: Registry, i: nat, rate: nat)
    requires Accounted(r) && i < |r.slots| && r.slots[i].used && !r.slots[i].accepted
    ensures Accounted(Booked(r, i, rate))
  {
    SumsUpdate(r.slots, i, r.slots[i].(accepted := true));
  }

  /** A registration in a free slot keeps the sums those of the tenants present, whatever the
      device. */
  lemma {:induction false} RegisterAccounted(r: Registry, d: Device, i: nat, latency: nat, rwRatio: nat, scaled: nat)
    requires ValidDevice(d) && Accounted(r) && i < |r.slots| && !r.slots[i].used
    ensures Accounted(Register(r, d, i, latency, rwRatio, scaled).0)
  {
    hide Share, Lookup, Accounted, Booked;
    var r1 := Fill(r, i, latency, rwRatio, scaled);
    var s := r1.slots[i];
    FillAccounted(r, i, latency, rwRatio, scaled);
    FlagAccounted(r1, NewFlag(r1, s));
    if Lc(s) ==> r1.lcSum + s.scaled <= NewRate(r1, d, s) {
      BookedAccounted(r1.(readonly := NewFlag(r1, s)), i, NewRate(r1, d, s));
      ShareAccounted(Booked(r1.(readonly := NewFlag(r1, s)), i, NewRate(r1, d, s)));
    }
  }

  lemma {:induction false} FlagAccounted(r: Registry, flag: bool)
    requires Accounted(r)
    ensures Accounted(r.(readonly := flag))
  {
  }

  /** And so does a removal. */
  lemma {:induction false} UnregisterAccounted(r: Registry, d: Device, i: nat)
    requires ValidDevice(d) && Accounted(r) && i < |r.slots| && r.slots[i].accepted
    ensures Accounted(Unregister(r, d, i))
  {
    hide SumLc, CountLc, CountBe, Readjust, NewBoost, Part, Lookup, Strictest, ReadOnly;
    var s := Settled(r, d, i);
    var r' := Share(s);
    ReadjustKeepsTenants(s.slots, NewBoost(s), s.nLc);
    SumsUpdate(r.slots, i, r.slots[i].(used := false, accepted := false));
    RemainingSame(r, r', i);
    SumsOfSame(Remaining(r, i), Remaining(r', i));
  }

  lemma {:induction false} RemainingSame(r: Registry, r': Registry, i: nat)
    requires i < |r.slots| && SameTenants(r.slots, r'.slots)
    ensures SameTenants(Remaining(r, i), Remaining(r', i))
  {
  }

  // ---------------------------------------------------------------- registrations, simple devices

  lemma {:induction false} FillInv(r: Registry, d: Device, i: nat, latency: nat, rwRatio: nat, scaled: nat)
    requires ValidDevice(d) && RegInv(r, d) && i < |r.slots| && !r.slots[i].used
    ensures RegInv(Fill(r, i, latency, rwRatio, scaled), d)
  {
    SumsUpdate(r.slots, i, Fill(r, i, latency, rwRatio, scaled).slots[i]);
    hide Lookup;
  }

  lemma {:induction false} RegisterInv(r: Registry, d: Device, i: nat, latency: nat, rwRatio: nat, scaled: nat)
    requires Simple(d) && RegInv(r, d) && latency <= UINT_MAX
    requires i < |r.slots| && !r.slots[i].used
    ensures RegInv(Register(r, d, i, latency, rwRatio, scaled).0, d)
  {
    var r1 := Fill(r, i, latency, rwRatio, scaled);
    var s := r1.slots[i];
    FillInv(r, d, i, latency, rwRatio, scaled);
    if Lc(s) ==> r1.lcSum + s.scaled <= NewRate(r1, d, s) {
      BookedInv(r1, d, i);
      ShareInv(Booked(r1.(readonly := NewFlag(r1, s)), i, NewRate(r1, d, s)), d);
    }
    hide Share, Lookup, Booked;
  }

  // ---------------------------------------------------------------- runs with removals

  datatype Event = Join(q: Request) | Leave(i: nat)

  /** New tenants come in free slots; only accepted tenants leave. */
  predicate Allowed(r: Registry, e: Event) {
    match e
    case Join(q) => q.i < |r.slots| && !r.slots[q.i].used
    case Leave(i) => i < |r.slots| && r.slots[i].accepted
  }

  function Apply(r: Registry, d: Device, e: Event): Registry
    requires ValidDevice(d) && Allowed(r, e)
  {
    match e
    case Join(q) => Register(r, d, q.i, q.latency, q.rwRatio, q.scaled).0
    case Leave(i) => Unregister(r, d, i)
  }

  predicate AllAllowed(r: Registry, d: Device, es: seq<Event>)
    requires ValidDevice(d)
    decreases |es|
  {
    es != [] ==> Allowed(r, es[0]) && AllAllowed(Apply(r, d, es[0]), d, es[1..])
  }

  function ApplyAll(r: Registry, d: Device, es: seq<Event>): Registry
    requires ValidDevice(d) && AllAllowed(r, d, es)
    decreases |es|
  {
    if es == [] then r else ApplyAll(Apply(r, d, es[0]), d, es[1..])
  }

  /** When an LC tenant leaves, what remains reserved fits the limit at the strictest remaining
      latency. */
  predicate StillFits(r: Registry, d: Device, e: Event)
    requires ValidDevice(d) && Allowed(r, e)
  {
    e.Leave? && Lc(r.slots[e.i]) ==>
      SumLc(Remaining(r, e.i)) <= Lookup(d, ReadOnly(r.slots, e.i), Strictest(r.slots, e.i)) < TWO64
  }

  predicate AllFit(r: Registry, d: Device, es: seq<Event>)
    requires ValidDevice(d) && AllAllowed(r, d, es)
    decreases |es|
  {
    es != [] ==> StillFits(r, d, es[0]) && AllFit(Apply(r, d, es[0]), d, es[1..])
  }

  predicate AlwaysBalanced(r: Registry, d: Device, es: seq<Event>)
    requires ValidDevice(d) && AllAllowed(r, d, es)
    decreases |es|
  {
    Balanced(r) && (es != [] ==> AlwaysBalanced(Apply(r, d, es[0]), d, es[1..]))
  }

  lemma {:induction false} ApplyBalancedIff(r: Registry, d: Device, e: Event)
    requires ValidDevice(d) && Allowed(r, e) && Balanced(r) && Accounted(r)
    ensures Accounted(Apply(r, d, e))
    ensures Balanced(Apply(r, d, e)) <==> StillFits(r, d, e)
  {
    hide Balanced, Accounted, Add, Unregister, Lookup;
    match e
    case Join(q) =>
      RegisterAccounted(r, d, q.i, q.latency, q.rwRatio, q.scaled);
      FillBalanced(r, q);
      AddBalanced(Fill(r, q.i, q.latency, q.rwRatio, q.scaled), d, q.i);
    case Leave(i) =>
      UnregisterAccounted(r, d, i);
      UnregisterBalancedIff(r, d, i);
  }

  lemma {:induction false} FillBalanced(r: Registry, q: Request)
    requires Balanced(r) && q.i < |r.slots|
    ensures Balanced(Fill(r, q.i, q.latency, q.rwRatio, q.scaled))
  {
  }

  /** For any device model: through any joins and leaves the sums are those of the tenants present,
      and the accounts are balanced after every one of them if and only if at every departure of an
      LC tenant what remains still fits. */
  lemma {:induction false} BalancedRunIff(r: Registry, d: Device, es: seq<Event>)
    requires ValidDevice(d) && AllAllowed(r, d, es) && Balanced(r) && Accounted(r)
    ensures AlwaysBalanced(r, d, es) <==> AllFit(r, d, es)
    ensures AllFit(r, d, es) ==> Balanced(ApplyAll(r, d, es)) && Accounted(ApplyAll(r, d, es))
    decreases |es|
  {
    hide Balanced, Accounted, Apply, StillFits;
    if es != [] {
      ApplyBalancedIff(r, d, es[0]);
      if StillFits(r, d, es[0]) {
        BalancedRunIff(Apply(r, d, es[0]), d, es[1..]);
      } else {
        NotBalanced(Apply(r, d, es[0]), d, es[1..]);
      }
    }
  }

  lemma {:induction false} NotBalanced(r: Registry, d: Device, es: seq<Event>)
    requires ValidDevice(d) && AllAllowed(r, d, es) && !Balanced(r)
    ensures !AlwaysBalanced(r, d, es)
  {
  }

  lemma {:induction false} NobodyYet(slots: seq<Slot>)
    requires forall k | 0 <= k < |slots| :: !slots[k].accepted
    ensures SumLc(slots) == 0 && CountLc(slots) == 0 && CountBe(slots) == 0
  {
    if slots != [] {
      NobodyYet(slots[1..]);
    }
  }

  lemma {:induction false} FreshBalanced(n: nat)
    ensures Balanced(Fresh(n)) && Accounted(Fresh(n))
  {
    NobodyYet(Fresh(n).slots);
  }

  /** Latencies fit their type, and no refused tenant holds a slot when an LC tenant leaves. */
  predicate AllOrderly(r: Registry, d: Device, es: seq<Event>)
    requires ValidDevice(d) && AllAllowed(r, d, es)
    decreases |es|
  {
    es != [] ==>
      && (es[0].Join? ==> es[0].q.latency <= UINT_MAX)
      && (es[0].Leave? && Lc(r.slots[es[0].i]) ==> NoSquatter(r))
      && AllOrderly(Apply(r, d, es[0]), d, es[1..])
  }

  /** On a simple device what remains always fits. */
  lemma {:induction false} OrderlyFits(r: Registry, d: Device, es: seq<Event>)
    requires Simple(d) && RegInv(r, d) && AllAllowed(r, d, es) && AllOrderly(r, d, es)
    ensures AllFit(r, d, es) && RegInv(ApplyAll(r, d, es), d)
    decreases |es|
  {
    hide Register, Unregister, Balanced, Accounted, Covered, StillFits, NoSquatter;
    if es != [] {
      match es[0] {
        case Join(q) => RegisterInv(r, d, q.i, q.latency, q.rwRatio, q.scaled);
        case Leave(i) => UnregisterInv(r, d, i);
      }
      ApplyBalancedIff(r, d, es[0]);
      OrderlyFits(Apply(r, d, es[0]), d, es[1..]);
    }
  }

  /** From boot on a simple device, through any joins and leaves, what is reserved and shared out
      never exceeds the token rate, and the sums are those of the tenants present. */
  lemma {:induction false} NeverOversubscribed(n: nat, d: Device, es: seq<Event>)
    requires Simple(d) && AllAllowed(Fresh(n), d, es) && AllOrderly(Fresh(n), d, es)
    ensures AlwaysBalanced(Fresh(n), d, es)
    ensures var r := ApplyAll(Fresh(n), d, es);
      && SumLc(r.slots) + CountBe(r.slots) * r.beRate <= r.rate
      && SumLc(r.slots) + CountLc(r.slots) * r.boost <= r.rate
      && RegInv(r, d)
  {
    hide ApplyAll, AllAllowed, AllFit, AllOrderly, AlwaysBalanced, Lookup;
    FreshBalanced(n);
    assert RegInv(Fresh(n), d);
    OrderlyFits(Fresh(n), d, es);
    BalancedRunIff(Fresh(n), d, es);
  }

  // ---------------------------------------------------------------- nothing stays idle

  /** What is not reserved is shared out, up to what equal parts leave over: among the BE tenants, as
      far as their share fits its type, or else as boosts among the LC tenants. */
  predicate SharedOut(r: Registry) {
    && (r.nBe > 0 ==>
          && r.boost == 0
          && ((r.rate - r.lcSum) / r.nBe <= UINT_MAX ==> 0 <= r.rate - r.lcSum - r.nBe * r.beRate < r.nBe))
    && (r.nBe == 0 ==> r.beRate == 0)
    && (r.nBe == 0 && r.nLc > 0 ==> 0 <= r.rate - r.lcSum - r.nLc * r.boost < r.nLc)
    && (r.nBe == 0 && r.nLc == 0 ==> r.boost == 0)
  }

  lemma {:induction false} PartExactly(rate: nat, lcSum: int, n: int)
    requires 0 <= lcSum <= rate < TWO64 && n > 0
    ensures Part(rate, lcSum, n) == (rate - lcSum) / n
    ensures 0 <= rate - lcSum - n * Part(rate, lcSum, n) < n
  {
    var x := rate - lcSum;
    assert x % TWO64 == x;
    assert x == n * (x / n) + x % n;
  }

  /** Recomputing the shares leaves nothing over but the remainder of the division. */
  lemma {:induction false} ShareSharesOut(r: Registry)
    requires 0 <= r.nLc && 0 <= r.nBe && 0 <= r.lcSum <= r.rate < TWO64
    ensures SharedOut(Share(r))
  {
    hide Readjust, Part;
    if r.nBe > 0 {
      PartExactly(r.rate, r.lcSum, r.nBe);
    } else if r.nLc > 0 {
      PartExactly(r.rate, r.lcSum, r.nLc);
    }
  }

  lemma {:induction false} ShareFields(r: Registry)
    ensures var r' := Share(r);
      r'.rate == r.rate && r'.lcSum == r.lcSum && r'.nLc == r.nLc && r'.nBe == r.nBe
  {
  }

  lemma {:induction false} RegisterShares(r: Registry, d: Device, q: Request)
    requires ValidDevice(d) && q.i < |r.slots| && Balanced(r) && SharedOut(r)
    ensures SharedOut(Register(r, d, q.i, q.latency, q.rwRatio, q.scaled).0)
  {
    hide Share, Lookup;
    var r1 := Fill(r, q.i, q.latency, q.rwRatio, q.scaled);
    var s := r1.slots[q.i];
    AddBalanced(r1, d, q.i);
    if Lc(s) ==> r1.lcSum + s.scaled <= NewRate(r1, d, s) {
      var b := Booked(r1.(readonly := NewFlag(r1, s)), q.i, NewRate(r1, d, s));
      ShareFields(b);
      ShareSharesOut(b);
    }
  }

  lemma {:induction false} UnregisterShares(r: Registry, d: Device, i: nat)
    requires ValidDevice(d) && i < |r.slots| && Balanced(Unregister(r, d, i))
    ensures SharedOut(Unregister(r, d, i))
  {
    hide Share, Lookup, Strictest, ReadOnly;
    var s := Settled(r, d, i);
    ShareFields(s);
    ShareSharesOut(s);
  }

  predicate AlwaysShared(r: Registry, d: Device, es: seq<Event>)
    requires ValidDevice(d) && AllAllowed(r, d, es)
    decreases |es|
  {
    SharedOut(r) && (es != [] ==> AlwaysShared(Apply(r, d, es[0]), d, es[1..]))
  }

  lemma {:induction false} SharedRun(r: Registry, d: Device, es: seq<Event>)
    requires ValidDevice(d) && AllAllowed(r, d, es) && Balanced(r) && Accounted(r) && SharedOut(r) && AllFit(r, d, es)
    ensures AlwaysShared(r, d, es)
    decreases |es|
  {
    hide Balanced, Accounted, SharedOut, StillFits, Register, Unregister;
    if es != [] {
      ApplyBalancedIff(r, d, es[0]);
      match es[0] {
        case Join(q) => RegisterShares(r, d, q);
        case Leave(i) => UnregisterShares(r, d, i);
      }
      SharedRun(Apply(r, d, es[0]), d, es[1..]);
    }
  }

  /** From boot on any device, as long as what remains fits at every departure, after every join and
      leave all that is not reserved is shared out. */
  lemma {:induction false} NothingIdle(n: nat, d: Device, es: seq<Event>)
    requires ValidDevice(d) && AllAllowed(Fresh(n), d, es) && AllFit(Fresh(n), d, es)
    ensures AlwaysBalanced(Fresh(n), d, es) && AlwaysShared(Fresh(n), d, es)
  {
    hide AllAllowed, AllFit, AlwaysBalanced, AlwaysShared;
    FreshBalanced(n);
    BalancedRunIff(Fresh(n), d, es);
    SharedRun(Fresh(n), d, es);
  }

  // ---------------------------------------------------------------- the read-only flag

  /** While the flag is set only LC tenants that never write are present. */
  predicate FlagSound(r: Registry) {
    r.readonly ==> forall k | 0 <= k < |r.slots| :: r.slots[k].accepted ==> Lc(r.slots[k]) && r.slots[k].rwRatio >= 100
  }

  lemma {:induction false} SameFlag(r: Registry, r': Registry)
    requires FlagSound(r) && SameTenants(r.slots, r'.slots) && r'.readonly == r.readonly
    ensures FlagSound(r')
  {
  }

  lemma {:induction false} ShareFlag(r: Registry)
    requires FlagSound(r)
    ensures FlagSound(Share(r)) && SameTenants(r.slots, Share(r).slots) && Share(r).readonly == r.readonly
  {
    hide Readjust, NewBoost, Part, FlagSound;
    ReadjustKeepsTenants(r.slots, NewBoost(r), r.nLc);
    SameFlag(r, Share(r));
  }

  lemma {:induction false} NoBeAccepted(slots: seq<Slot>)
    requires CountBe(slots) == 0
    ensures forall k | 0 <= k < |slots| :: slots[k].accepted ==> Lc(slots[k])
  {
    if slots != [] {
      NoBeAccepted(slots[1..]);
      assert forall k | 1 <= k < |slots| :: slots[k] == slots[1..][k - 1];
    }
  }

  /** Every join and leave keeps the flag sound: it is never set while a tenant that may write is
      present, so no limit is looked up in the wrong column. */
  lemma {:induction false} ApplyFlag(r: Registry, d: Device, e: Event)
    requires ValidDevice(d) && Allowed(r, e) && Accounted(r) && FlagSound(r)
    ensures FlagSound(Apply(r, d, e))
  {
    hide Share, Lookup, Strictest, SumLc, CountLc, CountBe;
    match e
    case Join(q) =>
      var r1 := Fill(r, q.i, q.latency, q.rwRatio, q.scaled);
      var s := r1.slots[q.i];
      var r2 := r1.(readonly := NewFlag(r1, s));
      assert FlagSound(r2);
      if Lc(s) ==> r1.lcSum + s.scaled <= NewRate(r1, d, s) {
        ShareFlag(Booked(r2, q.i, NewRate(r1, d, s)));
      }
    case Leave(i) =>
      LeaveFlag(r, d, i);
  }

  lemma {:induction false} LeaveFlag(r: Registry, d: Device, i: nat)
    requires ValidDevice(d) && i < |r.slots| && r.slots[i].accepted && Accounted(r) && FlagSound(r)
    ensures FlagSound(Unregister(r, d, i))
  {
    hide Lookup, Strictest, SumLc, CountLc, CountBe, Readjust, Part, NewBoost;
    var s := Settled(r, d, i);
    ReadjustKeepsTenants(s.slots, NewBoost(s), s.nLc);
    SumsUpdate(r.slots, i, r.slots[i].(used := false, accepted := false));
    if s.readonly {
      NoBeAccepted(Remaining(r, i));
      forall k | 0 <= k < |r.slots| && k != i && r.slots[k].accepted
        ensures Lc(r.slots[k]) && r.slots[k].rwRatio >= 100
      {
        assert Remaining(r, i)[k] == r.slots[k];
      }
    }
  }

  predicate FlagAlwaysSound(r: Registry, d: Device, es: seq<Event>)
    requires ValidDevice(d) && AllAllowed(r, d, es)
    decreases |es|
  {
    FlagSound(r) && (es != [] ==> FlagAlwaysSound(Apply(r, d, es[0]), d, es[1..]))
  }

  lemma {:induction false} FlagRun(r: Registry, d: Device, es: seq<Event>)
    requires ValidDevice(d) && AllAllowed(r, d, es) && Accounted(r) && FlagSound(r)
    ensures FlagAlwaysSound(r, d, es)
    decreases |es|
  {
    hide Accounted, FlagSound, Register, Unregister;
    if es != [] {
      match es[0] {
        case Join(q) => RegisterAccounted(r, d, q.i, q.latency, q.rwRatio, q.scaled);
        case Leave(i) => UnregisterAccounted(r, d, i);
      }
      ApplyFlag(r, d, es[0]);
      FlagRun(Apply(r, d, es[0]), d, es[1..]);
    }
  }

  // ---------------------------------------------------------------- where removals go wrong

  const SPLIT := Modelled([Point(100, 500, 1000), Point(200, 950, 2000)])

  function Tenant(accepted: bool, latency: nat, rwRatio: nat, scaled: nat): Slot {
    Slot(accepted, accepted, latency, rwRatio, scaled, 0)
  }

  /** One admission, up to the enforced rates. */
  lemma {:induction false} Admits(r: Registry, d: Device, i: nat, latency: nat, rwRatio: nat, scaled: nat,
      before: seq<Slot>)
    requires ValidDevice(d) && i < |r.slots| && Balanced(r) && SameTenants(r.slots, before) && latency > 0
    requires r.lcSum + scaled <= r.rate && r.lcSum + scaled <= Lookup(d, r.readonly && rwRatio >= 100, latency)
    ensures var r' := Register(r, d, i, latency, rwRatio, scaled).0;
      && Balanced(r') && SameTenants(r'.slots, before[i := Tenant(true, latency, rwRatio, scaled)])
      && r'.lcSum == r.lcSum + scaled && r'.readonly == (r.readonly && rwRatio >= 100)
      && (var found := Lookup(d, r'.readonly, latency); r'.rate == if found > r.rate then r.rate else found)
  {
    var r1 := Fill(r, i, latency, rwRatio, scaled);
    AddBalanced(r1, d, i);
    ShareBalanced(Booked(r1.(readonly := NewFlag(r1, r1.slots[i])), i, NewRate(r1, d, r1.slots[i])));
    hide Share, Lookup, Balanced;
  }

  lemma {:induction false} SplitLimits()
    ensures GoodRate(SPLIT) && Sorted(SPLIT.points) && ValidDevice(SPLIT)
    ensures Lookup(SPLIT, true, 100) == 1000 && Lookup(SPLIT, false, 100) == 500
    ensures Lookup(SPLIT, true, 200) == 2000 && Lookup(SPLIT, false, 200) == 950
  {
    hide TokenLimit;
    var m := SPLIT.points;
    TokenLimitAtPoint(m, true, 0);
    TokenLimitAtPoint(m, false, 0);
    TokenLimitAtPoint(m, true, 1);
    TokenLimitAtPoint(m, false, 1);
  }

  /** Limits that rise with latency but depend on the flag: a read-only tenant is admitted at the
      read-only limit; two more come at a laxer latency, the last of which writes and turns the
      flag off; when the second leaves, the rate drops to the mixed limit at the latency of the
      first, below what is reserved. */
  lemma {:induction false} FlagUnbalances()
    ensures ValidDevice(SPLIT) && GoodRate(SPLIT) && Sorted(SPLIT.points)
    ensures
      var r1 := Register(Fresh(3), SPLIT, 0, 100, 100, 900).0;
      var r2 := Register(r1, SPLIT, 1, 200, 100, 0).0;
      var r3 := Register(r2, SPLIT, 2, 200, 50, 10).0;
      Balanced(r3) && NoSquatter(r3) && !Balanced(Unregister(r3, SPLIT, 1))
  {
    SplitLimits();
    var none := Slot(false, false, 0, 0, 0, 0);
    var s0 := [none, none, none];
    assert Fresh(3).slots == s0;
    hide Lookup;
    Admits(Fresh(3), SPLIT, 0, 100, 100, 900, s0);
    var r1 := Register(Fresh(3), SPLIT, 0, 100, 100, 900).0;
    var s1 := [Tenant(true, 100, 100, 900), none, none];
    assert s0[0 := s1[0]] == s1;
    Admits(r1, SPLIT, 1, 200, 100, 0, s1);
    var r2 := Register(r1, SPLIT, 1, 200, 100, 0).0;
    var s2 := [s1[0], Tenant(true, 200, 100, 0), none];
    assert s1[1 := s2[1]] == s2;
    Admits(r2, SPLIT, 2, 200, 50, 10, s2);
    var r3 := Register(r2, SPLIT, 2, 200, 50, 10).0;
    var s3 := [s1[0], s2[1], Tenant(true, 200, 50, 10)];
    assert s2[2 := s3[2]] == s3;
    ThirdLeaves(r3, s3);
  }

  lemma {:induction false} ThirdLeaves(r: Registry, s: seq<Slot>)
    requires s == [Tenant(true, 100, 100, 900), Tenant(true, 200, 100, 0), Tenant(true, 200, 50, 10)]
    requires SameTenants(r.slots, s) && Balanced(r) && r.lcSum == 910
    ensures ValidDevice(SPLIT) && NoSquatter(r) && !Balanced(Unregister(r, SPLIT, 1))
  {
    SplitLimits();
    var u := r.slots;
    hide Share, Lookup, Balanced;
    assert u[0].latency == 100 && u[2].rwRatio == 50;
    assert !ReadOnly(u, 1);
    assert Strictest(u, 1) == 100 by {
      StrictestFacts(u, 1);
      assert u[0].used && Lc(u[0]) && u[1].latency == 200 && u[2].latency == 200;
    }
    var st := Settled(r, SPLIT, 1);
    assert st.rate == 500 && st.lcSum == 910;
    Unfits(st, 1);
  }

  lemma {:induction false} Unfits(r: Registry, i: nat)
    requires i < |r.slots| && r.lcSum > r.rate
    ensures var r' := Share(r); !Balanced(r'.(slots := Remaining(r', i)))
  {
  }
}
