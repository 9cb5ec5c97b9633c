/** Registration of tenants against the device's latency and token-rate model. */
module Admission {

  const UINT_MAX: nat := 0xFFFF_FFFF
  const TWO64: nat := 0x1_0000_0000_0000_0000

  /** One line of the device model: the token rates it sustains at a tail latency. */
  datatype Point = Point(latency: nat, mixed: nat, rdonly: nat)

  function LimitAt(p: Point, readonly: bool): nat {
    if readonly then p.rdonly else p.mixed
  }

  /** The first line whose latency is above the SLO. */
  function Bracket(m: seq<Point>, lat: nat): (i: nat)
    ensures i <= |m|
    ensures forall k | 0 <= k < i :: m[k].latency <= lat
    ensures i < |m| ==> lat < m[i].latency
  {
    if m == [] || lat < m[0].latency then 0 else 1 + Bracket(m[1..], lat)
  }

  /** Linear interpolation in 64-bit unsigned arithmetic, the quotient rounded down. */
  function Interpolate(y0: nat, y1: nat, x0: nat, x1: nat, lat: nat): nat
    requires x0 <= lat < x1
  {
    y0 + (((y1 - y0) % TWO64) * (lat - x0)) % TWO64 / (x1 - x0)
  }

  /** The lines of the table need not be sorted: the two lines around the SLO always differ. */
  function TokenLimit(m: seq<Point>, readonly: bool, lat: nat): nat
    requires m != []
  {
    var i := Bracket(m, lat);
    if i == 0 then LimitAt(m[0], readonly)
    else if i == |m| then LimitAt(m[i - 1], readonly)
    else Interpolate(LimitAt(m[i - 1], readonly), LimitAt(m[i], readonly), m[i - 1].latency, m[i].latency, lat)
  }

  /** The other device kinds have no limit but the width of the type. */
  datatype Device = Unmodelled | Modelled(points: seq<Point>)

  predicate ValidDevice(d: Device) {
    d.Modelled? ==> d.points != []
  }

  function Lookup(d: Device, readonly: bool, lat: nat): nat
    requires ValidDevice(d)
  {
    if d.Unmodelled? then UINT_MAX else TokenLimit(d.points, readonly, lat)
  }

  // ---------------------------------------------------------------- the registry

  /** A flow group: used is its bit in the bitmap, accepted that its registration succeeded;
      limit is the rate its scheduler enforces. */
  datatype Slot = Slot(used: bool, accepted: bool, latency: nat, rwRatio: nat, scaled: nat, limit: nat)

  predicate Lc(s: Slot) {
    s.latency > 0
  }

  datatype Registry = Registry(rate: nat, lcSum: int, nLc: int, nBe: int, beRate: nat, boost: nat,
                               readonly: bool, slots: seq<Slot>)

  function Fresh(n: nat): Registry {
    Registry(UINT_MAX, 0, 0, 0, 0, 0, true, seq(n, _ => Slot(false, false, 0, 0, 0, 0)))
  }

  /** Equal parts of what is not reserved, subtracted in 64 bits. */
  function Part(rate: nat, lcSum: int, n: int): nat
    requires n > 0
  {
    (rate - lcSum) % TWO64 / n
  }

  /** Rewrites the enforced rate of LC slots, stopping after as many as there are LC tenants. */
  function Readjust(slots: seq<Slot>, boost: nat, left: int): (r: seq<Slot>)
    ensures |r| == |slots|
  {
    if slots == [] then []
    else if slots[0].used && Lc(slots[0]) then
      [slots[0].(limit := slots[0].scaled + boost)]
      + if left == 1 then slots[1..] else Readjust(slots[1..], boost, left - 1)
    else [slots[0]] + Readjust(slots[1..], boost, left)
  }

  function NewBoost(r: Registry): nat {
    if r.nBe > 0 then 0 else if r.nLc > 0 then Part(r.rate, r.lcSum, r.nLc) else 0
  }

  /** The common end of adding and removing: new shares, and new limits if the boost changed. */
  function Share(r: Registry): (r': Registry)
    ensures |r'.slots| == |r.slots|
  {
    var r' := r.(beRate := if r.nBe > 0 then Part(r.rate, r.lcSum, r.nBe) % (UINT_MAX + 1) else 0);
    var boost := NewBoost(r);
    if boost != r.boost then r'.(boost := boost, slots := Readjust(r.slots, boost, r.nLc)) else r'
  }

  /** The new tenant in slot i booked at the given rate. */
  function Booked(r: Registry, i: nat, rate: nat): (r': Registry)
    requires i < |r.slots|
    ensures |r'.slots| == |r.slots|
  {
    var s := r.slots[i];
    var r1 := r.(slots := r.slots[i := s.(accepted := true)]);
    if Lc(s) then r1.(rate := rate, lcSum := r.lcSum + s.scaled, nLc := r.nLc + 1) else r1.(nBe := r.nBe + 1)
  }

  function NewFlag(r: Registry, s: Slot): bool {
    r.readonly && Lc(s) && s.rwRatio >= 100
  }

  function NewRate(r: Registry, d: Device, s: Slot): nat
    requires ValidDevice(d)
  {
    var found := Lookup(d, NewFlag(r, s), s.latency);
    if found > r.rate then r.rate else found
  }

  /** recalculate_weights_add for the filled-in slot i, and whether it is admitted.  The flag is
      updated even if it is not. */
  function Add(r: Registry, d: Device, i: nat): (p: (Registry, bool))
    requires ValidDevice(d) && i < |r.slots|
    ensures |p.0.slots| == |r.slots|
  {
    var s := r.slots[i];
    var r1 := r.(readonly := NewFlag(r, s));
    if Lc(s) && r.lcSum + s.scaled > NewRate(r, d, s) then (r1, false)
    else (Share(Booked(r1, i, NewRate(r, d, s))), true)
  }

  /** A new flow group takes slot i; its enforced rate is what the slot held before. */
  function Fill(r: Registry, i: nat, latency: nat, rwRatio: nat, scaled: nat): Registry
    requires i < |r.slots|
  {
    r.(slots := r.slots[i := Slot(true, false, latency, rwRatio, scaled, r.slots[i].limit)])
  }

  /** A refused flow group keeps its slot. */
  function Register(r: Registry, d: Device, i: nat, latency: nat, rwRatio: nat, scaled: nat): (p: (Registry, bool))
    requires ValidDevice(d) && i < |r.slots|
    ensures |p.0.slots| == |r.slots|
  {
    Add(Fill(r, i, latency, rwRatio, scaled), d, i)
  }

  /** The strictest latency among the LC slots other than the one that leaves. */
  function Strictest(slots: seq<Slot>, skip: int): nat {
    if slots == [] then UINT_MAX
    else
      var rest := Strictest(slots[1..], skip - 1);
      if slots[0].used && skip != 0 && Lc(slots[0]) && slots[0].latency < rest then slots[0].latency else rest
  }

  predicate ReadOnly(slots: seq<Slot>, skip: int) {
    forall k | 0 <= k < |slots| :: slots[k].used && k != skip && Lc(slots[k]) ==> slots[k].rwRatio >= 100
  }

  /** The accounts without the tenant in slot i. */
  function Settled(r: Registry, d: Device, i: nat): (r': Registry)
    requires ValidDevice(d) && i < |r.slots|
    ensures r'.slots == r.slots
  {
    var s := r.slots[i];
    if Lc(s) then
      r.(lcSum := r.lcSum - s.scaled, nLc := r.nLc - 1,
         rate := Lookup(d, ReadOnly(r.slots, i), Strictest(r.slots, i)),
         readonly := ReadOnly(r.slots, i) && r.nBe <= 0)
    else r.(nBe := r.nBe - 1, readonly := r.readonly && r.nBe - 1 <= 0)
  }

  function Remaining(r: Registry, i: nat): seq<Slot>
    requires i < |r.slots|
  {
    r.slots[i := r.slots[i].(used := false, accepted := false)]
  }

  /** recalculate_weights_remove, and then the slot is freed. */
  function Unregister(r: Registry, d: Device, i: nat): Registry
    requires ValidDevice(d) && i < |r.slots|
  {
    var r' := Share(Settled(r, d, i));
    r'.(slots := Remaining(r', i))
  }
}
