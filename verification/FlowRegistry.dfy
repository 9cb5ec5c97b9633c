/** The global registration state and the loops that update it. */
module FlowRegistry {
  import opened Admission

  /** The search loop over the device model. */
  method FindTokenLimit(m: seq<Point>, readonly: bool, lat: nat) returns (y: nat)
    requires m != []
    ensures y == TokenLimit(m, readonly, lat)
  {
    var i := 0;
    while i < |m|
      invariant i <= |m| && Bracket(m, lat) == i + Bracket(m[i..], lat)
    {
      if lat < m[i].latency {
        break;
      }
      assert m[i..][1..] == m[i + 1..];
      i := i + 1;
    }
    assert i == Bracket(m, lat);
    if i == 0 {
      return LimitAt(m[0], readonly);
    }
    if i == |m| {
      return LimitAt(m[i - 1], readonly);
    }
    var y0, y1 := LimitAt(m[i - 1], readonly), LimitAt(m[i], readonly);
    return Interpolate(y0, y1, m[i - 1].latency, m[i].latency, lat);
  }

  method LookupRate(d: Device, readonly: bool, lat: nat) returns (y: nat)
    requires ValidDevice(d)
    ensures y == Lookup(d, readonly, lat)
  {
    match d
    case Unmodelled => y := UINT_MAX;
    case Modelled(m) => y := FindTokenLimit(m, readonly, lat);
  }

  /** The loop over all slots, with its early exit. */
  method Readjusted(slots: seq<Slot>, boost: nat, nLc: int) returns (r: seq<Slot>)
    ensures r == Readjust(slots, boost, nLc)
  {
    hide Whole, Readjust;
    r := slots;
    var i, j := 0, 0;
    WholeStart(r, boost, nLc);
    while i < |r|
      invariant i <= |r| && Whole(r, i, boost, nLc - j) == Readjust(slots, boost, nLc)
    {
      ReadjustStep(r, i, boost, nLc - j);
      var s := r[i];
      if s.used && Lc(s) {
        r := r[i := s.(limit := s.scaled + boost)];
        j := j + 1;
        if j == nLc {
          return;
        }
      }
      i := i + 1;
    }
    WholeDone(r, boost, nLc - j);
  }

  class FlowGroups {
    const device: Device
    var rate: nat
    var lcSum: int
    var nLc: int
    var nBe: int
    var beRate: nat
    var boost: nat
    var readonly: bool
    var slots: seq<Slot>

    ghost function Abs(): Registry
      reads this
    {
      Registry(rate, lcSum, nLc, nBe, beRate, boost, readonly, slots)
    }

    constructor (d: Device, n: nat)
      requires ValidDevice(d)
      ensures device == d && Abs() == Fresh(n)
    {
      device := d;
      rate, lcSum, nLc, nBe, beRate, boost, readonly := UINT_MAX, 0, 0, 0, 0, 0, true;
      slots := seq(n, _ => Slot(false, false, 0, 0, 0, 0));
    }

    /** The common end of the two operations below. */
    method ShareOut()
      modifies `beRate, `boost, `slots
      ensures Abs() == old(Share(Abs()))
    {
      var b := 0;
      if nBe > 0 {
        beRate := Part(rate, lcSum, nBe) % (UINT_MAX + 1);
      } else {
        beRate := 0;
        if nLc > 0 {
          b := Part(rate, lcSum, nLc);
        }
      }
      if b != boost {
        boost := b;
        slots := Readjusted(slots, boost, nLc);
      }
    }

    /** recalculate_weights_add. */
    method AddWeights(i: nat) returns (ok: bool)
      requires ValidDevice(device) && i < |slots|
      modifies this
      ensures (Abs(), ok) == Add(old(Abs()), device, i)
    {
      if Lc(slots[i]) {
        var newSum := lcSum + slots[i].scaled;
        if slots[i].rwRatio < 100 {
          readonly := false;
        }
        var newRate := LookupRate(device, readonly, slots[i].latency);
        if newRate > rate {
          newRate := rate;
        }
        if newSum > newRate {
          return false;
        }
        rate, lcSum, nLc := newRate, newSum, nLc + 1;
      } else {
        nBe := nBe + 1;
        readonly := false;
      }
      slots := slots[i := slots[i].(accepted := true)];
      hide Lookup, Share;
      assert Abs() == Booked(old(Abs()).(readonly := NewFlag(old(Abs()), old(slots[i]))), i,
        NewRate(old(Abs()), device, old(slots[i])));
      ShareOut();
      ok := true;
    }

    method Register(i: nat, latency: nat, rwRatio: nat, scaled: nat) returns (ok: bool)
      requires ValidDevice(device) && i < |slots|
      modifies this
      ensures (Abs(), ok) == Admission.Register(old(Abs()), device, i, latency, rwRatio, scaled)
    {
      slots := slots[i := Slot(true, false, latency, rwRatio, scaled, slots[i].limit)];
      ok := AddWeights(i);
    }

    /** The scan for the strictest latency and for tenants that write. */
    method ScanOthers(i: nat) returns (strictest: nat, ro: bool)
      requires i < |slots|
      ensures strictest == Strictest(slots, i) && ro == ReadOnly(slots, i)
    {
      strictest, ro := UINT_MAX, true;
      var k := 0;
      Bounded(slots, i);
      assert slots[0..] == slots;
      while k < |slots|
        invariant k <= |slots| && strictest <= UINT_MAX
        invariant Lower(strictest, Strictest(slots[k..], i - k)) == Strictest(slots, i)
        invariant ro && ReadOnly(slots[k..], i - k) <==> ReadOnly(slots, i)
      {
        var s := slots[k];
        assert slots[k..] == [s] + slots[k + 1..];
        ReadOnlyStep(s, slots[k + 1..], i - k);
        hide ReadOnly;
        if s.used && k != i && Lc(s) {
          if s.latency < strictest {
            strictest := s.latency;
          }
          if s.rwRatio < 100 {
            ro := false;
          }
        }
        k := k + 1;
      }
    }

    /** recalculate_weights_remove, and then the slot's bit is cleared. */
    method Unregister(i: nat)
      requires ValidDevice(device) && i < |slots|
      modifies this
      ensures Abs() == Admission.Unregister(old(Abs()), device, i)
    {
      if Lc(slots[i]) {
        var strictest, ro := ScanOthers(i);
        readonly := ro;
        lcSum := lcSum - slots[i].scaled;
        rate := LookupRate(device, readonly, strictest);
        nLc := nLc - 1;
      } else {
        nBe := nBe - 1;
      }
      if nBe > 0 {
        readonly := false;
      }
      hide Lookup, Share, Strictest, ReadOnly;
      assert Abs() == Settled(old(Abs()), device, i);
      ShareOut();
      slots := slots[i := slots[i].(used := false, accepted := false)];
    }
  }

  function Lower(a: nat, b: nat): nat {
    if a < b then a else b
  }

  lemma {:induction false} Bounded(slots: seq<Slot>, skip: int)
    ensures Strictest(slots, skip) <= UINT_MAX
  {
    if slots != [] {
      Bounded(slots[1..], skip - 1);
    }
  }

  /** The slots when those before i are done. */
  function Whole(slots: seq<Slot>, i: nat, boost: nat, left: int): seq<Slot>
    requires i <= |slots|
  {
    slots[..i] + Readjust(slots[i..], boost, left)
  }

  lemma {:induction false} WholeStart(slots: seq<Slot>, boost: nat, left: int)
    ensures Whole(slots, 0, boost, left) == Readjust(slots, boost, left)
  {
  }

  lemma {:induction false} WholeDone(slots: seq<Slot>, boost: nat, left: int)
    ensures Whole(slots, |slots|, boost, left) == slots
  {
  }

  lemma {:induction false} ReadjustStep(slots: seq<Slot>, i: nat, boost: nat, left: int)
    requires i < |slots|
    ensures var s := slots[i];
      Whole(slots, i, boost, left) ==
        if s.used && Lc(s) then
          var slots' := slots[i := s.(limit := s.scaled + boost)];
          if left == 1 then slots' else Whole(slots', i + 1, boost, left - 1)
        else Whole(slots, i + 1, boost, left)
  {
  }

  lemma {:induction false} ReadOnlyStep(s: Slot, rest: seq<Slot>, skip: int)
    ensures ReadOnly([s] + rest, skip) <==>
      (s.used && skip != 0 && Lc(s) ==> s.rwRatio >= 100) && ReadOnly(rest, skip - 1)
  {
    var all := [s] + rest;
    assert forall k | 0 <= k < |rest| :: rest[k] == all[k + 1];
    if ReadOnly(all, skip) {
      assert all[0] == s;
    }
  }
}
