/** Which rate each LC tenant is scheduled at: the loop that rewrites the limits, on arrivals and on
    departures. */
module EnforcedRates {
  import opened Admission
  import opened AdmissionProofs

  /** Every LC tenant is scheduled at its reservation plus the boost. */
  predicate Enforced(r: Registry) {
    forall i | 0 <= i < |r.slots| ::
      r.slots[i].used && Lc(r.slots[i]) ==> r.slots[i].limit == r.slots[i].scaled + r.boost
  }

  function UsedLc(slots: seq<Slot>): nat {
    if slots == [] then 0 else (if slots[0].used && Lc(slots[0]) then 1 else 0) + UsedLc(slots[1..])
  }

  /** The loop exactly: it rewrites the first left LC tenants, and all of them if left is zero or
      less, for then the count never meets it. */
  lemma {:induction false} ReadjustExactly(slots: seq<Slot>, boost: nat, left: int, k: nat)
    requires k < |slots|
    ensures Readjust(slots, boost, left)[k] ==
      if slots[k].used && Lc(slots[k]) && (left <= 0 || UsedLc(slots[..k]) < left)
      then slots[k].(limit := slots[k].scaled + boost) else slots[k]
    decreases |slots|
  {
    if k > 0 {
      assert slots[..k][1..] == slots[1..][..k - 1];
      if !(slots[0].used && Lc(slots[0])) {
        ReadjustExactly(slots[1..], boost, left, k - 1);
      } else if left != 1 {
        ReadjustExactly(slots[1..], boost, left - 1, k - 1);
      }
    }
  }

  lemma {:induction false} UsedSplit(slots: seq<Slot>, k: nat)
    requires k < |slots|
    ensures UsedLc(slots) == UsedLc(slots[..k]) + (if slots[k].used && Lc(slots[k]) then 1 else 0)
      + UsedLc(slots[k + 1..])
    decreases k
  {
    if k > 0 {
      UsedSplit(slots[1..], k - 1);
      assert slots[..k][1..] == slots[1..][..k - 1] && slots[k + 1..] == slots[1..][k..];
    }
  }

  /** So when the count covers the LC tenants in the bitmap, the early exit misses nobody. */
  lemma {:induction false} ReadjustReachesAll(slots: seq<Slot>, boost: nat, left: int)
    requires UsedLc(slots) <= left
    ensures forall k | 0 <= k < |slots| ::
      slots[k].used && Lc(slots[k]) ==> Readjust(slots, boost, left)[k].limit == slots[k].scaled + boost
  {
    hide UsedLc, Readjust;
    forall k | 0 <= k < |slots| && slots[k].used && Lc(slots[k])
      ensures Readjust(slots, boost, left)[k].limit == slots[k].scaled + boost
    {
      ReadjustExactly(slots, boost, left, k);
      UsedSplit(slots, k);
    }
  }

  /** When it is one short, as on a departure, the last LC tenant in the bitmap is missed and no
      other. */
  lemma {:induction false} ReadjustMissesLast(slots: seq<Slot>, boost: nat, left: int, k: nat)
    requires k < |slots| && slots[k].used && Lc(slots[k]) && 1 <= left == UsedLc(slots) - 1
    ensures Readjust(slots, boost, left)[k].limit ==
      if UsedLc(slots[k + 1..]) > 0 then slots[k].scaled + boost else slots[k].limit
  {
    hide UsedLc, Readjust;
    ReadjustExactly(slots, boost, left, k);
    UsedSplit(slots, k);
  }

  lemma {:induction false} NobodyUsed(slots: seq<Slot>)
    requires UsedLc(slots) == 0
    ensures forall k | 0 <= k < |slots| :: !(slots[k].used && Lc(slots[k]))
  {
    if slots != [] {
      NobodyUsed(slots[1..]);
      assert forall k | 1 <= k < |slots| :: slots[k] == slots[1..][k - 1];
    }
  }

  lemma {:induction false} UsedIsAccepted(slots: seq<Slot>)
    requires forall i | 0 <= i < |slots| :: slots[i].used <==> slots[i].accepted
    ensures UsedLc(slots) == CountLc(slots)
  {
    if slots != [] {
      UsedIsAccepted(slots[1..]);
    }
  }

  /** Recomputing the shares enforces them on everyone exactly when the boost changes or
      everyone's rate was already right. */
  lemma {:induction false} ShareEnforcesIff(r: Registry)
    requires Accounted(r) && NoSquatter(r)
    ensures Enforced(Share(r)) <==> NewBoost(r) != r.boost || Enforced(r)
  {
    UsedIsAccepted(r.slots);
    ReadjustReachesAll(r.slots, NewBoost(r), r.nLc);
    ReadjustKeepsTenants(r.slots, NewBoost(r), r.nLc);
    hide NewBoost;
  }

  /** Whether an LC tenant sits in a slot after slot i. */
  predicate LcBehind(slots: seq<Slot>, i: int) {
    exists k | i < k < |slots| :: 0 <= k && slots[k].used && Lc(slots[k])
  }

  lemma {:induction false} BehindIff(slots: seq<Slot>, i: nat)
    requires i < |slots|
    ensures LcBehind(slots, i) <==> UsedLc(slots[i + 1..]) > 0
  {
    if UsedLc(slots[i + 1..]) == 0 {
      NobodyUsed(slots[i + 1..]);
      assert forall k | i < k < |slots| :: slots[k] == slots[i + 1..][k - i - 1];
    } else {
      var j := SomebodyUsed(slots[i + 1..]);
      assert slots[i + 1 + j] == slots[i + 1..][j];
    }
  }

  lemma {:induction false} SomebodyUsed(slots: seq<Slot>) returns (k: nat)
    requires UsedLc(slots) > 0
    ensures k < |slots| && slots[k].used && Lc(slots[k]) && !LcBehind(slots, k)
  {
    if UsedLc(slots[1..]) > 0 {
      var j := SomebodyUsed(slots[1..]);
      k := j + 1;
      assert forall m | 1 <= m < |slots| :: slots[m] == slots[1..][m - 1];
    } else {
      k := 0;
      NobodyUsed(slots[1..]);
      assert forall m | 1 <= m < |slots| :: slots[m] == slots[1..][m - 1];
    }
  }

  /** On a departure the leaver is still in the bitmap but no longer in the count, so the loop stops
      one LC tenant short: the rates are enforced afterwards if and only if the boost stays as it
      is, the leaver is a BE tenant, or no LC tenant sits in a slot behind the leaver's. */
  lemma {:induction false} UnregisterEnforcedIff(r: Registry, d: Device, i: nat)
    requires ValidDevice(d) && Accounted(r) && NoSquatter(r) && Enforced(r)
    requires i < |r.slots| && r.slots[i].accepted
    ensures Enforced(Unregister(r, d, i)) <==>
      (Lc(r.slots[i]) && NewBoost(Settled(r, d, i)) != r.boost ==> !LcBehind(r.slots, i))
  {
    hide Readjust, NewBoost, Lookup, Strictest, ReadOnly, UsedLc, CountLc, LcBehind;
    var s := Settled(r, d, i);
    var boost := NewBoost(s);
    UsedIsAccepted(r.slots);
    if boost != r.boost {
      ReadjustKeepsTenants(r.slots, boost, s.nLc);
      var after := Readjust(r.slots, boost, s.nLc);
      LimitsLeft(r.slots, after, i, Unregister(r, d, i));
      if Lc(r.slots[i]) {
        DepartureIff(r, i, boost);
      } else {
        ReadjustReachesAll(r.slots, boost, s.nLc);
      }
    } else {
      LimitsLeft(r.slots, r.slots, i, Unregister(r, d, i));
    }
  }

  lemma {:induction false} LimitsLeft(slots: seq<Slot>, after: seq<Slot>, i: nat, r: Registry)
    requires i < |slots| && SameTenants(slots, after)
    requires r.slots == after[i := after[i].(used := false, accepted := false)]
    ensures Enforced(r) <==>
      forall k | 0 <= k < |slots| && k != i && slots[k].used && Lc(slots[k]) ::
        after[k].limit == slots[k].scaled + r.boost
  {
    if Enforced(r) {
      forall k | 0 <= k < |slots| && k != i && slots[k].used && Lc(slots[k])
        ensures after[k].limit == slots[k].scaled + r.boost
      {
        assert r.slots[k] == after[k];
      }
    }
  }

  lemma {:induction false} DepartureIff(r: Registry, i: nat, boost: nat)
    requires Enforced(r) && i < |r.slots| && r.slots[i].used && Lc(r.slots[i]) && boost != r.boost
    ensures var after := Readjust(r.slots, boost, UsedLc(r.slots) - 1);
      (forall k | 0 <= k < |r.slots| && k != i && r.slots[k].used && Lc(r.slots[k]) ::
         after[k].limit == r.slots[k].scaled + boost) <==> !LcBehind(r.slots, i)
  {
    hide Readjust, UsedLc, LcBehind;
    var slots, left := r.slots, UsedLc(r.slots) - 1;
    var after := Readjust(slots, boost, left);
    UsedSplit(slots, i);
    BehindIff(slots, i);
    forall k | 0 <= k < |slots| && k != i && slots[k].used && Lc(slots[k])
      ensures after[k].limit == slots[k].scaled + boost <==> LcBehind(slots, k)
    {
      OthersBesides(slots, i, k);
      ReadjustMissesLast(slots, boost, left, k);
      BehindIff(slots, k);
    }
    if LcBehind(slots, i) {
      var k := LastBehind(slots, i);
      assert !LcBehind(slots, k);
    } else {
      forall k | 0 <= k < |slots| && k != i && slots[k].used && Lc(slots[k]) ensures LcBehind(slots, k) {
        BehindMeans(slots, i, k);
      }
    }
  }

  lemma {:induction false} OthersBesides(slots: seq<Slot>, i: nat, k: nat)
    requires i < |slots| && k < |slots| && i != k
    requires slots[i].used && Lc(slots[i]) && slots[k].used && Lc(slots[k])
    ensures UsedLc(slots) >= 2
  {
    hide UsedLc;
    var a, b := if i < k then i else k, if i < k then k else i;
    UsedSplit(slots, a);
    BehindIff(slots, a);
    assert LcBehind(slots, a);
  }

  lemma {:induction false} LastBehind(slots: seq<Slot>, i: nat) returns (k: nat)
    requires i < |slots| && LcBehind(slots, i)
    ensures i < k < |slots| && slots[k].used && Lc(slots[k]) && !LcBehind(slots, k)
  {
    BehindIff(slots, i);
    var j := SomebodyUsed(slots[i + 1..]);
    k := i + 1 + j;
    assert forall m | i < m < |slots| :: slots[m] == slots[i + 1..][m - i - 1];
  }

  lemma {:induction false} BehindMeans(slots: seq<Slot>, i: nat, k: nat)
    requires i < |slots| && k < |slots| && i != k && !LcBehind(slots, i)
    requires slots[i].used && Lc(slots[i]) && slots[k].used && Lc(slots[k])
    ensures LcBehind(slots, k)
  {
  }

  /** The boost after an LC tenant has been admitted, from the state before. */
  function BoostAfter(r: Registry, d: Device, latency: nat, rwRatio: nat, scaled: nat): nat
    requires ValidDevice(d) && r.nLc >= 0
  {
    var found := Lookup(d, r.readonly && rwRatio >= 100, latency);
    if r.nBe > 0 then 0 else Part(if found > r.rate then r.rate else found, r.lcSum + scaled, r.nLc + 1)
  }

  /** A newly admitted tenant is scheduled at its reservation plus the boost exactly when its
      arrival changes the boost, or its slot happened to hold that rate already. */
  lemma {:induction false} AdmitEnforcedIff(r: Registry, d: Device, i: nat, latency: nat, rwRatio: nat, scaled: nat)
    requires ValidDevice(d) && Accounted(r) && NoSquatter(r) && Enforced(r) && 0 < latency
    requires i < |r.slots| && !r.slots[i].used && Register(r, d, i, latency, rwRatio, scaled).1
    ensures Enforced(Register(r, d, i, latency, rwRatio, scaled).0) <==>
      BoostAfter(r, d, latency, rwRatio, scaled) != r.boost || r.slots[i].limit == scaled + r.boost
  {
    hide Lookup, Part, Accounted, Readjust, Enforced, NoSquatter;
    CountsNotNegative(r);
    var r1 := Fill(r, i, latency, rwRatio, scaled);
    var s := r1.slots[i];
    var b := Booked(r1.(readonly := NewFlag(r1, s)), i, NewRate(r1, d, s));
    FillAccounted(r, i, latency, rwRatio, scaled);
    FlagAccounted(r1, NewFlag(r1, s));
    FilledSlots(r, i, latency, rwRatio, scaled, d);
    BookedAccounted(r1.(readonly := NewFlag(r1, s)), i, NewRate(r1, d, s));
    ShareEnforcesIff(b);
    BookedEnforcedIff(r, i, s, b);
  }

  lemma {:induction false} CountsNotNegative(r: Registry)
    requires Accounted(r)
    ensures 0 <= r.nLc && 0 <= r.nBe
  {
  }

  lemma {:induction false} FilledSlots(r: Registry, i: nat, latency: nat, rwRatio: nat, scaled: nat, d: Device)
    requires ValidDevice(d) && i < |r.slots| && NoSquatter(r)
    ensures var r1 := Fill(r, i, latency, rwRatio, scaled);
      NoSquatter(Booked(r1.(readonly := NewFlag(r1, r1.slots[i])), i, NewRate(r1, d, r1.slots[i])))
  {
  }

  lemma {:induction false} BookedEnforcedIff(r: Registry, i: nat, s: Slot, b: Registry)
    requires Enforced(r) && i < |r.slots| && s.used && Lc(s) && s.limit == r.slots[i].limit
    requires b.slots == r.slots[i := s.(accepted := true)] && b.boost == r.boost
    ensures Enforced(b) <==> r.slots[i].limit == s.scaled + r.boost
  {
    assert b.slots[i].limit == r.slots[i].limit;
    assert forall k | 0 <= k < |r.slots| && k != i :: b.slots[k] == r.slots[k];
  }

  /** Another LC tenant of 1000 tokens on a device without a model and without BE tenants. */
  lemma {:induction false} JoinsAndEnforced(r: Registry, i: nat)
    requires Accounted(r) && NoSquatter(r) && Enforced(r) && i < |r.slots| && !r.slots[i].used
    requires r.nBe == 0 && r.rate == UINT_MAX && r.lcSum == 1000 * r.nLc && r.nLc < 100
    requires Part(UINT_MAX, r.lcSum + 1000, r.nLc + 1) != r.boost
    ensures var r' := Register(r, Unmodelled, i, 100, 100, 1000).0;
      && Accounted(r') && NoSquatter(r') && Enforced(r') && r'.nBe == 0 && r'.rate == UINT_MAX
      && r'.nLc == r.nLc + 1 && r'.lcSum == 1000 * r'.nLc && r'.boost == Part(UINT_MAX, r'.lcSum, r'.nLc)
      && SameTenants(r.slots[i := Tenant(true, 100, 100, 1000)], r'.slots)
  {
    hide Accounted, Enforced, NoSquatter, Part, Readjust;
    CountsNotNegative(r);
    RegisterAccounted(r, Unmodelled, i, 100, 100, 1000);
    AdmitEnforcedIff(r, Unmodelled, i, 100, 100, 1000);
    var r1 := Fill(r, i, 100, 100, 1000);
    var b := Booked(r1.(readonly := NewFlag(r1, r1.slots[i])), i, NewRate(r1, Unmodelled, r1.slots[i]));
    ReadjustKeepsTenants(b.slots, NewBoost(b), b.nLc);
    FilledSlots(r, i, 100, 100, 1000, Unmodelled);
    SameSquatters(b, Share(b));
  }

  lemma {:induction false} SameSquatters(r: Registry, r': Registry)
    requires NoSquatter(r) && SameTenants(r.slots, r'.slots)
    ensures NoSquatter(r')
  {
  }

  /** Three LC tenants join and the first leaves: the third keeps its old rate, below its reservation
      plus the new boost. */
  lemma {:induction false} DepartureMissesThird()
    ensures
      var d := Unmodelled;
      var r1 := Register(Fresh(3), d, 0, 100, 100, 1000).0;
      var r2 := Register(r1, d, 1, 100, 100, 1000).0;
      var r3 := Register(r2, d, 2, 100, 100, 1000).0;
      var r4 := Unregister(r3, d, 0);
      && NoSquatter(r3) && Enforced(r3) && !Enforced(r4)
      && r4.slots[2].accepted && r4.slots[2].limit < r4.slots[2].scaled + r4.boost
  {
    hide Register, Unregister, Accounted, Enforced, NoSquatter;
    FreshBalanced(3);
    FreshEnforced(3);
    JoinsAndEnforced(Fresh(3), 0);
    var r1 := Register(Fresh(3), Unmodelled, 0, 100, 100, 1000).0;
    JoinsAndEnforced(r1, 1);
    var r2 := Register(r1, Unmodelled, 1, 100, 100, 1000).0;
    JoinsAndEnforced(r2, 2);
    FirstLeaves(Register(r2, Unmodelled, 2, 100, 100, 1000).0);
  }

  lemma {:induction false} FreshEnforced(n: nat)
    ensures NoSquatter(Fresh(n)) && Enforced(Fresh(n))
  {
  }

  lemma {:induction false} TwoUsed(a: Slot, b: Slot)
    requires a.used && b.used && Lc(a) && Lc(b)
    ensures UsedLc([a, b]) == 2
  {
    var two, one := [a, b], [b];
    assert one[1..] == [] && UsedLc(one) == 1;
    assert two[1..] == one;
  }

  lemma {:induction false} FirstLeaves(r: Registry)
    requires Accounted(r) && NoSquatter(r) && Enforced(r) && r.nBe == 0 && r.nLc == 3 && r.lcSum == 3000
    requires r.boost == Part(UINT_MAX, 3000, 3)
    requires SameTenants(seq(3, _ => Tenant(true, 100, 100, 1000)), r.slots)
    ensures var r' := Unregister(r, Unmodelled, 0);
      !Enforced(r') && r'.slots[2].accepted && r'.slots[2].limit < r'.slots[2].scaled + r'.boost
  {
    hide Strictest, ReadOnly;
    assert r.slots[2].limit == 1000 + r.boost && Lc(r.slots[2]);
    var s := Settled(r, Unmodelled, 0);
    assert NewBoost(s) == Part(UINT_MAX, 2000, 2);
    ReadjustExactly(r.slots, NewBoost(s), 2, 2);
    assert r.slots[..2] == [r.slots[0], r.slots[1]];
    assert Lc(r.slots[0]) && Lc(r.slots[1]);
    TwoUsed(r.slots[0], r.slots[1]);
    assert Unregister(r, Unmodelled, 0).slots[2] == r.slots[2];
  }

  /** So while a best-effort tenant is present, an LC tenant that arrives in a slot never used
      before is admitted with its reservation and scheduled at rate zero. */
  lemma {:induction false} LatecomerStarves(r: Registry, d: Device, i: nat, latency: nat, rwRatio: nat, scaled: nat)
    requires ValidDevice(d) && Balanced(r) && r.nBe > 0 && i < |r.slots| && r.slots[i].limit == 0 && latency > 0
    requires Register(r, d, i, latency, rwRatio, scaled).1
    ensures var r' := Register(r, d, i, latency, rwRatio, scaled).0;
      r'.slots[i].accepted && r'.slots[i].scaled == scaled && r'.slots[i].limit == 0
  {
  }

  /** The two registrations that lead there from boot: one best-effort tenant, then one LC tenant. */
  lemma {:induction false} LatecomerFromBoot(latency: nat, scaled: nat)
    requires 0 < latency && 0 < scaled <= UINT_MAX
    ensures var r1 := Register(Fresh(2), Unmodelled, 0, 0, 100, 0).0;
      var (r2, ok) := Register(r1, Unmodelled, 1, latency, 100, scaled);
      ok && r2.slots[1].accepted && r2.slots[1].scaled == scaled && r2.slots[1].limit == 0 && !Enforced(r2)
  {
    var r0 := Fresh(2);
    AddBalanced(Fill(r0, 0, 0, 100, 0), Unmodelled, 0);
    var r1 := Register(r0, Unmodelled, 0, 0, 100, 0).0;
    ShareBalanced(Booked(Fill(r0, 0, 0, 100, 0).(readonly := false), 0, UINT_MAX));
    assert r1.nBe == 1 && r1.lcSum == 0 && r1.rate == UINT_MAX && r1.slots[1].limit == 0;
    AddBalanced(Fill(r1, 1, latency, 100, scaled), Unmodelled, 1);
    LatecomerStarves(r1, Unmodelled, 1, latency, 100, scaled);
    var r2 := Register(r1, Unmodelled, 1, latency, 100, scaled).0;
    assert r2.slots[1].used && Lc(r2.slots[1]);
  }

  // ---------------------------------------------------------------- enforced rates over runs

  /** Nobody is refused. */
  predicate AllAdmitted(r: Registry, d: Device, es: seq<Event>)
    requires ValidDevice(d) && AllAllowed(r, d, es)
    decreases |es|
  {
    es != [] ==> Admitted(r, d, es[0]) && AllAdmitted(Apply(r, d, es[0]), d, es[1..])
  }

  predicate Admitted(r: Registry, d: Device, e: Event)
    requires ValidDevice(d) && Allowed(r, e)
  {
    e.Join? ==> Register(r, d, e.q.i, e.q.latency, e.q.rwRatio, e.q.scaled).1
  }

  /** What the event must meet, on the registry before it, for the rates to be enforced after it. */
  predicate KeepsRates(r: Registry, d: Device, e: Event)
    requires ValidDevice(d) && Allowed(r, e) && r.nLc >= 0
  {
    match e
    case Join(q) =>
      q.latency > 0 ==>
        || BoostAfter(r, d, q.latency, q.rwRatio, q.scaled) != r.boost
        || r.slots[q.i].limit == q.scaled + r.boost
    case Leave(i) =>
      Lc(r.slots[i]) && NewBoost(Settled(r, d, i)) != r.boost ==> !LcBehind(r.slots, i)
  }

  lemma {:induction false} BeJoinEnforced(r: Registry, d: Device, i: nat, rwRatio: nat, scaled: nat)
    requires ValidDevice(d) && Accounted(r) && NoSquatter(r) && Enforced(r) && i < |r.slots| && !r.slots[i].used
    ensures Enforced(Register(r, d, i, 0, rwRatio, scaled).0)
  {
    hide Lookup, Accounted, Readjust, NoSquatter, NewBoost, Share;
    var r1 := Fill(r, i, 0, rwRatio, scaled);
    var s := r1.slots[i];
    var b := Booked(r1.(readonly := NewFlag(r1, s)), i, NewRate(r1, d, s));
    FillAccounted(r, i, 0, rwRatio, scaled);
    FlagAccounted(r1, NewFlag(r1, s));
    FilledSlots(r, i, 0, rwRatio, scaled, d);
    BookedAccounted(r1.(readonly := NewFlag(r1, s)), i, NewRate(r1, d, s));
    ShareEnforcesIff(b);
  }

  lemma {:induction false} JoinSquatters(r: Registry, d: Device, q: Request)
    requires ValidDevice(d) && NoSquatter(r) && q.i < |r.slots|
    requires Register(r, d, q.i, q.latency, q.rwRatio, q.scaled).1
    ensures NoSquatter(Register(r, d, q.i, q.latency, q.rwRatio, q.scaled).0)
  {
    hide Readjust, NewBoost, Lookup, Part, NoSquatter;
    var r1 := Fill(r, q.i, q.latency, q.rwRatio, q.scaled);
    var b := Booked(r1.(readonly := NewFlag(r1, r1.slots[q.i])), q.i, NewRate(r1, d, r1.slots[q.i]));
    FilledSlots(r, q.i, q.latency, q.rwRatio, q.scaled, d);
    ReadjustKeepsTenants(b.slots, NewBoost(b), b.nLc);
    SameSquatters(b, Share(b));
  }

  lemma {:induction false} LeaveSquatters(r: Registry, d: Device, i: nat)
    requires ValidDevice(d) && NoSquatter(r) && i < |r.slots|
    ensures NoSquatter(Unregister(r, d, i))
  {
    hide Readjust, NewBoost, Lookup, Part, Strictest, ReadOnly;
    var s := Settled(r, d, i);
    ReadjustKeepsTenants(s.slots, NewBoost(s), s.nLc);
  }

  lemma {:induction false} ApplyEnforcedIff(r: Registry, d: Device, e: Event)
    requires ValidDevice(d) && Allowed(r, e) && Admitted(r, d, e)
    requires Accounted(r) && NoSquatter(r) && Enforced(r) && r.nLc >= 0
    ensures Accounted(Apply(r, d, e)) && NoSquatter(Apply(r, d, e)) && Apply(r, d, e).nLc >= 0
    ensures Enforced(Apply(r, d, e)) <==> KeepsRates(r, d, e)
  {
    hide Accounted, NoSquatter, Enforced, Register, Unregister, NewBoost, Settled, BoostAfter, LcBehind;
    match e
    case Join(q) =>
      RegisterAccounted(r, d, q.i, q.latency, q.rwRatio, q.scaled);
      JoinSquatters(r, d, q);
      if q.latency > 0 {
        AdmitEnforcedIff(r, d, q.i, q.latency, q.rwRatio, q.scaled);
      } else {
        BeJoinEnforced(r, d, q.i, q.rwRatio, q.scaled);
      }
      CountsNotNegative(Apply(r, d, e));
    case Leave(i) =>
      UnregisterAccounted(r, d, i);
      LeaveSquatters(r, d, i);
      UnregisterEnforcedIff(r, d, i);
      CountsNotNegative(Apply(r, d, e));
  }

  /** While the rates are enforced, the next event meets its condition. */
  predicate AllKeepRates(r: Registry, d: Device, es: seq<Event>)
    requires ValidDevice(d) && AllAllowed(r, d, es)
    decreases |es|
  {
    es != [] ==> r.nLc >= 0 && KeepsRates(r, d, es[0]) && AllKeepRates(Apply(r, d, es[0]), d, es[1..])
  }

  predicate AlwaysEnforced(r: Registry, d: Device, es: seq<Event>)
    requires ValidDevice(d) && AllAllowed(r, d, es)
    decreases |es|
  {
    Enforced(r) && (es != [] ==> AlwaysEnforced(Apply(r, d, es[0]), d, es[1..]))
  }

  /** For any device, over any joins and leaves in which nobody is refused: every LC tenant is
      scheduled at its reservation plus the boost after every event if and only if each LC arrival
      changes the boost (or finds its rate in the slot), and each LC departure leaves the boost as it
      is or no LC tenant in a slot behind. */
  lemma {:induction false} EnforcedRunIff(r: Registry, d: Device, es: seq<Event>)
    requires ValidDevice(d) && AllAllowed(r, d, es) && AllAdmitted(r, d, es)
    requires Accounted(r) && NoSquatter(r) && Enforced(r)
    ensures AlwaysEnforced(r, d, es) <==> AllKeepRates(r, d, es)
    decreases |es|
  {
    hide Accounted, NoSquatter, Enforced, Apply, KeepsRates, Admitted, Allowed;
    if es != [] {
      CountsNotNegative(r);
      ApplyEnforcedIff(r, d, es[0]);
      if KeepsRates(r, d, es[0]) {
        EnforcedRunIff(Apply(r, d, es[0]), d, es[1..]);
      } else {
        NotEnforced(Apply(r, d, es[0]), d, es[1..]);
      }
    }
  }

  lemma {:induction false} NotEnforced(r: Registry, d: Device, es: seq<Event>)
    requires ValidDevice(d) && AllAllowed(r, d, es) && !Enforced(r)
    ensures !AlwaysEnforced(r, d, es)
  {
  }
}
