/** Packet buffers linked through their next fields, relinked and renumbered in place. */
module Pbufs {
  import opened Segments
  import opened Wrappers
  import C = PbufChains

  class Pbuf {
    var payload: seq<Byte>
    var totLen: int
    var fin: bool
    var next: Pbuf?

    constructor (data: seq<Byte>)
      ensures payload == data && totLen == |data| && !fin && next == null
    {
      payload, totLen, fin, next := data, |data|, false, null;
    }
  }

  ghost function After(ps: seq<Pbuf>, i: nat, end: Pbuf?): Pbuf? {
    if i + 1 < |ps| then ps[i + 1] else end
  }

  /** ps are the buffers from ps[0] up to end, in order. */
  ghost predicate LinkedTo(ps: seq<Pbuf>, end: Pbuf?)
    reads ps
  {
    && (forall i, j | 0 <= i < j < |ps| :: ps[i] != ps[j])
    && forall i | 0 <= i < |ps| :: ps[i].next == After(ps, i, end)
  }

  /** ps are the buffers of a chain. */
  ghost predicate Linked(ps: seq<Pbuf>)
    reads ps
  {
    LinkedTo(ps, null)
  }

  /** A chain and the values it holds. */
  ghost predicate Chain(ps: seq<Pbuf>, vs: seq<C.Pb>)
    reads ps
  {
    Linked(ps) && Holds(ps, vs)
  }

  ghost predicate Apart(ps: seq<Pbuf>, qs: seq<Pbuf>) {
    forall p | p in ps :: p !in qs
  }

  lemma {:induction false} Parts(ps: seq<Pbuf>, k: nat)
    requires Linked(ps) && 0 < k < |ps|
    ensures LinkedTo(ps[..k], ps[k]) && Linked(ps[k..]) && Apart(ps[..k], ps[k..])
  {
  }

  ghost predicate Same(p: Pbuf, v: C.Pb)
    reads p
  {
    p.payload == v.data && p.totLen == v.tot && p.fin == v.fin
  }

  /** The buffers ps hold the values vs. */
  ghost predicate Holds(ps: seq<Pbuf>, vs: seq<C.Pb>)
    reads ps
  {
    |vs| == |ps| && forall i | 0 <= i < |ps| :: Same(ps[i], vs[i])
  }

  lemma {:induction false} MoreStep(vs: seq<C.Pb>, j: nat, front: nat)
    requires j <= |vs|
    ensures j < |vs| && C.Low(front + |vs[j].data|) > front ==>
      C.More(vs[j..], front) == 1 + C.More(vs[j + 1..], C.Low(front + |vs[j].data|))
    ensures !(j < |vs| && C.Low(front + |vs[j].data|) > front) ==> C.More(vs[j..], front) == 0
  {
  }

  /** Walks the chain while the 16-bit sum grows; k buffers stay in front. */
  method FindFront(p: Pbuf, ghost ps: seq<Pbuf>, ghost vs: seq<C.Pb>) returns (last: Pbuf, r: Pbuf?, ghost k: nat)
    requires ps != [] && ps[0] == p && Linked(ps) && Holds(ps, vs)
    ensures k == C.Front(vs) && last == ps[k - 1] && r == if k < |ps| then ps[k] else null
  {
    hide C.More, C.Low;
    assert Same(p, vs[0]);
    var front: nat := |p.payload|;
    last, r := p, p.next;
    k := 1;
    while r != null && C.Low(front + |r.payload|) > front
      invariant 1 <= k <= |ps| && last == ps[k - 1] && r == if k < |ps| then ps[k] else null
      invariant C.Front(vs) == k + C.More(vs[k..], front)
      decreases |ps| - k
    {
      assert Same(r, vs[k]);
      MoreStep(vs, k, front);
      front := C.Low(front + |r.payload|);
      last, r := r, r.next;
      k := k + 1;
    }
    MoreStep(vs, k, front);
    if r != null {
      assert Same(r, vs[k]);
    }
  }

  lemma {:induction false} NextOf(ps: seq<Pbuf>, vs: seq<C.Pb>, k: nat)
    requires Chain(ps, vs) && k < |ps|
    ensures |vs| == |ps| && ps[k].next == After(ps, k, null) && ps[k].totLen == vs[k].tot
  {
  }

  method AddToTotal(p: Pbuf, n: int, ghost k: nat, ghost ps: seq<Pbuf>, ghost vs: seq<C.Pb>, ghost qs: seq<Pbuf>,
      ghost ws: seq<C.Pb>)
    requires k < |ps| == |vs| && ps[k] == p && Chain(ps, vs) && Chain(qs, ws) && Apart(ps, qs)
    modifies p`totLen
    ensures Chain(ps, vs[k := vs[k].(tot := C.Low(vs[k].tot + n))]) && Chain(qs, ws)
  {
    hide C.Low;
    assert p in ps && forall i | 0 <= i < |qs| :: qs[i] != p;
    assert Same(p, vs[k]);
    p.totLen := C.Low(p.totLen + n);
  }

  /** Adds n to every total length of the chain and finds its last buffer.  Another chain, qs,
      stays as it is. */
  method AddToTotals(h: Pbuf, n: int, ghost ps: seq<Pbuf>, ghost vs: seq<C.Pb>, ghost qs: seq<Pbuf>,
      ghost ws: seq<C.Pb>) returns (p: Pbuf)
    requires ps != [] && ps[0] == h && Chain(ps, vs) && Chain(qs, ws) && Apart(ps, qs)
    modifies ps`totLen
    ensures Chain(ps, C.AddTot(vs, n)) && p == ps[|ps| - 1] && Chain(qs, ws)
  {
    hide Chain, C.AddTot, C.Low;
    C.AddTotFacts(vs, n);
    ghost var goal, now := C.AddTot(vs, n), vs;
    p := h;
    ghost var k := 0;
    NextOf(ps, now, 0);
    while p.next != null
      invariant k < |ps| == |vs| == |now| && p == ps[k] && p.next == After(ps, k, null)
      invariant Chain(ps, now) && Chain(qs, ws)
      invariant now[..k] == goal[..k] && now[k..] == vs[k..]
      decreases |ps| - k
    {
      AddToTotal(p, n, k, ps, now, qs, ws);
      now := now[k := now[k].(tot := C.Low(now[k].tot + n))];
      NextOf(ps, now, k);
      p := p.next;
      k := k + 1;
      NextOf(ps, now, k);
    }
    AddToTotal(p, n, k, ps, now, qs, ws);
    now := now[k := now[k].(tot := C.Low(now[k].tot + n))];
    assert now == goal;
  }

  /** Changes the end of the chain ps from old end to t. */
  method SetEnd(p: Pbuf, t: Pbuf?, ghost ps: seq<Pbuf>, ghost vs: seq<C.Pb>, ghost end: Pbuf?, ghost qs: seq<Pbuf>,
      ghost ws: seq<C.Pb>)
    requires ps != [] && ps[|ps| - 1] == p && LinkedTo(ps, end) && Holds(ps, vs) && Chain(qs, ws) && Apart(ps, qs)
    modifies p`next
    ensures LinkedTo(ps, t) && Holds(ps, vs) && Chain(qs, ws) && (t == null ==> Chain(ps, vs))
  {
    assert p in ps && forall i | 0 <= i < |qs| :: qs[i] != p;
    p.next := t;
  }

  /** Ends the chain at the last buffer of the front and corrects the total lengths before it. */
  method Detach(p: Pbuf, last: Pbuf, r: Pbuf, ghost f: seq<Pbuf>, ghost fv: seq<C.Pb>, ghost b: seq<Pbuf>,
      ghost bv: seq<C.Pb>)
    requires f != [] && f[0] == p && f[|f| - 1] == last && LinkedTo(f, r) && Holds(f, fv) && Chain(b, bv) && Apart(f, b)
    requires r in b
    modifies f`next, f`totLen
    ensures Chain(f, C.AddTot(fv, -r.totLen)) && Chain(b, bv) && p.fin == old(p.fin)
  {
    hide LinkedTo, Holds, Chain, C.AddTot;
    SetEnd(last, null, f, fv, r, b, bv);
    var _ := AddToTotals(p, -r.totLen, f, fv, b, bv);
  }

  /** A FIN flag on the front is passed on to the rest. */
  method PassFin(p: Pbuf, r: Pbuf, ghost b: seq<Pbuf>, ghost bv: seq<C.Pb>)
    requires b != [] && b[0] == r && Linked(b) && Holds(b, bv)
    modifies r`fin
    ensures Linked(b) && Holds(b, [bv[0].(fin := bv[0].fin || old(p.fin))] + bv[1..])
  {
    assert Same(r, bv[0]);
    if p.fin {
      r.fin := true;
    }
    forall i | 0 <= i < |b| ensures Same(b[i], ([bv[0].(fin := bv[0].fin || old(p.fin))] + bv[1..])[i]) {
      assert Same(b[i], bv[i].(fin := b[i].fin));
    }
  }

  lemma {:induction false} HoldsAt(ps: seq<Pbuf>, vs: seq<C.Pb>, i: nat)
    requires Holds(ps, vs) && i < |ps|
    ensures |vs| == |ps| && Same(ps[i], vs[i]) && ps[i].totLen == vs[i].tot && ps[i].fin == vs[i].fin
  {
  }

  lemma {:induction false} HoldsParts(ps: seq<Pbuf>, vs: seq<C.Pb>, k: nat)
    requires Holds(ps, vs) && k <= |ps|
    ensures Holds(ps[..k], vs[..k]) && Holds(ps[k..], vs[k..])
  {
  }

  /** Cuts the chain at p before its buffer k. */
  method CutBefore(p: Pbuf, last: Pbuf, r: Pbuf, ghost ps: seq<Pbuf>, ghost vs: seq<C.Pb>, ghost k: nat)
    requires 0 < k < |ps| && ps[0] == p && ps[k - 1] == last && ps[k] == r && Linked(ps) && Holds(ps, vs)
    modifies ps
    ensures Linked(ps[..k]) && Linked(ps[k..]) && Holds(ps[..k], C.Cut(vs, k).0) && Holds(ps[k..], C.Cut(vs, k).1)
  {
    hide LinkedTo, Holds, Same, C.AddTot;
    HoldsAt(ps, vs, 0);
    HoldsAt(ps, vs, k);
    ghost var f, b, fv, bv := ps[..k], ps[k..], vs[..k], vs[k..];
    Parts(ps, k);
    HoldsParts(ps, vs, k);
    assert b[0] == r && bv[0] == vs[k] && bv[1..] == vs[k + 1..] && r !in f;
    assert Chain(b, bv);
    Detach(p, last, r, f, fv, b, bv);
    PassFin(p, r, b, bv);
  }

  /** pbuf_split_64k: k buffers stay in the chain at p. */
  method Split64k(p: Pbuf, ghost ps: seq<Pbuf>, ghost vs: seq<C.Pb>) returns (rest: Pbuf?, ghost k: nat)
    requires ps != [] && ps[0] == p && Chain(ps, vs)
    modifies ps
    ensures 0 < k <= |ps| && rest == if k < |ps| then ps[k] else null
    ensures Chain(ps[..k], C.Split(vs).0) && Chain(ps[k..], C.Split(vs).1)
  {
    hide C.Front, C.Cut;
    var last, r;
    last, r, k := FindFront(p, ps, vs);
    rest := r;
    if r == null {
      assert ps[..k] == ps;
    } else {
      CutBefore(p, last, r, ps, vs, k);
    }
  }

  lemma {:induction false} Joined(hs: seq<Pbuf>, ts: seq<Pbuf>, hv: seq<C.Pb>, tv: seq<C.Pb>)
    requires ts != [] && LinkedTo(hs, ts[0]) && Linked(ts) && Apart(hs, ts) && Holds(hs, hv) && Holds(ts, tv)
    ensures Linked(hs + ts) && Holds(hs + ts, hv + tv)
  {
    var ps := hs + ts;
    forall i, j | 0 <= i < j < |ps| ensures ps[i] != ps[j] {
      if i < |hs| <= j {
        assert ps[i] in hs && ps[j] in ts;
      }
    }
    forall i | 0 <= i < |ps| ensures ps[i].next == After(ps, i, null) && Same(ps[i], (hv + tv)[i]) {
      assert i >= |hs| ==> ps[i] == ts[i - |hs|];
    }
  }

  /** pbuf_cat: the chain at t follows the chain at h. */
  method Cat(h: Pbuf, t: Pbuf, ghost hs: seq<Pbuf>, ghost ts: seq<Pbuf>, ghost hv: seq<C.Pb>, ghost tv: seq<C.Pb>)
    requires hs != [] && hs[0] == h && Chain(hs, hv)
    requires ts != [] && ts[0] == t && Chain(ts, tv) && Apart(hs, ts)
    modifies hs
    ensures Chain(hs + ts, C.Cat(hv, tv))
  {
    hide LinkedTo, Holds, Same, C.AddTot;
    HoldsAt(ts, tv, 0);
    var p := AddToTotals(h, t.totLen, hs, hv, ts, tv);
    SetEnd(p, t, hs, C.AddTot(hv, tv[0].tot), null, ts, tv);
    Joined(hs, ts, C.AddTot(hv, tv[0].tot), tv);
  }
}
