/** polynomial_set_interval_mid_rad: a polynomial of interval coefficients
    built from a polynomial of midpoints and a polynomial of radii, one base
    ring mid/rad combination per coefficient. */
module Interval {
  import opened Status
  import opened Memory
  import opened Polynomial

  datatype Option<T> = None | Some(value: T)

  /** The length the output is given before normalisation. */
  function MidRadLength(mlen: nat, rlen: nat): (n: nat)
    ensures n >= mlen && n >= rlen && (n == mlen || n == rlen)
  {
    if mlen < rlen then rlen else mlen
  }

  /** The base-ring call made for coefficient `i`, with the value and status
      it produces: both inputs present combine midpoint and radius, a
      midpoint alone is copied with gr_set, and a radius alone is combined
      with the base ring's zero standing in for the missing midpoint. */
  function MidRadCoeff<C>(ring: BaseRing<C>, m: seq<C>, r: seq<C>, i: nat): (o: Out<C>)
    requires i < |m| || i < |r|
    ensures i < |m| && i < |r| ==> o == ring.setIntervalMidRad(m[i], r[i])
    ensures |r| <= i ==> o == ring.copy(m[i])
    ensures |m| <= i ==> o == ring.setIntervalMidRad(ring.zero, r[i])
  {
    if i < |m| && i < |r| then ring.setIntervalMidRad(m[i], r[i])
    else if i < |m| then ring.copy(m[i])
    else ring.setIntervalMidRad(ring.zero, r[i])
  }

  /** The per-coefficient statuses, in the order the loop or-s them in. */
  function MidRadStatuses<C>(ring: BaseRing<C>, m: seq<C>, r: seq<C>): (s: seq<Status>)
    ensures |s| == MidRadLength(|m|, |r|)
    ensures forall i :: 0 <= i < |s| ==> s[i] == MidRadCoeff(ring, m, r, i).status
  {
    seq(MidRadLength(|m|, |r|), i requires 0 <= i < MidRadLength(|m|, |r|) => MidRadCoeff(ring, m, r, i).status)
  }

  /** The coefficients before normalisation: both inputs present gives the
      base mid/rad combination, a midpoint alone is copied as an exact value,
      a radius alone is combined with the base ring's zero as midpoint. */
  function MidRadValues<C>(ring: BaseRing<C>, m: seq<C>, r: seq<C>): (v: seq<C>)
    ensures |v| == MidRadLength(|m|, |r|)
    ensures forall i :: 0 <= i < |v| ==> v[i] == MidRadCoeff(ring, m, r, i).value
    ensures forall i :: 0 <= i < |m| && i < |r| ==> v[i] == ring.setIntervalMidRad(m[i], r[i]).value
    ensures forall i :: |r| <= i < |m| ==> v[i] == ring.copy(m[i]).value
    ensures forall i :: |m| <= i < |r| ==> v[i] == ring.setIntervalMidRad(ring.zero, r[i]).value
  {
    seq(MidRadLength(|m|, |r|), i requires 0 <= i < MidRadLength(|m|, |r|) => MidRadCoeff(ring, m, r, i).value)
  }

  /** Status and output of polynomial_set_interval_mid_rad for midpoints `m`
      and radii `r`: an empty radius is a plain copy of the midpoints;
      otherwise the or of the coefficient statuses and the normalised
      coefficients. With a radius, the call succeeds exactly when every
      coefficient's base-ring call succeeded, and any single coefficient's
      failure shows in the returned status. */
  function MidRadSpec<C>(ring: BaseRing<C>, ops: PolyOps<C>, m: seq<C>, r: seq<C>): (o: Out<seq<C>>)
    ensures |r| == 0 ==> o == ops.copy(m)
    ensures |r| > 0 ==> o.value == ops.normalise(MidRadValues(ring, m, r))
    ensures |r| > 0 ==> (o.status == SUCCESS <==>
      forall i :: 0 <= i < MidRadLength(|m|, |r|) ==> MidRadCoeff(ring, m, r, i).status == SUCCESS)
    ensures |r| > 0 ==>
      forall i :: 0 <= i < MidRadLength(|m|, |r|) ==> o.status | MidRadCoeff(ring, m, r, i).status == o.status
  {
    if |r| == 0 then ops.copy(m)
    else Out(OrAll(MidRadStatuses(ring, m, r)), ops.normalise(MidRadValues(ring, m, r)))
  }

  /** Temporaries one call acquires: the scratch polynomial when the output
      is the radius, and the base-ring zero when the radius is longer than
      the midpoints. */
  function MidRadTemporaries(mlen: nat, rlen: nat, aliased: bool): nat
  {
    if rlen == 0 then 0
    else (if aliased then 1 else 0) + (if rlen > mlen then 1 else 0)
  }

  /** polynomial_set_interval_mid_rad on polynomial objects. When the output
      is the radius polynomial the result is built in a scratch polynomial and
      swapped in; otherwise the coefficients are filled in place. */
  method SetIntervalMidRad<C>(res: GrPoly<C>, m: GrPoly<C>, r: GrPoly<C>, ring: BaseRing<C>, ops: PolyOps<C>, heap: Heap)
    returns (status: Status)
    modifies res, heap
    ensures Out(status, res.coeffs) == MidRadSpec(ring, ops, old(m.coeffs), old(r.coeffs))
    ensures heap.live == old(heap.live)
    ensures heap.allocs == old(heap.allocs) + MidRadTemporaries(|old(m.coeffs)|, |old(r.coeffs)|, res == r)
    ensures heap.allocs <= old(heap.allocs) + 1 + (if res == r then 1 else 0)
    decreases if res == r then 1 else 0
  {
    if |r.coeffs| == 0 {
      var o := ops.copy(m.coeffs);
      status, res.coeffs := o.status, o.value;
    } else if res == r {
      var t: GrPoly<C> := InitTemporary(heap);
      status := SetIntervalMidRad(t, m, r, ring, ops, heap);
      Swap(res, t);
      ClearTemporary(t, heap);
    } else {
      status := FillMidRad(res, m, r, ring, ops, heap);
    }
  }

  /** The loop of polynomial_set_interval_mid_rad, for an output that is not
      the radius polynomial. The output may be the midpoint polynomial: each
      coefficient is read before it is written. The base-ring zero is created
      at most once, on first need, and released before returning. */
  method FillMidRad<C>(res: GrPoly<C>, m: GrPoly<C>, r: GrPoly<C>, ring: BaseRing<C>, ops: PolyOps<C>, heap: Heap)
    returns (status: Status)
    requires res != r && |r.coeffs| > 0
    modifies res, heap
    ensures Out(status, res.coeffs) == MidRadSpec(ring, ops, old(m.coeffs), old(r.coeffs))
    ensures heap.live == old(heap.live)
    ensures heap.allocs == old(heap.allocs) + (if |old(r.coeffs)| > |old(m.coeffs)| then 1 else 0)
  {
    ghost var mid, rad := m.coeffs, r.coeffs;
    var mlen := |m.coeffs|;
    res.coeffs := Resized(res.coeffs, MidRadLength(mlen, |r.coeffs|), ring.zero);
    var zero: Option<C>;
    status, zero := MidRadLoop(res, m, r, mlen, ring, heap, mid, rad);
    if zero.Some? {
      heap.Release();                                 // gr_heap_clear
    }
    res.coeffs := ops.normalise(res.coeffs);
  }

  /** The coefficient loop over an output already sized to the longer input.
      The midpoints are read through `m`, which may be the output itself:
      coefficient `i` is read before it is overwritten. */
  method MidRadLoop<C>(res: GrPoly<C>, m: GrPoly<C>, r: GrPoly<C>, mlen: nat, ring: BaseRing<C>, heap: Heap,
                       ghost mid: seq<C>, ghost rad: seq<C>)
    returns (status: Status, zero: Option<C>)
    requires res != r && r.coeffs == rad && |rad| > 0 && mlen == |mid|
    requires |res.coeffs| == MidRadLength(mlen, |rad|)
    requires mlen <= |m.coeffs| && forall j :: 0 <= j < mlen ==> m.coeffs[j] == mid[j]
    modifies res, heap
    ensures res.coeffs == MidRadValues(ring, mid, rad)
    ensures status == OrAll(MidRadStatuses(ring, mid, rad))
    ensures zero == if mlen < |rad| then Some(ring.zero) else None
    ensures heap.live == old(heap.live) + (if zero.Some? then 1 else 0)
    ensures heap.allocs == old(heap.allocs) + (if zero.Some? then 1 else 0)
  {
    ghost var statuses, values := MidRadStatuses(ring, mid, rad), MidRadValues(ring, mid, rad);
    var len := |res.coeffs|;
    status := SUCCESS;
    zero := None;
    for i := 0 to len
      modifies res, heap
      invariant |res.coeffs| == len
      invariant mlen <= |m.coeffs| && forall j :: i <= j < mlen ==> m.coeffs[j] == mid[j]
      invariant forall j :: 0 <= j < i ==> res.coeffs[j] == values[j]
      invariant status == OrAll(statuses[..i])
      invariant zero.Some? <==> mlen < i
      invariant zero.Some? ==> zero.value == ring.zero
      invariant heap.live == old(heap.live) + (if zero.Some? then 1 else 0)
      invariant heap.allocs == old(heap.allocs) + (if zero.Some? then 1 else 0)
    {
      var out: Out<C>;
      out, zero := MidRadStep(m, r, i, mlen, ring, zero, heap, mid, rad);
      OrAllStep(statuses, i);
      status := status | out.status;
      res.coeffs := res.coeffs[i := out.value];
    }
    assert statuses[..len] == statuses;
    assert res.coeffs == values;
  }

  /** One iteration of the loop of polynomial_set_interval_mid_rad: the
      base-ring call for coefficient `i`, creating the zero on first need. */
  method MidRadStep<C>(m: GrPoly<C>, r: GrPoly<C>, i: nat, mlen: nat, ring: BaseRing<C>, zero: Option<C>, heap: Heap,
                       ghost mid: seq<C>, ghost rad: seq<C>)
    returns (out: Out<C>, zero': Option<C>)
    requires mlen == |mid| && (i < |mid| || i < |rad|)
    requires i < |mid| ==> i < |m.coeffs| && m.coeffs[i] == mid[i]
    requires r.coeffs == rad
    requires zero.Some? ==> zero.value == ring.zero
    modifies heap
    ensures out == MidRadCoeff(ring, mid, rad, i)
    ensures zero' == if i < |mid| then zero else Some(ring.zero)
    ensures heap.live == old(heap.live) + (if zero.None? && zero'.Some? then 1 else 0)
    ensures heap.allocs == old(heap.allocs) + (if zero.None? && zero'.Some? then 1 else 0)
  {
    zero' := zero;
    if i < mlen && i < |r.coeffs| {
      out := ring.setIntervalMidRad(m.coeffs[i], r.coeffs[i]);
    } else if i < mlen {
      out := ring.copy(m.coeffs[i]);
    } else {
      if zero'.None? {
        heap.Acquire();                               // gr_heap_init
        zero' := Some(ring.zero);
      }
      out := ring.setIntervalMidRad(zero'.value, r.coeffs[i]);
    }
  }
}
