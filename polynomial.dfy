/** Dense polynomials over a generic base ring: the element representation,
    the operations of the base ring and of the gr_poly layer the composite
    delegates to, and the operations whose own logic lives in the composite:
    the degree-limit guard of multiplication, exact division with its
    status mapping, the recursive generators and the zero case of writing. */
module Polynomial {
  import opened Status
  import opened Memory
  import opened Context

  /** A gr_poly_struct: the `length` stored coefficients, lowest degree first.
      The allocated capacity beyond `length` is not modelled. */
  class GrPoly<C> {
    var coeffs: seq<C>

    /** gr_poly_init: the empty polynomial, no coefficients. */
    constructor ()
      ensures coeffs == []
    {
      coeffs := [];
    }
  }

  /** A gr_vec whose entries are polynomials of the composite ring. */
  class GrVec<C> {
    var entries: seq<seq<C>>

    /** gr_vec_init with length 0. */
    constructor ()
      ensures entries == []
    {
      entries := [];
    }
  }

  /** The base ring's operations the composite calls through the base
      context's method table; their definitions belong to the base ring. */
  datatype BaseRing<!C> = BaseRing(
    zero: C,                                // the element gr_init / gr_heap_init produces
    copy: C -> Out<C>,                      // gr_set
    setIntervalMidRad: (C, C) -> Out<C>,    // gr_set_interval_mid_rad
    gensRecursive: Out<seq<C>>              // gr_gens_recursive
  )

  /** The quotient and remainder gr_poly_divrem writes, with its status. */
  datatype DivRem<C> = DivRem(status: Status, quotient: seq<C>, remainder: seq<C>)

  /** The gr_poly_* routines over the base ring the composite forwards to. */
  datatype PolyOps<!C> = PolyOps(
    copy: seq<C> -> Out<seq<C>>,                // gr_poly_set
    setScalar: C -> Out<seq<C>>,                // gr_poly_set_scalar
    normalise: seq<C> -> seq<C>,                // _gr_poly_normalise
    mul: (seq<C>, seq<C>) -> Out<seq<C>>,       // gr_poly_mul
    mulScalar: (seq<C>, C) -> Out<seq<C>>,      // gr_poly_mul_scalar
    scalarMul: (C, seq<C>) -> Out<seq<C>>,      // gr_poly_scalar_mul
    divScalar: (seq<C>, C) -> Out<seq<C>>,      // gr_poly_div_scalar
    divrem: (seq<C>, seq<C>) -> DivRem<C>,      // gr_poly_divrem
    isZero: seq<C> -> Truth,                    // gr_poly_is_zero
    gen: Out<seq<C>>,                           // gr_poly_gen
    write: (seq<C>, string) -> Out<string>      // gr_poly_write, as the text it emits
  )

  /** A temporary polynomial, initialised inside an operation. */
  method InitTemporary<C>(heap: Heap) returns (t: GrPoly<C>)
    modifies heap
    ensures fresh(t) && t.coeffs == []
    ensures heap.live == old(heap.live) + 1 && heap.allocs == old(heap.allocs) + 1
  {
    t := new GrPoly();
    heap.Acquire();
  }

  /** gr_poly_clear of a temporary. */
  method ClearTemporary<C>(t: GrPoly<C>, heap: Heap)
    modifies t, heap
    ensures t.coeffs == []
    ensures heap.live == old(heap.live) - 1 && heap.allocs == old(heap.allocs)
  {
    t.coeffs := [];
    heap.Release();
  }

  /** gr_poly_swap: exchange two polynomials' representations. */
  method Swap<C>(a: GrPoly<C>, b: GrPoly<C>)
    modifies a, b
    ensures a.coeffs == old(b.coeffs) && b.coeffs == old(a.coeffs)
  {
    a.coeffs, b.coeffs := b.coeffs, a.coeffs;
  }

  /** The stored coefficients after gr_poly_fit_length and
      _gr_poly_set_length to `n`: a longer polynomial is cut, a shorter one is
      extended by the zeros that fresh storage is initialised to. */
  function Resized<C>(s: seq<C>, n: nat, zero: C): (r: seq<C>)
    ensures |r| == n
    ensures forall i :: 0 <= i < n && i < |s| ==> r[i] == s[i]
    ensures forall i :: |s| <= i < n ==> r[i] == zero
  {
    if n <= |s| then s[..n] else s + seq(n - |s|, _ => zero)
  }

  // ---------------------------------------------------------------------
  // polynomial_write

  /** polynomial_write, with the stream replaced by the text written: the
      zero-length polynomial is "0" whatever the generator is called, any
      other polynomial is written by gr_poly_write with the context's
      generator name. */
  function Write<C>(p: seq<C>, ctx: GrCtx, ops: PolyOps<C>): (o: Out<string>)
    reads ctx
    ensures |p| == 0 ==> o == Out(SUCCESS, "0")
    ensures |p| != 0 ==> o == ops.write(p, Text(ctx.name))
  {
    if |p| == 0 then Out(SUCCESS, "0") else ops.write(p, Text(ctx.name))
  }

  // ---------------------------------------------------------------------
  // polynomial_mul

  /** The guard of polynomial_mul: a configured limit, two nonzero operands,
      and a combined length above the limit. */
  predicate DegreeLimitExceeded(degreeLimit: int, len1: nat, len2: nat)
  {
    degreeLimit != WORD_MAX && len1 != 0 && len2 != 0 && len1 + len2 > degreeLimit
  }

  /** polynomial_mul: `res` is the output polynomial before the call. */
  function Mul<C>(degreeLimit: int, res: seq<C>, p1: seq<C>, p2: seq<C>, ops: PolyOps<C>): (o: Out<seq<C>>)
    ensures DegreeLimitExceeded(degreeLimit, |p1|, |p2|) ==> o == Out(UNABLE, res)
    ensures !DegreeLimitExceeded(degreeLimit, |p1|, |p2|) ==> o == ops.mul(p1, p2)
  {
    if DegreeLimitExceeded(degreeLimit, |p1|, |p2|) then
      Out(UNABLE, res)
    else
      ops.mul(p1, p2)
  }

  /** Over the limit, the outcome does not depend on the multiplier at all:
      no multiplication is attempted and the output is left as it was. */
  lemma MulGuardSkipsMultiplier<C>(degreeLimit: int, res: seq<C>, p1: seq<C>, p2: seq<C>, ops1: PolyOps<C>, ops2: PolyOps<C>)
    requires degreeLimit != WORD_MAX && |p1| > 0 && |p2| > 0 && |p1| + |p2| > degreeLimit
    ensures Mul(degreeLimit, res, p1, p2, ops1) == Mul(degreeLimit, res, p1, p2, ops2) == Out(UNABLE, res)
  {
  }

  /** A context as gr_ctx_init_gr_poly leaves it never refuses a product. */
  lemma MulWithoutLimitForwards<C>(res: seq<C>, p1: seq<C>, p2: seq<C>, ops: PolyOps<C>)
    ensures Mul(WORD_MAX, res, p1, p2, ops) == ops.mul(p1, p2)
  {
  }

  // ---------------------------------------------------------------------
  // polynomial_div

  /** The status of the divrem path: a failing divrem is passed through;
      otherwise the remainder's zero test decides. */
  function DivStatus(divremStatus: Status, remainderIsZero: Truth): (s: Status)
    ensures divremStatus != SUCCESS ==> s == divremStatus
    ensures divremStatus == SUCCESS ==>
      && (s == SUCCESS <==> remainderIsZero == True)
      && (s == DOMAIN <==> remainderIsZero == False)
      && (s == UNABLE <==> remainderIsZero == Unknown)
  {
    if divremStatus != SUCCESS then divremStatus
    else match remainderIsZero
      case True => SUCCESS
      case False => DOMAIN
      case Unknown => UNABLE
  }

  /** polynomial_div: status and output for dividend `x` and divisor `y`;
      `aliased` says whether the output polynomial is the divisor itself. */
  function DivSpec<C>(ring: BaseRing<C>, ops: PolyOps<C>, x: seq<C>, y: seq<C>, aliased: bool): (o: Out<seq<C>>)
    ensures |y| == 1 && !aliased ==> o == ops.divScalar(x, y[0])
    ensures |y| == 1 && aliased ==> o.value == ops.divScalar(x, ring.copy(y[0]).value).value
    ensures |y| == 1 && aliased ==> (o.status == SUCCESS <==>
      ring.copy(y[0]).status == SUCCESS && ops.divScalar(x, ring.copy(y[0]).value).status == SUCCESS)
    ensures |y| != 1 ==> o.value == ops.divrem(x, y).quotient
    ensures |y| != 1 ==> (o.status == SUCCESS <==>
      ops.divrem(x, y).status == SUCCESS && ops.isZero(ops.divrem(x, y).remainder) == True)
  {
    if |y| == 1 then
      if aliased then
        var t := ring.copy(y[0]);
        var q := ops.divScalar(x, t.value);
        Out(t.status | q.status, q.value)
      else
        ops.divScalar(x, y[0])
    else
      var d := ops.divrem(x, y);
      Out(DivStatus(d.status, ops.isZero(d.remainder)), d.quotient)
  }

  /** Copying the scalar divisor out first is invisible when the copy is exact
      and succeeds: the aliased call then behaves as the plain one. */
  lemma DivAliasCopyTransparent<C>(ring: BaseRing<C>, ops: PolyOps<C>, x: seq<C>, y: seq<C>)
    requires |y| == 1 && ring.copy(y[0]) == Out(SUCCESS, y[0])
    ensures DivSpec(ring, ops, x, y, true) == DivSpec(ring, ops, x, y, false)
  {
  }

  /** polynomial_div on polynomial objects. When the output is the divisor,
      its only coefficient is copied into a temporary before the output is
      overwritten; the remainder of the divrem path is always cleared. */
  method Div<C>(res: GrPoly<C>, x: GrPoly<C>, y: GrPoly<C>, ring: BaseRing<C>, ops: PolyOps<C>, heap: Heap)
    returns (status: Status)
    modifies res, heap
    ensures Out(status, res.coeffs) == DivSpec(ring, ops, old(x.coeffs), old(y.coeffs), res == y)
    ensures heap.live == old(heap.live)
    ensures heap.allocs == old(heap.allocs) + (if |old(y.coeffs)| == 1 && res != y then 0 else 1)
  {
    if |y.coeffs| == 1 {
      if res == y {
        heap.Acquire();                               // GR_TMP_INIT
        status := SUCCESS;
        var t := ring.copy(y.coeffs[0]);
        status := status | t.status;
        var q := ops.divScalar(x.coeffs, t.value);
        status := status | q.status;
        res.coeffs := q.value;
        heap.Release();                               // GR_TMP_CLEAR
      } else {
        var q := ops.divScalar(x.coeffs, y.coeffs[0]);
        status, res.coeffs := q.status, q.value;
      }
    } else {
      var r: GrPoly<C> := InitTemporary(heap);
      var d := ops.divrem(x.coeffs, y.coeffs);
      res.coeffs, r.coeffs := d.quotient, d.remainder;
      status := d.status;
      if status == SUCCESS {
        var isZero := ops.isZero(r.coeffs);
        if isZero == False {
          status := DOMAIN;
        }
        if isZero == Unknown {
          status := UNABLE;
        }
      }
      ClearTemporary(r, heap);
    }
  }

  // ---------------------------------------------------------------------
  // polynomial_gens_recursive

  /** The statuses or-ed together: the base ring's generator call, each
      promotion to a constant polynomial, and the polynomial generator. */
  function GensStatuses<C>(ring: BaseRing<C>, ops: PolyOps<C>): (s: seq<Status>)
    ensures |s| == |ring.gensRecursive.value| + 2
    ensures s[0] == ring.gensRecursive.status && s[|s| - 1] == ops.gen.status
    ensures forall i :: 0 <= i < |ring.gensRecursive.value| ==> s[i + 1] == ops.setScalar(ring.gensRecursive.value[i]).status
  {
    var g := ring.gensRecursive.value;
    [ring.gensRecursive.status]
      + seq(|g|, i requires 0 <= i < |g| => ops.setScalar(g[i]).status)
      + [ops.gen.status]
  }

  /** polynomial_gens_recursive: the base ring's n generators promoted to
      constants at 0..n-1 and the polynomial generator at n. */
  function GensSpec<C>(ring: BaseRing<C>, ops: PolyOps<C>): (o: Out<seq<seq<C>>>)
    ensures |o.value| == |ring.gensRecursive.value| + 1
    ensures o.value[|ring.gensRecursive.value|] == ops.gen.value
    ensures forall i :: 0 <= i < |ring.gensRecursive.value| ==>
      o.value[i] == ops.setScalar(ring.gensRecursive.value[i]).value
  {
    var g := ring.gensRecursive.value;
    Out(OrAll(GensStatuses(ring, ops)),
        seq(|g|, i requires 0 <= i < |g| => ops.setScalar(g[i]).value) + [ops.gen.value])
  }

  /** The generators are reported complete exactly when the base ring's call,
      every promotion and the polynomial generator all succeeded. */
  lemma GensSuccessIff<C>(ring: BaseRing<C>, ops: PolyOps<C>)
    ensures GensSpec(ring, ops).status == SUCCESS <==>
      && ring.gensRecursive.status == SUCCESS
      && (forall i :: 0 <= i < |ring.gensRecursive.value| ==> ops.setScalar(ring.gensRecursive.value[i]).status == SUCCESS)
      && ops.gen.status == SUCCESS
  {
  }

  /** polynomial_gens_recursive on a vector object: the vector is resized to
      n + 1 entries and filled in a loop; the base generators' vector is a
      temporary cleared before returning. */
  method GensRecursive<C>(vec: GrVec<C>, ring: BaseRing<C>, ops: PolyOps<C>, heap: Heap) returns (status: Status)
    modifies vec, heap
    ensures Out(status, vec.entries) == GensSpec(ring, ops)
    ensures heap.live == old(heap.live) && heap.allocs == old(heap.allocs) + 1
  {
    heap.Acquire();                                   // gr_vec_init(vec1, 0)
    var g := ring.gensRecursive;
    var vec1 := g.value;
    var n := |vec1|;
    ghost var statuses := GensStatuses(ring, ops);
    vec.entries := Resized(vec.entries, n + 1, []);
    status := PromoteGens(vec, vec1, g.status, ops, statuses);
    vec.entries := vec.entries[n := ops.gen.value];
    status := status | ops.gen.status;
    OrAllStep(statuses, n + 1);
    assert statuses[..n + 2] == statuses;
    assert vec.entries == GensSpec(ring, ops).value;
    heap.Release();                                   // gr_vec_clear(vec1)
  }

  /** The loop of polynomial_gens_recursive: entry i becomes the constant
      polynomial of base generator i, or-ing each promotion's status into
      the status of the base ring's call. */
  method PromoteGens<C>(vec: GrVec<C>, vec1: seq<C>, status0: Status, ops: PolyOps<C>, ghost statuses: seq<Status>)
    returns (status: Status)
    requires |vec.entries| == |vec1| + 1 && |statuses| == |vec1| + 2 && statuses[0] == status0
    requires forall i :: 0 <= i < |vec1| ==> statuses[i + 1] == ops.setScalar(vec1[i]).status
    modifies vec
    ensures |vec.entries| == |vec1| + 1
    ensures forall j :: 0 <= j < |vec1| ==> vec.entries[j] == ops.setScalar(vec1[j]).value
    ensures status == OrAll(statuses[..|vec1| + 1])
  {
    status := status0;
    assert statuses[..1] == [status0];
    for i := 0 to |vec1|
      invariant |vec.entries| == |vec1| + 1
      invariant forall j :: 0 <= j < i ==> vec.entries[j] == ops.setScalar(vec1[j]).value
      invariant status == OrAll(statuses[..i + 1])
    {
      var p := ops.setScalar(vec1[i]);
      vec.entries := vec.entries[i := p.value];
      status := status | p.status;
      OrAllStep(statuses, i + 1);
    }
  }
}
