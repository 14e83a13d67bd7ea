/** Mixed-context coercion and multiplication: polynomial_set_other,
    polynomial_mul_other and polynomial_other_mul. Which conversion runs is
    decided by the identity and the kind of the source context, in a fixed
    priority order; the conversions themselves belong to other files. */
module Coercion {
  import opened Status
  import opened Memory
  import opened Context
  import opened Polynomial

  /** How an element `x` of a foreign context is read or converted. */
  datatype Foreign<!C, !X> = Foreign(
    asPoly: X -> seq<C>,                // x read as a polynomial over the same base ring
    asScalar: X -> C,                   // x read as an element of the base ring
    fromPolyOther: X -> Out<seq<C>>,    // gr_poly_set_gr_poly_other
    fromFmpzPoly: X -> Out<seq<C>>,     // gr_poly_set_fmpz_poly
    fromFmpqPoly: X -> Out<seq<C>>,     // gr_poly_set_fmpq_poly
    fromVec: X -> Out<seq<C>>,          // gr_poly_set_gr_poly_other on the vector's entries
    toBase: X -> Out<C>                 // gr_set_other into the base ring
  )

  // ---------------------------------------------------------------------
  // polynomial_set_other

  /** The branches of polynomial_set_other. */
  datatype SetOtherRoute = Copy | FromBase | FromPolyOther | FromFmpzPoly | FromFmpqPoly | FromVec | FromScalar

  /** The priority of a branch: lower ranks are tried first. */
  function SetOtherRank(route: SetOtherRoute): nat
  {
    match route
    case Copy => 0
    case FromBase => 1
    case FromPolyOther => 2
    case FromFmpzPoly => 3
    case FromFmpqPoly => 4
    case FromVec => 5
    case FromScalar => 6
  }

  /** When a branch is applicable on its own, regardless of the others: the
      same context, the base ring, a polynomial ring with a generator of the
      same name, an fmpz or fmpq polynomial, a vector, or any scalar. */
  predicate SetOtherApplies(route: SetOtherRoute, xCtx: GrCtx, ctx: GrCtx)
    reads xCtx, ctx
  {
    match route
    case Copy => xCtx == ctx
    case FromBase => xCtx == ctx.baseRing
    case FromPolyOther => xCtx.which == PolyRing && Text(xCtx.name) == Text(ctx.name)
    case FromFmpzPoly => xCtx.which == FmpzPolyRing
    case FromFmpqPoly => xCtx.which == FmpqPolyRing
    case FromVec => xCtx.which == VecRing
    case FromScalar => true
  }

  /** The branch polynomial_set_other takes: the applicable branch of
      highest priority. */
  function SelectSetOther(xCtx: GrCtx, ctx: GrCtx): (route: SetOtherRoute)
    reads xCtx, ctx
    ensures SetOtherApplies(route, xCtx, ctx)
    ensures forall earlier :: SetOtherRank(earlier) < SetOtherRank(route) ==> !SetOtherApplies(earlier, xCtx, ctx)
  {
    if xCtx == ctx then Copy
    else if xCtx == ctx.baseRing then FromBase
    else if xCtx.which == PolyRing && Text(xCtx.name) == Text(ctx.name) then FromPolyOther
    else if xCtx.which == FmpzPolyRing then FromFmpzPoly
    else if xCtx.which == FmpqPolyRing then FromFmpqPoly
    else if xCtx.which == VecRing then FromVec
    else FromScalar
  }

  /** Status and output of polynomial_set_other along a given branch. */
  function SetOtherSpec<C, X>(route: SetOtherRoute, x: X, conv: Foreign<C, X>, ops: PolyOps<C>): (o: Out<seq<C>>)
    ensures route == FromScalar ==> (o.status == SUCCESS <==> conv.toBase(x).status == SUCCESS)
    ensures route == FromScalar && conv.toBase(x).status == SUCCESS ==> o.value == ops.normalise([conv.toBase(x).value])
    ensures route == FromScalar && conv.toBase(x).status != SUCCESS ==> o == Out(conv.toBase(x).status, [])
  {
    match route
    case Copy => ops.copy(conv.asPoly(x))
    case FromBase => ops.setScalar(conv.asScalar(x))
    case FromPolyOther => conv.fromPolyOther(x)
    case FromFmpzPoly => conv.fromFmpzPoly(x)
    case FromFmpqPoly => conv.fromFmpqPoly(x)
    case FromVec => conv.fromVec(x)
    case FromScalar =>
      var c := conv.toBase(x);
      if c.status == SUCCESS then Out(SUCCESS, ops.normalise([c.value])) else Out(c.status, [])
  }

  /** An element of the context itself is copied; one of the base ring
      becomes a constant polynomial, even when the base ring is itself a
      polynomial ring with the same generator name. */
  lemma SetOtherStructuralFirst(xCtx: GrCtx, ctx: GrCtx)
    ensures xCtx == ctx ==> SelectSetOther(xCtx, ctx) == Copy
    ensures xCtx != ctx && xCtx == ctx.baseRing ==> SelectSetOther(xCtx, ctx) == FromBase
    ensures xCtx.which == PolyRing && Text(xCtx.name) == Text(ctx.name) ==>
      SelectSetOther(xCtx, ctx) in {Copy, FromBase, FromPolyOther}
  {
  }

  /** polynomial_set_other on a polynomial object. In the scalar fallback the
      conversion writes the first coefficient; on success the length is set
      to 1 and the result normalised, on failure the length is set to 0 and
      the failing status returned. The if-chain is the C code's own; its
      conditions are SetOtherApplies in rank order, and the postcondition
      ties it to SelectSetOther. */
  method SetOther<C, X>(res: GrPoly<C>, x: X, xCtx: GrCtx, ctx: GrCtx, conv: Foreign<C, X>, ops: PolyOps<C>)
    returns (status: Status)
    modifies res
    ensures Out(status, res.coeffs) == SetOtherSpec(SelectSetOther(xCtx, ctx), x, conv, ops)
  {
    var o: Out<seq<C>>;
    if xCtx == ctx {
      o := ops.copy(conv.asPoly(x));
    } else if xCtx == ctx.baseRing {
      o := ops.setScalar(conv.asScalar(x));
    } else if xCtx.which == PolyRing && Text(xCtx.name) == Text(ctx.name) {
      o := conv.fromPolyOther(x);
    } else if xCtx.which == FmpzPolyRing {
      o := conv.fromFmpzPoly(x);
    } else if xCtx.which == FmpqPolyRing {
      o := conv.fromFmpqPoly(x);
    } else if xCtx.which == VecRing {
      o := conv.fromVec(x);
    } else {
      var c := conv.toBase(x);                        // gr_set_other into res->coeffs
      status := c.status;
      if status == SUCCESS {
        res.coeffs := [c.value];                      // _gr_poly_set_length(res, 1)
        res.coeffs := ops.normalise(res.coeffs);
      } else {
        res.coeffs := [];                             // _gr_poly_set_length(res, 0)
      }
      return;
    }
    status, res.coeffs := o.status, o.value;
  }

  // ---------------------------------------------------------------------
  // polynomial_mul_other and polynomial_other_mul

  /** The branches of polynomial_mul_other and polynomial_other_mul. */
  datatype MulOtherRoute = ByScalar | ByPoly | ByConversion

  function MulOtherRank(route: MulOtherRoute): nat
  {
    match route
    case ByScalar => 0
    case ByPoly => 1
    case ByConversion => 2
  }

  /** A base-ring scalar; a polynomial over the same base ring with a
      generator of the same name; anything else through set_other. */
  predicate MulOtherApplies(route: MulOtherRoute, xCtx: GrCtx, ctx: GrCtx)
    reads xCtx, ctx
  {
    match route
    case ByScalar => xCtx == ctx.baseRing
    case ByPoly => xCtx.which == PolyRing && xCtx.baseRing == ctx.baseRing && Text(xCtx.name) == Text(ctx.name)
    case ByConversion => true
  }

  function SelectMulOther(xCtx: GrCtx, ctx: GrCtx): (route: MulOtherRoute)
    reads xCtx, ctx
    ensures MulOtherApplies(route, xCtx, ctx)
    ensures forall earlier :: MulOtherRank(earlier) < MulOtherRank(route) ==> !MulOtherApplies(earlier, xCtx, ctx)
  {
    if xCtx == ctx.baseRing then ByScalar
    else if xCtx.which == PolyRing && xCtx.baseRing == ctx.baseRing && Text(xCtx.name) == Text(ctx.name) then ByPoly
    else ByConversion
  }

  /** Which operand the foreign element is. */
  datatype Side = PolyTimesX | XTimesPoly

  /** polynomial_mul of the polynomial operand with `q`, in the order of `side`. */
  function Product<C>(side: Side, degreeLimit: int, res: seq<C>, poly: seq<C>, q: seq<C>, ops: PolyOps<C>): Out<seq<C>>
  {
    if side == PolyTimesX then Mul(degreeLimit, res, poly, q, ops) else Mul(degreeLimit, res, q, poly, ops)
  }

  /** Status and output of polynomial_mul_other (PolyTimesX) and
      polynomial_other_mul (XTimesPoly); `res` is the output before the call.
      Along the conversion branch the product is formed only if the
      conversion succeeded; otherwise its status is returned and the output
      is left as it was. */
  function MulOtherSpec<C, X>(route: MulOtherRoute, convRoute: SetOtherRoute, side: Side, degreeLimit: int,
                              res: seq<C>, poly: seq<C>, x: X, conv: Foreign<C, X>, ops: PolyOps<C>): (o: Out<seq<C>>)
    ensures route == ByConversion && SetOtherSpec(convRoute, x, conv, ops).status != SUCCESS ==>
      o == Out(SetOtherSpec(convRoute, x, conv, ops).status, res)
    ensures route == ByConversion && SetOtherSpec(convRoute, x, conv, ops).status == SUCCESS ==>
      o == Product(side, degreeLimit, res, poly, SetOtherSpec(convRoute, x, conv, ops).value, ops)
  {
    match route
    case ByScalar =>
      if side == PolyTimesX then ops.mulScalar(poly, conv.asScalar(x)) else ops.scalarMul(conv.asScalar(x), poly)
    case ByPoly => Product(side, degreeLimit, res, poly, conv.asPoly(x), ops)
    case ByConversion =>
      var t := SetOtherSpec(convRoute, x, conv, ops);
      if t.status == SUCCESS then Product(side, degreeLimit, res, poly, t.value, ops) else Out(t.status, res)
  }

  /** Multiplying by an element of the same polynomial context is plain
      polynomial_mul, degree limit included. */
  lemma MulOtherSameContext(ctx: GrCtx)
    requires ctx.which == PolyRing && ctx != ctx.baseRing
    ensures SelectMulOther(ctx, ctx) == ByPoly
  {
  }

  /** The two entry points share one body; `side` selects the operand order.
      The if-chain is the C code's own; its conditions are MulOtherApplies in
      rank order, and the postcondition ties it to SelectMulOther. */
  method MulOtherAny<C, X>(side: Side, res: GrPoly<C>, poly: GrPoly<C>, x: X, xCtx: GrCtx, ctx: GrCtx,
                           conv: Foreign<C, X>, ops: PolyOps<C>, heap: Heap) returns (status: Status)
    modifies res, heap
    ensures Out(status, res.coeffs) == MulOtherSpec(SelectMulOther(xCtx, ctx), SelectSetOther(xCtx, ctx), side,
                                                    ctx.degreeLimit, old(res.coeffs), old(poly.coeffs), x, conv, ops)
    ensures heap.live == old(heap.live)
    ensures heap.allocs == old(heap.allocs) + (if SelectMulOther(xCtx, ctx) == ByConversion then 1 else 0)
  {
    if xCtx == ctx.baseRing {
      var o := if side == PolyTimesX then ops.mulScalar(poly.coeffs, conv.asScalar(x))
               else ops.scalarMul(conv.asScalar(x), poly.coeffs);
      status, res.coeffs := o.status, o.value;
    } else if xCtx.which == PolyRing && xCtx.baseRing == ctx.baseRing && Text(xCtx.name) == Text(ctx.name) {
      var o := Product(side, ctx.degreeLimit, res.coeffs, poly.coeffs, conv.asPoly(x), ops);
      status, res.coeffs := o.status, o.value;
    } else {
      status := MulByConversion(side, res, poly, x, xCtx, ctx, conv, ops, heap);
    }
  }

  /** The conversion branch: x is converted with polynomial_set_other into a
      temporary, and the product is formed only if that succeeded. */
  method MulByConversion<C, X>(side: Side, res: GrPoly<C>, poly: GrPoly<C>, x: X, xCtx: GrCtx, ctx: GrCtx,
                               conv: Foreign<C, X>, ops: PolyOps<C>, heap: Heap) returns (status: Status)
    modifies res, heap
    ensures Out(status, res.coeffs) == MulOtherSpec(ByConversion, SelectSetOther(xCtx, ctx), side,
                                                    ctx.degreeLimit, old(res.coeffs), old(poly.coeffs), x, conv, ops)
    ensures heap.live == old(heap.live) && heap.allocs == old(heap.allocs) + 1
  {
    var t: GrPoly<C> := InitTemporary(heap);          // polynomial_init
    status := SetOther(t, x, xCtx, ctx, conv, ops);
    if status == SUCCESS {
      var o := Product(side, ctx.degreeLimit, res.coeffs, poly.coeffs, t.coeffs, ops);
      status, res.coeffs := o.status, o.value;
    }
    ClearTemporary(t, heap);                          // polynomial_clear
  }

  /** polynomial_mul_other: poly * x. */
  method MulOther<C, X>(res: GrPoly<C>, poly: GrPoly<C>, x: X, xCtx: GrCtx, ctx: GrCtx,
                        conv: Foreign<C, X>, ops: PolyOps<C>, heap: Heap) returns (status: Status)
    modifies res, heap
    ensures Out(status, res.coeffs) == MulOtherSpec(SelectMulOther(xCtx, ctx), SelectSetOther(xCtx, ctx), PolyTimesX,
                                                    ctx.degreeLimit, old(res.coeffs), old(poly.coeffs), x, conv, ops)
    ensures heap.live == old(heap.live)
  {
    status := MulOtherAny(PolyTimesX, res, poly, x, xCtx, ctx, conv, ops, heap);
  }

  /** polynomial_other_mul: x * poly. */
  method OtherMul<C, X>(res: GrPoly<C>, x: X, xCtx: GrCtx, poly: GrPoly<C>, ctx: GrCtx,
                        conv: Foreign<C, X>, ops: PolyOps<C>, heap: Heap) returns (status: Status)
    modifies res, heap
    ensures Out(status, res.coeffs) == MulOtherSpec(SelectMulOther(xCtx, ctx), SelectSetOther(xCtx, ctx), XTimesPoly,
                                                    ctx.degreeLimit, old(res.coeffs), old(poly.coeffs), x, conv, ops)
    ensures heap.live == old(heap.live)
  {
    status := MulOtherAny(XTimesPoly, res, poly, x, xCtx, ctx, conv, ops, heap);
  }
}
