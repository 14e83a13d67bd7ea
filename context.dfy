/** Context descriptors: the fields a polynomial-ring context carries, the
    shared method table of the polynomial kind, and the generator name that is
    either the shared default literal "x" or an owned heap copy. */
module Context {
  import opened Status
  import opened Memory

  /** WORD_MAX on a 64-bit target: "no limit" for size_limit and degree_limit. */
  const WORD_MAX: int := 0x7FFF_FFFF_FFFF_FFFF

  /** sizeof(gr_poly_struct) on a 64-bit target: coeffs pointer, alloc and length. */
  const SIZEOF_GR_POLY: nat := 24

  /** The text of the shared default generator name. */
  const DEFAULT_VAR: string := "x"

  /** The `which_ring` tag: only the tags the polynomial code tests are named. */
  datatype RingKind = PolyRing | FmpzPolyRing | FmpqPolyRing | VecRing | OtherRing(tag: nat)

  /** The `var` field: the address of the default literal, or a block the context owns. */
  datatype GenName = DefaultName | OwnedName(text: string)

  /** The characters the `var` field points at. */
  function Text(n: GenName): string
  {
    match n
    case DefaultName => DEFAULT_VAR
    case OwnedName(t) => t
  }

  /** `_gr_poly_methods` with its flag `_gr_poly_methods_initialized`. The
      entries of the table are not modelled, only how often it is built. */
  class MethodTable {
    var initialized: bool
    /** How many times gr_method_tab_init has filled the table. */
    ghost var builds: nat

    /** The table is built exactly when the flag is set, and at most once. */
    ghost predicate Valid()
      reads this
    {
      builds == if initialized then 1 else 0
    }

    /** The zero-initialised global before any context of the kind exists. */
    constructor ()
      ensures Valid() && !initialized
    {
      initialized := false;
      builds := 0;
    }
  }

  /** A gr_ctx_struct. The polynomial-specific fields (POLYNOMIAL_CTX) are
      meaningful only when `which == PolyRing`. */
  class GrCtx {
    var which: RingKind
    var sizeofElem: nat
    var sizeLimit: int
    var methods: MethodTable?
    var baseRing: GrCtx?
    var degreeLimit: int
    var name: GenName

    /** A context of another kind, set up by that kind's own init function. */
    constructor (which: RingKind, sizeofElem: nat)
      ensures this.which == which && this.sizeofElem == sizeofElem
      ensures sizeLimit == WORD_MAX && methods == null && baseRing == null
      ensures degreeLimit == WORD_MAX && name == DefaultName
    {
      this.which := which;
      this.sizeofElem := sizeofElem;
      sizeLimit := WORD_MAX;
      methods := null;
      baseRing := null;
      degreeLimit := WORD_MAX;
      name := DefaultName;
    }
  }

  /** gr_ctx_init_gr_poly: fill in a polynomial-ring context over `baseRing`
      and build the shared method table if this is the first such context. */
  method InitGrPoly(ctx: GrCtx, baseRing: GrCtx, table: MethodTable)
    requires table.Valid()
    modifies ctx, table
    ensures ctx.which == PolyRing && ctx.sizeofElem == SIZEOF_GR_POLY && ctx.sizeLimit == WORD_MAX
    ensures ctx.baseRing == baseRing && ctx.degreeLimit == WORD_MAX && ctx.name == DefaultName
    ensures Text(ctx.name) == "x"
    ensures ctx.methods == table
    ensures table.Valid() && table.initialized && table.builds == 1
    ensures old(table.initialized) ==> table.builds == old(table.builds)
  {
    ctx.which := PolyRing;
    ctx.sizeofElem := SIZEOF_GR_POLY;
    ctx.sizeLimit := WORD_MAX;
    ctx.baseRing := baseRing;
    ctx.degreeLimit := WORD_MAX;
    ctx.name := DefaultName;
    ctx.methods := table;
    if !table.initialized {
      table.builds := table.builds + 1;
      table.initialized := true;
    }
  }

  /** The block count owned by a context through its generator name. */
  function NameBlocks(n: GenName): nat
  {
    if n.OwnedName? then 1 else 0
  }

  /** _gr_gr_poly_ctx_set_gen_name: reallocate `var` to hold a copy of `s`.
      The default literal is never passed to realloc (it becomes NULL first,
      so realloc allocates afresh); an owned block is reallocated, possibly
      moved, and is counted as the same block, so `live` and `allocs` do not
      change on an owned-to-owned rename. `s`
      is a C string, so it holds no NUL before its end. Always succeeds. */
  method SetGenName(ctx: GrCtx, s: string, heap: Heap) returns (status: Status)
    requires '\0' !in s
    modifies ctx`name, heap
    ensures status == SUCCESS
    ensures ctx.name == OwnedName(s) && Text(ctx.name) == s
    ensures heap.live == old(heap.live) + 1 - NameBlocks(old(ctx.name))
    ensures heap.allocs == old(heap.allocs) + 1 - NameBlocks(old(ctx.name))
  {
    if ctx.name.DefaultName? {
      heap.Acquire();
    }
    ctx.name := OwnedName(s);
    status := SUCCESS;
  }

  /** _gr_gr_poly_ctx_set_gen_names: the first of the given names is used. */
  method SetGenNames(ctx: GrCtx, names: seq<string>, heap: Heap) returns (status: Status)
    requires |names| >= 1 && '\0' !in names[0]
    modifies ctx`name, heap
    ensures status == SUCCESS
    ensures ctx.name == OwnedName(names[0])
    ensures heap.live == old(heap.live) + 1 - NameBlocks(old(ctx.name))
  {
    status := SetGenName(ctx, names[0], heap);
  }

  /** polynomial_ctx_clear: free `var` unless it is the default literal; the
      base ring is not touched. */
  method CtxClear(ctx: GrCtx, heap: Heap)
    modifies heap
    ensures heap.live == old(heap.live) - NameBlocks(ctx.name)
    ensures heap.allocs == old(heap.allocs)
  {
    if ctx.name != DefaultName {
      heap.Release();
    }
  }

  /** A polynomial context initialised, renamed any number of times and
      cleared gives back every block it took: renaming never leaks the old
      name and clearing never frees the default literal. */
  method RenameThenClear(ctx: GrCtx, baseRing: GrCtx, table: MethodTable, heap: Heap, names: seq<string>)
    requires table.Valid()
    requires forall i :: 0 <= i < |names| ==> '\0' !in names[i]
    modifies ctx, table, heap
    ensures heap.live == old(heap.live)
    ensures table.Valid() && table.initialized
    ensures ctx.name == if |names| == 0 then DefaultName else OwnedName(names[|names| - 1])
  {
    InitGrPoly(ctx, baseRing, table);
    var i := 0;
    while i < |names|
      modifies ctx, heap
      invariant 0 <= i <= |names|
      invariant heap.live == old(heap.live) + NameBlocks(ctx.name)
      invariant ctx.name == if i == 0 then DefaultName else OwnedName(names[i - 1])
    {
      var _ := SetGenName(ctx, names[i], heap);
      i := i + 1;
    }
    CtxClear(ctx, heap);
  }
}
