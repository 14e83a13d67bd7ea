# Polynomials over a generic ring: a Dafny model of FLINT's `gr` polynomial composite

FLINT's generic-ring layer (`gr`) describes an algebraic structure by a
context: a descriptor with a kind tag, an element size, a size limit and a
pointer to a method table shared by every context of that kind. The file
`src/gr/polynomial.c` implements the composite "dense polynomials over an
arbitrary base ring". Most of its entries forward to `gr_poly_*` routines.
This project models the logic the file has of its own:

- **Coercion from a foreign context** (`polynomial_set_other`). The same
  context, then the base ring, then a polynomial ring whose generator has the
  same name, then fmpz/fmpq polynomials, then vectors, then scalar conversion.
  A failed scalar conversion leaves a zero-length result.
- **Interval construction** (`polynomial_set_interval_mid_rad`). A loop over
  `max(mlen, rlen)` coefficients that ors together the per-coefficient
  statuses. It creates the base-ring zero lazily, at most once. It handles an
  output that is the radius input through a scratch polynomial, and
  normalises last.
- **The degree-limit guard** of `polynomial_mul`.
- **Exact division** (`polynomial_div`). A scalar fast path copies the
  divisor first when the output is the divisor. Otherwise the remainder's
  three-valued zero test is mapped to a status.
- **Mixed multiplication** (`polynomial_mul_other`, `polynomial_other_mul`):
  convert, multiply only if the conversion succeeded, clear the temporary.
- **Recursive generators**, the `"0"` case of writing, and the context state:
  the generator name, `ctx_clear`, and the method table that is built once.

Modules:

- `status.dfy`, module `Status`. Status codes are `bv2` values
  (`SUCCESS` 0, `DOMAIN` 1, `UNABLE` 2), combined with `|` as the C code
  does. `Truth` is True/False/Unknown. `OrAll` is the loop accumulation.
- `memory.dfy`, module `Memory`. A `Heap` class counts the live and acquired
  blocks: temporaries and owned strings.
- `context.dfy`, module `Context`. The `GrCtx` class: Dafny's reference
  equality stands for C's pointer equality. The generator name is either the
  shared default literal or an owned block. The `MethodTable` class holds the
  build-once flag.
- `polynomial.dfy`, module `Polynomial`. The `GrPoly` and `GrVec` classes.
  The base-ring and `gr_poly_*` operations, which are defined outside this
  file, are records of function values (`BaseRing`, `PolyOps`). Also here:
  `Mul`, `Div`, `GensRecursive` and `Write`.
- `interval.dfy`, module `Interval`: `SetIntervalMidRad`.
- `coercion.dfy`, module `Coercion`: `SetOther`, `MulOther`, `OtherMul`.

Each method that changes a polynomial object is proved against a pure
specification function of the inputs' old contents (`MidRadSpec`, `DivSpec`,
`GensSpec`, `SetOtherSpec`, `MulOtherSpec`). The properties are proved about
those functions. Aliasing is real reference equality on `GrPoly` objects. The
output may be the midpoint polynomial or the radius polynomial of
`SetIntervalMidRad`, or the divisor of `Div`.

Three details of the code that the model keeps exactly:

- The multiplication guard refuses when `len1 + len2 > degree_limit`, a bound
  on the sum of the two lengths.
- Statuses are or-ed bit by bit, so `GR_DOMAIN | GR_UNABLE` gives 3. No
  status wins over the other.
- The scalar path of division calls `gr_poly_div_scalar`.

## Model

| member | source | states |
|---|---|---|
| `Status.OrAllBit` | src/gr/polynomial.c:268-290 | A bit is set in the or-accumulated status exactly when some sub-operation's status has it |
| `Status.OrAll` | src/gr/polynomial.c:268-290 | The status after a sequence of or-assignment steps is GR_SUCCESS exactly when every part is GR_SUCCESS, and contains every part's failure bits |
| `Status.OrAllStep` | src/gr/polynomial.c:268-290 | One more or-assignment step ors the next part into the accumulated prefix |
| `Context.MethodTable.constructor` | src/gr/polynomial.c:677-679 | Before any polynomial context exists the table is unbuilt and its flag is 0 |
| `Context.InitGrPoly` | src/gr/polynomial.c:767-785 | Sets kind GR_POLY, element size, size_limit and degree_limit WORD_MAX, the base ring, var = the default literal, which reads "x", methods = the shared table; the table is built exactly once over all inits (flag checked first) |
| `Context.SetGenName` | src/gr/polynomial.c:38-49 | Returns GR_SUCCESS; the name becomes an owned copy of s; a fresh block is taken only when replacing the default literal, which is never freed; an owned name is reallocated and counted as the same block |
| `Context.SetGenNames` | src/gr/polynomial.c:51-54 | Returns GR_SUCCESS and sets the generator name to the first of the given names |
| `Context.CtxClear` | src/gr/polynomial.c:56-63 | Frees the name only when it is not the default literal; the base ring is untouched |
| `Context.RenameThenClear` | src/gr/polynomial.c:38-63 | Init, any number of renames and a clear give back every block taken: no leak, no free of the literal |
| `Polynomial.GrPoly.constructor` | src/gr/polynomial.c:25-29 | polynomial_init yields the zero-length polynomial |
| `Polynomial.InitTemporary` | src/gr/polynomial.c:25-29 | A temporary from polynomial_init is a new, empty polynomial and takes one block |
| `Polynomial.ClearTemporary` | src/gr/polynomial.c:114-118 | polynomial_clear empties the temporary and gives its block back |
| `Polynomial.Swap` | src/gr/polynomial.c:120-124 | Exchanges the two polynomials' contents |
| `Polynomial.Resized` | src/gr/polynomial.c:265-266 | After fit_length and set_length to n: length n, old coefficients kept below n, zeros beyond the old length |
| `Polynomial.Write` | src/gr/polynomial.c:132-143 | The zero-length polynomial is written as "0" with GR_SUCCESS whatever the generator is called; anything else goes to gr_poly_write with the context's generator name |
| `Polynomial.Mul` | src/gr/polynomial.c:483-494 | With a configured limit, two nonzero operands and len1 + len2 > limit: GR_UNABLE with the output unchanged; otherwise exactly gr_poly_mul's result |
| `Polynomial.MulGuardSkipsMultiplier` | src/gr/polynomial.c:486-491 | Over the limit the outcome is independent of the multiplier: no multiplication happens |
| `Polynomial.MulWithoutLimitForwards` | src/gr/polynomial.c:486-493 | With degree_limit = WORD_MAX, the value init sets, the product is always delegated |
| `Polynomial.DivStatus` | src/gr/polynomial.c:576-586 | A failing divrem status passes through; after success, remainder zero-test True/False/Unknown gives SUCCESS/DOMAIN/UNABLE, each an if-and-only-if |
| `Polynomial.DivSpec` | src/gr/polynomial.c:550-591 | Scalar divisor: gr_poly_div_scalar, after copying the divisor when the output is the divisor, succeeding exactly when copy and division both do; otherwise divrem's quotient, succeeding exactly when divrem succeeded and the remainder is definitely zero |
| `Polynomial.DivAliasCopyTransparent` | src/gr/polynomial.c:553-568 | When copying the scalar divisor succeeds exactly, the aliased path gives the same result as the plain path |
| `Polynomial.Div` | src/gr/polynomial.c:550-591 | Status and quotient equal DivSpec (scalar path, aliased copy with statuses or-ed, divrem with status mapping); the temporary scalar and the remainder are released on every path |
| `Polynomial.GensStatuses` | src/gr/polynomial.c:355-366 | n + 2 statuses are or-ed: the base call, n promotions and the generator |
| `Polynomial.GensSpec` | src/gr/polynomial.c:346-371 | n + 1 entries: base generators promoted to constants at 0..n-1, the polynomial generator at n |
| `Polynomial.GensSuccessIff` | src/gr/polynomial.c:349-370 | The status is GR_SUCCESS exactly when the base call, every promotion and gr_poly_gen succeeded |
| `Polynomial.GensRecursive` | src/gr/polynomial.c:346-371 | The loop fills the vector and status as GensSpec says; the temporary vector of base generators is cleared |
| `Polynomial.PromoteGens` | src/gr/polynomial.c:357-361 | After the loop, entry i is the constant polynomial of base generator i and the status is the base call or-ed with every promotion |
| `Interval.MidRadLength` | src/gr/polynomial.c:261-263 | The pre-normalisation length is max(mlen, rlen) |
| `Interval.MidRadCoeff` | src/gr/polynomial.c:270-289 | Coefficient i: both inputs present combine mid and radius, a midpoint alone is copied with gr_set, a radius alone is combined with the base zero as midpoint |
| `Interval.MidRadStatuses` | src/gr/polynomial.c:268-290 | One status per coefficient index below max(mlen, rlen), from the call made at that index |
| `Interval.MidRadValues` | src/gr/polynomial.c:268-290 | Length max(mlen, rlen); mid and radius combine where both exist, a midpoint alone is copied, a radius alone combines with the base zero |
| `Interval.MidRadSpec` | src/gr/polynomial.c:237-298 | Empty radius: gr_poly_set of m; otherwise the normalised coefficients, with a status that is GR_SUCCESS exactly when every coefficient call succeeded and that contains every coefficient call's failure bits |
| `Interval.SetIntervalMidRad` | src/gr/polynomial.c:237-298 | Output and status equal MidRadSpec of the old inputs (empty radius: plain copy of m; otherwise or-ed statuses and normalised coefficients), also when the output aliases m or r; at most the scratch polynomial and one zero are ever taken, and every temporary is released |
| `Interval.FillMidRad` | src/gr/polynomial.c:261-296 | For an output other than r (possibly m itself): resize to max(mlen, rlen), fill, release the zero, normalise; equals MidRadSpec and takes exactly one block when rlen > mlen, released before returning |
| `Interval.MidRadLoop` | src/gr/polynomial.c:268-290 | The loop leaves exactly MidRadValues in the output and the or of MidRadStatuses as status, reading m's coefficient i before writing output coefficient i; the zero exists afterwards exactly when rlen > mlen |
| `Interval.MidRadStep` | src/gr/polynomial.c:270-289 | Coefficient i is the base-ring call of MidRadCoeff's branch; the zero is created only in the radius-only branch and only if it does not exist yet |
| `Coercion.SelectSetOther` | src/gr/polynomial.c:192-234 | The branch taken is applicable and no branch of higher priority is: same context, base ring, same-name polynomial ring, fmpz poly, fmpq poly, vector, scalar |
| `Coercion.SetOtherSpec` | src/gr/polynomial.c:220-234 | Scalar fallback: success gives the normalised length-1 polynomial; failure gives length 0 and the failing status unchanged |
| `Coercion.SetOtherStructuralFirst` | src/gr/polynomial.c:192-203 | Same context copies; the base ring promotes to a constant; a same-name polynomial ring never reaches the scalar fallback |
| `Coercion.SetOther` | src/gr/polynomial.c:189-235 | The if-chain computes exactly SetOtherSpec along SelectSetOther's branch |
| `Coercion.SelectMulOther` | src/gr/polynomial.c:499-509 | The branch taken is the applicable one of highest priority: base-ring scalar, same-base same-name polynomial, conversion |
| `Coercion.MulOtherSpec` | src/gr/polynomial.c:509-520 | On the conversion branch the product is formed only if set_other succeeded; otherwise its status is returned and the output is unchanged |
| `Coercion.MulOtherSameContext` | src/gr/polynomial.c:503-508 | Multiplying by an element of the same polynomial context takes the polynomial_mul branch |
| `Coercion.MulOtherAny` | src/gr/polynomial.c:496-548 | Output and status equal MulOtherSpec; the temporary of the conversion branch is always cleared |
| `Coercion.MulByConversion` | src/gr/polynomial.c:509-520 | Converts through SetOther into a temporary, multiplies only on success, and clears the temporary: MulOtherSpec on the conversion branch with one block taken and released |
| `Coercion.MulOther` | src/gr/polynomial.c:496-521 | polynomial_mul_other computes MulOtherSpec with the polynomial on the left |
| `Coercion.OtherMul` | src/gr/polynomial.c:523-548 | polynomial_other_mul computes MulOtherSpec with the foreign element on the left |

## Left out

- The thin forwards to `gr_poly_*`. These are add, sub, neg, the ui/si/fmpz/fmpq
  variants, set, zero/one/neg_one, gen, equal, is_zero, is_one, divexact,
  inv, the pow family, gcd, canonical_associate and euclidean div/rem/divrem
  (src/gr/polynomial.c:151-185, 300-316, 340-344, 373-481, 593-666). Their
  algorithms are not in this file; the ones the modelled code calls are
  function-valued parameters.
- `_gr_poly_normalise` is abstract (`PolyOps.normalise`). Its definition is
  not part of this model. The model only says that it is applied last.
- `polynomial_factor` only forwards to the base ring's registered factor
  routine. There is no algorithm in this file.
- `polynomial_randtest` (randomness), `polynomial_ctx_write`, and the
  non-zero case of `polynomial_write` (stream I/O). Writing is modelled as
  returning the text.
- `polynomial_i` and `polynomial_pi`. Their constants come from the base ring
  (real and complex balls, floating point).
- The fmpz_poly, fmpq_poly and gr_vec conversions inside `set_other`. They
  are opaque functions of the foreign element (`Foreign`); only the order of
  the branches is modelled.
- Thread safety of the unsynchronised one-time method-table build (a
  concurrency concern). The contents of the table and `gr_method_tab_init`
  are also left out; only the build-once flag is modelled.
- The context predicates (`polynomial_ctx_is_ring` and the rest), which are
  one-line forwards, and `polynomial_set_shallow`.
- Allocated capacity (`alloc`) beyond a polynomial's length. The link
  between a context's `baseRing` pointer and the `BaseRing` operation record
  is also not formalised.
- C integer widths. `len1 + len2` is an unbounded integer; the `slong` sum
  could overflow only for lengths no allocation can reach.
- Context.SetGenName: the `flint_realloc` of an owned name may move the
  block; the model counts it as the same block, so a moving realloc is not
  counted in `allocs`.
- `Heap` counts blocks and does not track addresses. A leak shows up as a
  count that does not balance; a free of the wrong block does not show up.
- C strings end at the first NUL, while Dafny strings do not. Generator names
  are required to hold no NUL, so comparing whole names agrees with `strcmp`
  and copying a whole name agrees with `strlen` plus `memcpy`.
- Allocation failure inside `flint_realloc` (FLINT aborts the process).
