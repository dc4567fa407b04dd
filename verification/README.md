# brittle-matter-matters: integer index arithmetic and the DEM tables

This project models two parts of the brittle-matter-matters simulator (C)
and proves properties of them. The first is the generic integer helpers:

- Euclidean division and wrapping for unsigned and signed types;
- mixed-radix flattening of cell index vectors;
- the overflow predicates and checked operations on signed scalars;
- the reference implementations the test suite checks them against.

The second is the fixed-capacity tables of the discrete element method
(DEM) in `dem.c`:

- the particle store;
- the bond table;
- the cell-list cache (cell coordinates, buckets and neighbour lists);
- the pair enumeration of the force pass;
- the cache gate of a time step.

Files and modules:

- `cint.dfy` (`CInt`): C integer ranges as explicit `[min, max]` bounds, C's
  truncating `/` and `%`, powers, and the shift of a value into `[a, b)`.
- `common_uint.dfy` (`CommonUint`): `bmm_quot`, `bmm_wrap`, `bmm_uwrap`,
  `bmm_hc`, `bmm_unhc`, `bmm_hcd`, `bmm_unhcd` for unsigned types. The
  flattening routines are methods over arrays with loop invariants, proved
  against the digit functions `Digits` and `Horner`.
- `common_sint.dfy` (`CommonSint`): the signed `bmm_quot`, as written and
  corrected (see Findings), and the signed `bmm_wrap` with its same-sign
  formula and its `long long` loop fallback.
- `scalar_sint.dfy` (`ScalarSint`): `add_ovf` … `reme_ovf`, the checked
  operations, and their `_mut` variants on a mutable `Scalar` cell. A failed
  `dynamic_assert` is the value `Abort(cause)`.
- `test_oracles.dfy` (`TestOracles`): `tamean2`, `famean2_ref`, `wrap_ref`
  and `pow_ref` from `tests.c`.
- `dem_spec.dfy` (`DemSpec`): particles, bonds, options, the geometry
  helpers and the specification functions of the cache (buckets,
  eligibility, candidate lists, pair sequences).
- `dem.dfy` (`Dem`): the class `Simulation`. Its fields are the counters
  and flags of `struct bmm_dem`, and its arrays are the particle, bond and
  cache tables. Its methods update them in place as the C functions do.

Each C integer type is an `IntType(min, max)`. The instances are `unsigned
char`, `size_t`, `signed char`, `int` and `long long`. The members that
model code as written evaluate arithmetic in `Promoted(t)`, the type C's
integer promotions give the operands (`int` for `signed char`). A value
that leaves the promoted type is undefined behaviour: the result is
`Undefined`. A value that fits there but not in the type it is stored
into is an implementation-defined conversion: the result is `ImplDefined`.
The corrected members prove that every value they form lies inside its type; in the loop of `CommonSint.Wrap` that type is `long long`, and the loop invariants keep `y` between `x` and the interval.

Two `dem.c` capacities from `dem.h` are constructor parameters:

- the bucket count is `BMM_POW(BMM_NCELL, BMM_NDIM)`;
- the neighbour list length is `BMM_NGROUP * (3^d / 2)`.

## Model

| member | source | states |
|---|---|---|
| CInt.TruncDiv | common_sint.h:18 | C's `x / y`: the magnitude is the quotient of the magnitudes and the sign is negative exactly when the operand signs differ |
| CInt.TruncRem | common_sint.h:19 | C's `x % y` completes `TruncDiv` to `x`, is smaller than `y` in magnitude and carries the sign of `x` |
| CInt.Sgn | common_sint.h:41 | `bmm_sgn` is -1, 0 or 1 and times the magnitude gives the value back |
| CInt.Shift | common_uint.h:25-29 | the wrap target: the value in `[a, b)` congruent to `x` modulo `b - a` |
| CInt.ShiftUnique | common_uint.h:25-29 | any value of `[a, b)` that is `x` plus a multiple of `b - a` is that target |
| CInt.WrapFormula | common_uint.h:38-42 | the remainder-difference formula `(r >= s ? r - s : c - (s - r)) + a` is the wrap target |
| CInt.ShiftIdentity | common_sint.h:53-62 | a value already inside `[a, b)` wraps to itself |
| CommonUint.Quot | common_uint.h:7-23 | `quot * y + rem == x`, `0 <= rem < y`, both inside the type |
| CommonUint.Wrap | common_uint.h:25-43 | `bmm_wrap` gives the wrap target, with `b - a`, `x % c`, `a % c` and the result all inside the type |
| CommonUint.UWrap | common_uint.h:68-81 | `bmm_uwrap(x, b)` equals `bmm_wrap(x, 0, b)` and lies in `[0, b)` |
| CommonUint.Prod | common_uint.h:115-118 | the cell count of a hypercuboid is positive when every side is |
| CommonUint.ProdUniform | common_uint.h:83-86 | a hypercube of side `nper` has `nper^ndim` cells |
| CommonUint.Digits | common_uint.h:83-96 | every digit of the index vector fits its radix |
| CommonUint.HornerDigits | common_uint.h:98-113 | flattening the index vector of `i` gives `i` modulo the cell count |
| CommonUint.HornerBound | common_uint.h:154-169 | a fitting index vector flattens into `[0, cell count)` |
| CommonUint.DigitsHorner | common_uint.h:154-169 | unflattening a flattened fitting vector gives the vector back |
| CommonUint.HcRoundTrip | common_uint.h:83-113 | `bmm_unhc(bmm_hc(i)) == i` for every cell index of a hypercube |
| CommonUint.HcdRoundTrip | common_uint.h:115-169 | `bmm_unhcd(bmm_hcd(i)) == i` for every cell index of a hypercuboid |
| CommonUint.DigitsSmall | common_uint.h:83-96 | an index below the last radix has only zero leading digits (so `bmm_hc` of 1 is `{0, 1}`) |
| CommonUint.Hc | common_uint.h:88-96 | `bmm_hc` writes the base-`nper` digits of `i` into `pij[0..ndim)`, most significant first, and nothing else |
| CommonUint.Unhc | common_uint.h:103-113 | `bmm_unhc` is the flattened index, wrapped modulo `max + 1` as the unsigned accumulator does |
| CommonUint.Hcd | common_uint.h:120-128 | `bmm_hcd` writes the mixed-radix digits of `i`, with `nper[ndim - 1]` fastest, into `pij[0..ndim)` |
| CommonUint.Unhcd | common_uint.h:159-169 | `bmm_unhcd` is the flattened index, wrapped modulo `max + 1` |
| CommonUint.UnhcdExact | common_uint.h:154-169 | when the hypercuboid fits the type, `bmm_unhcd` does not wrap |
| CommonSint.QuotFitsIff | common_sint.h:18 | the truncated quotient fits the type except for `MIN / -1` in two's complement |
| CommonSint.QuotFitsPositive | common_sint.h:18 | a positive divisor never overflows the quotient |
| CommonSint.QuotAsWrittenOverflowsAtMinusOne | common_sint.h:18 | `bmm_quot(INT_MIN, -1)` is undefined; `bmm_quot(SCHAR_MIN, -1)` stores 128 into a `signed char`, which is implementation-defined, and no `signed char` pair satisfies the promised identity there |
| CommonSint.QuotAsWrittenOverflowsAtMinDivisor | common_sint.h:20-21 | `bmm_quot(-1, INT_MIN)` overflows in `s * y` |
| CommonSint.QuotAsWrittenCharMinDivisor | common_sint.h:20-21 | for `signed char`, `s * y` is formed in `int`, so `bmm_quot(-1, SCHAR_MIN)` is exact: `(1, 127)` |
| CommonSint.QuotAsWrittenDefinedInt | common_sint.h:13-24 | for `int`, the code as written is never implementation-defined, and is exact exactly away from `(INT_MIN, -1)` and from `y == INT_MIN` with a negative truncated remainder |
| CommonSint.QuotAsWrittenDefinedChar | common_sint.h:13-24 | for `signed char`, the code as written is never undefined, and is exact for every pair but `(SCHAR_MIN, -1)` |
| CommonSint.QuotAsWrittenPositive | common_sint.h:13-24 | for a positive divisor, `bmm_quot` as written is exact and returns the corrected pair (the case `bmm_wrap` calls it in) |
| CommonSint.QuotAsWrittenAgrees | common_sint.h:13-24 | wherever the code as written is defined, it returns the corrected quotient |
| CommonSint.Quot | common_sint.h:5-24 | Euclidean division: `quot * y + rem == x`, `0 <= rem < |y|`, both inside the type |
| CommonSint.QuotFixUp | common_sint.h:18-21 | the sign fix-up turns the truncated pair into the Euclidean one, and a truncated remainder `>= 0` is kept unchanged |
| CommonSint.WrapSameSign | common_sint.h:41-47 | the same-sign branch of `bmm_wrap` gives the wrap target; its two `bmm_quot` calls are the code as written, exact for the positive divisor `b - a`, and `c`, both remainders, their difference, `c` minus it and the result all lie inside the type |
| CommonSint.WrapAsWritten | common_sint.h:36-63 | wherever `bmm_wrap` as written is defined, it gives the wrap target |
| CommonSint.WrapAsWrittenOverflows | common_sint.h:49 | `bmm_wrap(-3, -2, INT_MAX)` is undefined, although its result `INT_MAX - 1` fits |
| CommonSint.WrapAsWrittenDefinedInt | common_sint.h:41-49 | for `int`, the code as written is never implementation-defined, and is undefined exactly when `a < 0` and `b - a > INT_MAX` |
| CommonSint.WrapAsWrittenDefinedChar | common_sint.h:41-49 | for `signed char`, `b - a` is formed in `int`, and the code as written always gives the wrap target |
| CommonSint.Wrap | common_sint.h:36-63 | `bmm_wrap` corrected, with `b - a` formed in `long long` and the loop fallback: gives the wrap target, so it returns `x` when `a <= x < b` |
| ScalarSint.AddOvf | scalar_sint.h:3-9 | `add_ovf` holds exactly when `x + y` leaves the type |
| ScalarSint.NegOvf | scalar_sint.h:11-17 | `neg_ovf` holds exactly when `-x` leaves the type |
| ScalarSint.NegOvfTwosComplement | scalar_sint.h:11-17 | in two's complement only `MIN` has no negation |
| ScalarSint.SubOvf | scalar_sint.h:19-25 | `sub_ovf` holds exactly when `x - y` leaves the type |
| ScalarSint.MulOvf | scalar_sint.h:27-38 | `mul_ovf` holds exactly when `x * y` leaves the type |
| ScalarSint.MulOvfCases | scalar_sint.h:30-37 | each of the four sign cases of `mul_ovf` decides overflow of the product |
| ScalarSint.SignedSupported | scalar_sint.h:46-51 | every valid signed range passes the limits check of `quott_ovf` |
| ScalarSint.QuottOvf | scalar_sint.h:40-56 | `quott_ovf` aborts on unsupported limits, and otherwise holds exactly when the truncated quotient leaves the type |
| ScalarSint.QuottFits | scalar_sint.h:53-55 | under supported limits only a divisor of -1 can overflow the truncated quotient |
| ScalarSint.RemtOvf | scalar_sint.h:58-64 | `remt_ovf` as written: for a non-zero divisor it holds exactly when the truncated remainder leaves the type, which never happens |
| ScalarSint.RemtFits | scalar_sint.h:58-64 | the truncated remainder of two values of the type lies in the type |
| ScalarSint.QuoteOvf | scalar_sint.h:66-72 | the `quote_ovf` stub always reports overflow |
| ScalarSint.RemeOvf | scalar_sint.h:74-80 | the `reme_ovf` stub always reports overflow |
| ScalarSint.Add | scalar_sint.h:82-92 | `add` returns the exact sum exactly when it fits, else aborts on overflow |
| ScalarSint.Neg | scalar_sint.h:94-104 | `neg` returns the exact negation exactly when it fits, else aborts on overflow |
| ScalarSint.Sub | scalar_sint.h:106-116 | `sub` returns the exact difference exactly when it fits, else aborts on overflow |
| ScalarSint.Mul | scalar_sint.h:118-128 | `mul` returns the exact product exactly when it fits, else aborts on overflow |
| ScalarSint.Quott | scalar_sint.h:130-141 | `quott` aborts on a zero divisor, then on unsupported limits or overflow, else returns C's `x / y` |
| ScalarSint.Remt | scalar_sint.h:143-154 | `remt` as written aborts exactly on a zero divisor; it is undefined exactly where C leaves `x % y` undefined (the promoted `x / y` does not fit), and otherwise returns C's `x % y`, inside the type |
| ScalarSint.RemtUndefinedAtMinusOne | scalar_sint.h:151-153 | `remt(INT_MIN, -1)` passes `remt_ovf` and reaches the undefined `INT_MIN % -1`; for `signed char` the promoted `-128 % -1` is 0 |
| ScalarSint.RemtOvfChecked | scalar_sint.h:46-64 | `remt_ovf` corrected as the test of `quott_ovf` in the promoted type: aborts exactly on unsupported limits, and otherwise holds exactly when C leaves `x % y` undefined |
| ScalarSint.RemtChecked | scalar_sint.h:143-154 | `remt` corrected: never undefined; aborts on a zero divisor, then on an undefined `x % y`, and otherwise returns the truncated remainder, inside the type |
| ScalarSint.RemtCheckedAgrees | scalar_sint.h:143-154 | wherever `remt` as written returns a value, the corrected `remt` returns the same one |
| ScalarSint.EuclideanFormulas | scalar_sint.h:156-189 | the `quote` and `reme` formulas form Euclidean division |
| ScalarSint.Quote | scalar_sint.h:156-172 | `quote` always aborts: on a zero divisor first, otherwise through the stub |
| ScalarSint.Reme | scalar_sint.h:174-189 | `reme` always aborts in the same way |
| ScalarSint.AddMut | scalar_sint.h:191-197 | `add_mut` stores the checked sum in `*iox`, and leaves it alone on abort |
| ScalarSint.NegMut | scalar_sint.h:199-204 | `neg_mut` stores the checked negation |
| ScalarSint.SubMut | scalar_sint.h:206-212 | `sub_mut` stores the checked difference |
| ScalarSint.MulMut | scalar_sint.h:214-220 | `mul_mut` stores the checked product |
| ScalarSint.QuottMut | scalar_sint.h:222-228 | `quott_mut` stores the checked truncated quotient |
| ScalarSint.RemtMut | scalar_sint.h:230-236 | `remt_mut` returns the corrected `remt` and stores its value in `*iox`, leaving `*iox` alone on abort |
| ScalarSint.QuoteMut | scalar_sint.h:238-243 | `quote_mut` always aborts and leaves `*iox` unchanged |
| ScalarSint.RemeMut | scalar_sint.h:245-250 | `reme_mut` always aborts and leaves `*iox` unchanged |
| TestOracles.TAMean2 | tests.c:21-56 | `tamean2` equals the truncated `(x + y) / 2` for every `signed char` pair, never leaves the type, and never reaches the final `return -128` |
| TestOracles.FAMean2Ref | tests.c:261-266 | `famean2_ref` is the mean rounded toward negative infinity |
| TestOracles.MeansDiffer | tests.c:244-277 | the floored and truncated means differ by one exactly for a negative odd sum |
| TestOracles.WrapRef | tests.c:117-136 | `wrap_ref` terminates with the wrap target, and returns `x` unchanged when `a <= x < b` |
| TestOracles.PowRef | tests.c:209-219 | `pow_ref(x, e)` is `x^e` and stays inside `int` |
| DemSpec.NewParticle | dem.c:264-289 | a new particle is free, has the given label, unit radius and mass, the ball moment factor, and zero kinematics |
| DemSpec.CellCoord | dem.c:50-74 | the cell coordinate lies in `[0, ncell - 1]`: 0 below the lower lerp bound, `ncell - 1` from the upper bound on, otherwise the truncation, strictly below `ncell - 1` |
| DemSpec.CellCoords | dem.c:50-74 | every coordinate of a cell vector fits its cell count |
| DemSpec.Members | dem.c:243-246 | a bucket lists only particles of its own cell |
| DemSpec.MembersExactlyOne | dem.c:243-246 | each particle is in the bucket of its own cell and in no other |
| DemSpec.MembersAscending | dem.c:243-246 | a bucket lists its particles in strictly ascending order |
| DemSpec.MembersOverflow | dem.c:107-118 | a bucket already full before particle `k` of its cell ends up over capacity |
| DemSpec.EligIrreflexive | dem.c:128-139 | no particle is eligible for itself |
| DemSpec.EligOneWayInCell | dem.c:128-139 | inside one cell, eligibility holds in at most one direction |
| DemSpec.Bucket | dem.c:243-246 | the bucket of a cell holds only live particles of that cell |
| DemSpec.KeepSub | dem.c:175-185 | what a cell contributes to a neighbour list comes from its bucket and is eligible |
| DemSpec.KeepDistinct | dem.c:175-185 | filtering a bucket keeps it free of duplicates |
| DemSpec.CandSub | dem.c:171-187 | every candidate is a live, related particle whose cell lies in the walked neighbourhood |
| DemSpec.CandDistinct | dem.c:171-187 | a neighbourhood listing each cell once yields a neighbour list without duplicates |
| DemSpec.SwapRemoveMultiset | dem.c:345-355 | swap removal takes away exactly the removed particle |
| DemSpec.UpperPairsExactly | dem.c:481-484 | the brute-force loops visit `(i, j)` exactly when `i < j` are both live |
| DemSpec.UpperPairsDistinct | dem.c:481-484 | the brute-force loops visit no pair twice |
| DemSpec.NeighPairsExactly | dem.c:487-490 | the cached loops visit `(i, j)` exactly when `i` is live and `j` is in the list of `i` |
| DemSpec.BondsAddedSnoc | dem.c:606-608 | appending a bond to an allowed target keeps every new bond allowed and every old one in place |
| DemSpec.LinkFoldSnoc | dem.c:613-630 | offering one more pair after a sequence of pairs is one more `bmm_dem_link_pair` on the tables the sequence leaves |
| DemSpec.LinkFoldAppend | dem.c:613-630 | offering `a` and then `b` leaves the tables and the stream position that offering `a + b` does |
| DemSpec.LinkFoldAllowed | dem.c:554-610 | offering pairs keeps every old record, and every record added to table `k` targets the `j` of an offered pair `(k, j)` |
| DemSpec.LinkFoldFrom | dem.c:554-610 | offering pairs that all start below `m` leaves the tables from `m` on unchanged |
| DemSpec.LinkFoldFresh | dem.c:554-610 | offering each pair at most once never gives a table two new records with the same target |
| DemSpec.UpperRowClosed | dem.c:616-618 | the finished inner loop of row `i` completes the pairs of the first `i + 1` rows |
| DemSpec.UpperRowsFoldPairs | dem.c:615-618 | running the brute-force loops row by row offers exactly the pairs `i < j` in order |
| DemSpec.ListedRowsFoldPairs | dem.c:621-624 | running the cached loops row by row offers exactly each live particle with its list entries, in order |
| DemSpec.UpperBonds | dem.c:615-618 | after the brute-force loops, every new bond targets a later live particle, no table gains two bonds to one partner, and the tables from `n` on are unchanged |
| DemSpec.ListedBonds | dem.c:621-624 | after the cached loops, every new bond targets a listed neighbour, and the tables from `n` on are unchanged |
| Dem.CellIndexFits | dem.c:82-86 | the flattened cell index does not wrap in `size_t` and names a bucket |
| Dem.NCellProd | dem.c:82-86 | the cells of the options fit the bucket count `ncell^d` |
| Dem.Simulation.constructor | dem.c:805-833 | `bmm_dem_def`: no particles, labels from 0, clock at 0, empty bond tables and buckets, cache not stale |
| Dem.Simulation.AddPart | dem.c:258-294 | on a full store returns `SIZE_MAX` and changes nothing; otherwise returns the old count, appends a fresh particle labelled `lnew`, advances `lnew` and marks the cache stale |
| Dem.Simulation.Reassign | dem.c:299-343 | slot `i` takes the particle of slot `j`, its bond count and its live bond records; its other records and every other slot are unchanged |
| Dem.Simulation.RemPart | dem.c:345-355 | the live particles become the old ones with `i` swap-removed, the count drops by one, the last slot's bonds move into `i`, labels stay distinct, and the cache is stale |
| Dem.Simulation.Appended | dem.c:258-294 | storing a particle labelled `lnew` into slot `k` keeps the labels of the first `k + 1` slots distinct and below `lnew + 1` |
| Dem.Simulation.SwapRemoved | dem.c:345-355 | moving the last particle into slot `i` leaves the old live particles without `i`, labels still distinct |
| Dem.Simulation.CacheJ | dem.c:28-32 | caches the moment of inertia `jred * m * r^2` of one particle |
| Dem.Simulation.CacheX | dem.c:38-42 | caches the position of one particle |
| Dem.Simulation.CacheIjcell | dem.c:50-74 | caches the clamped cell vector of one particle's cached position |
| Dem.Simulation.CacheIcell | dem.c:82-86 | caches the flattened cell index of one particle's cell vector |
| Dem.Simulation.Eligible | dem.c:128-139 | `bmm_dem_cache_eligible` on the cache is the eligibility relation of the cached view |
| Dem.Simulation.ClrParts | dem.c:92-95 | empties every bucket, leaving the stored indices |
| Dem.Simulation.CacheAddPart | dem.c:107-118 | appends the particle to the bucket of its cell exactly when that bucket has room; a full bucket and every other bucket stay unchanged |
| Dem.Simulation.ClrNeighs | dem.c:145-148 | empties the neighbour list of every live particle, and no other |
| Dem.Simulation.AddFrom | dem.c:166-190 | succeeds exactly when the candidates fit; then appends exactly the eligible particles of the upper-half neighbourhood in walk order; on failure the list is full and a prefix of them; other lists unchanged |
| Dem.Simulation.AddFromHood | dem.c:168-189 | the outer loop of `addfrom` over the neighbourhood cells, with the same success condition and result |
| Dem.Simulation.AddFromCell | dem.c:175-186 | the inner loop of `addfrom` over one bucket: appends its eligible members while they fit |
| Dem.Simulation.AddTo | dem.c:204-228 | succeeds exactly when no receiving list overflows; then every list of a particle for which `i` is eligible gains `i` once per appearance; lists only ever grow |
| Dem.Simulation.AddToHood | dem.c:206-227 | the outer loop of `addto`, with the same overflow condition and result |
| Dem.Simulation.AddToCell | dem.c:213-224 | the inner loop of `addto` over one bucket |
| Dem.Simulation.Receive | dem.c:217-222 | one contravariant append: succeeds exactly when the receiving list has room, else fails with nothing changed |
| Dem.Simulation.BuildJ | dem.c:231-232 | every live particle's inertia is cached; other slots unchanged |
| Dem.Simulation.BuildX | dem.c:234-235 | every live particle's position is cached |
| Dem.Simulation.BuildIjcell | dem.c:237-238 | every live particle's cell vector is cached |
| Dem.Simulation.BuildIcell | dem.c:240-241 | every live particle's cell index is cached |
| Dem.Simulation.CacheParticles | dem.c:231-241 | after the four per-particle loops the cache is derived from the particles |
| Dem.Simulation.BuildBuckets | dem.c:243-246 | succeeds exactly when every cell's live particles fit a bucket; then each bucket lists exactly its cell's particles |
| Dem.Simulation.BuildNeighs | dem.c:248-251 | succeeds exactly when every candidate list fits; then each live particle's list is exactly its candidates |
| Dem.Simulation.Build | dem.c:230-256 | rebuilds the cache from the particles; succeeds exactly when buckets and lists fit, then buckets and lists hold and the cache is not stale; on failure `stale` is untouched |
| Dem.Simulation.InOwnBucket | dem.c:230-256 | after a build every live particle is in the bucket of its cell and in no other |
| Dem.Simulation.NeighsEligible | dem.c:230-256 | after a build every neighbour list holds only live, eligible particles from the upper-half neighbourhood |
| Dem.Simulation.LinkPair | dem.c:554-610 | accepts exactly when the separation is within `ccrlink (r_i + r_j)^2` and the table has room; then appends exactly one record with target `j` and rest length `d * cshlink`; a rejection changes nothing |
| Dem.Simulation.LinkAll | dem.c:613-630 | `bmm_dem_link` returns true; the tables and the draws used are those of `bmm_dem_link_pair` applied in loop order to the pairs `i < j` (brute force) or to each live particle with its list entries (cached); so every new bond targets a later particle, never twice the same one, or a listed neighbour, and the tables from `n` on are unchanged |
| Dem.Simulation.LinkUpper | dem.c:615-618 | the brute-force loops leave the tables and draw count of offering the pairs `i < j` in order |
| Dem.Simulation.LinkUpperRow | dem.c:617-618 | the inner brute-force loop leaves the tables and draw count of offering `(i, j)` for `i < j < n` in order |
| Dem.Simulation.LinkListed | dem.c:621-624 | the cached loops leave the tables and draw count of offering each live particle with its list entries in order |
| Dem.Simulation.LinkListedRow | dem.c:623-624 | the inner cached loop leaves the tables and draw count of offering `i` with each entry of its list in order |
| Dem.Simulation.OfferBond | dem.c:618 | one call of `bmm_dem_link_pair` in the loops: the tables become those of `Offer`, and the stream moves on by two draws exactly when a beam bond is accepted |
| Dem.Simulation.Unlink | dem.c:632-637 | sets the bond count of every live particle to zero, and of no other |
| Dem.Simulation.ForcePairs | dem.c:480-493 | the pairs handed to the pair force are the pairs `i < j` (brute force) or each live particle with its list entries (cached) |
| Dem.Simulation.AllPairs | dem.c:481-484 | the brute-force pair loops produce the pairs `i < j` in order |
| Dem.Simulation.ListedPairs | dem.c:487-490 | the cached pair loops produce each row's entries in order |
| Dem.Simulation.CachedPairsEligible | dem.c:487-490 | with a built cache every pair the cached loops visit is eligible |
| Dem.Simulation.Refresh | dem.c:995-1000 | rebuilds exactly when stale or expired, recording the time of a successful rebuild; otherwise the cache is untouched |
| Dem.Simulation.Step | dem.c:968-1013 | a failed rebuild returns false before the clock moves; success advances `t` by `dt` and `istep` by one |

## Left out

- Physics in `dem.c` is left out: the force laws, the integrators (`bmm_dem_predict`, `bmm_dem_correct`, `bmm_dem_integ_euler`), `bmm_dem_stab` and the estimators. They are floating-point numerics. `Dem.Simulation.Step` keeps only the cache gate and the clock update around them.
- Dem.Simulation.Step: the expiry test `bmm_dem_cache_expired` is the boolean parameter `expired`, and the stage time step is the parameter `dt`. The expiry test is float-based.
- Dem.Simulation.Step: the script-mode switch at the top of `bmm_dem_step` (particle creation by `bmm_dem_script_create_hc`) is not modelled. It uses random numbers and float volumes.
- Dem.Simulation.LinkPair: the two `gsl_rng_uniform` draws are the parameters `u` and `w`. `LinkAll` takes them from a stream `draws`, two for each accepted beam bond, in loop order; the generator itself is not modelled.
- C `double` is modelled as Dafny's exact `real`: rounding, overflow to infinity and NaN are not modelled. This affects `DemSpec.NewBond`, `DemSpec.Offer`, `DemSpec.Bonds`, `Dem.Simulation.LinkPair`, `DemSpec.CellCoord`, the eligibility test (`DemSpec.Elig`, `Dem.Simulation.Eligible`, where a NaN `cpdist2` makes `> rcutoff^2` false in C, so the particle is listed), the inertia cache (`Dem.Simulation.CacheJ`) and the clock update of `Dem.Simulation.Step` (`t + dt`). For example, a NaN separation makes `d2 > r2 * ccrlink` false in C, so `bmm_dem_link_pair` accepts the bond, while the model compares reals and has no NaN.
- ScalarSint.RemtOvf: models `remt_ovf` as written (always false); its ensures states only that the remainder never leaves the type. It does not promise that `remt` avoids undefined behaviour; `RemtOvfChecked` is the corrected check (see Findings).
- The geometry helpers are fields of `Geometry` with only the ranges the tables rely on: `bmm_fp_lerp`, `bmm_geom2d_cpdist2`, `bmm_geom2d_dir`, `bmm_geom2d_redir`, `sqrt`, `bmm_neigh_ncpij`, `bmm_neigh_icpij` and `bmm_geom_ballprmoi`. Their code is not part of this model. `Geometry.Valid` asks only that `bmm_neigh_icpij` name a cell of the grid for cell vectors inside the grid, the only ones the cache passes.
- The neighbourhood mask of `addfrom`/`addto` is fixed to the upper half used by `bmm_dem_cache_build`.
- Dem.Simulation.AddPart: `BMM_MPART` and `BMM_NPART` are one capacity, `npart`.
- Dem.Simulation.AddPart: like the C code, it does not reset the bond count of the reused slot. A particle appended into a slot whose bonds were left behind inherits them.
- `part.lnew` and `time.istep` are unbounded integers. Their `size_t` wrap-around is not modelled.
- Dem.Simulation.AddFrom: the C comment calls the cache "undefined" after a failure. The model says only that the failed list is full and is a prefix of the candidates. The other lists are unchanged.
- Dem.Simulation.AddTo: after a failure, the model says only that no list shrank.
- Serialisation, I/O, the run loop, signal handling, `tle.c`, `bmm-sdl.c`, `strs.c`, `msg.h` and `msgs.h` are not part of this model.
- `common.h` only instantiates the headers. Its instances appear here as explicit `IntType` bounds.
- The `double` instances of `bmm_wrap`/`bmm_uwrap` used by some tests are not modelled. Only integer types are.
- CommonUint.Unhc and CommonUint.Unhcd state the result modulo `max + 1`, because the C accumulator may overflow when the cell count does not fit the type.

## Findings

| source | as written | input that shows it | evidently intended | confidence | as-written member | corrected member |
|---|---|---|---|---|---|---|
| common_sint.h:18 | `x / y` is formed for every non-zero divisor | `bmm_quot(INT_MIN, -1)`: the quotient `-INT_MIN` does not fit `int`, which is undefined, although the comment promises no overflow; for `signed char`, `bmm_quot(SCHAR_MIN, -1)` stores 128, an implementation-defined conversion, and no `signed char` pair is right. The exhaustive test at tests.c:75-87 does not catch this: it compares `qr.quot * y + qr.rem` with `x` through `cheat_assert_signed_char`, which plausibly converts the `int` value 128 back to -128 | exclude or special-case `MIN / -1` | not executed | CommonSint.QuotAsWrittenOverflowsAtMinusOne | CommonSint.Quot |
| common_sint.h:20-21 | the fix-up computes `s * y` with `s = -1` when `y < 0` | `bmm_quot(-1, INT_MIN)`: `s * y == -INT_MIN` overflows, though the Euclidean result `(1, INT_MAX)` fits | add or subtract `y` instead of forming `s * y` | not executed | CommonSint.QuotAsWrittenOverflowsAtMinDivisor | CommonSint.Quot |
| common_sint.h:49 | the difference `b - a` is formed in the operand type and only then widened to `long long` | `bmm_wrap(-3, -2, INT_MAX)`: `INT_MAX + 2` overflows `int`, which is undefined, although the wrapped value `INT_MAX - 1` fits | form the difference in `long long`: `(long long) b - a` | not executed | CommonSint.WrapAsWrittenOverflows | CommonSint.Wrap |
| scalar_sint.h:58-64 | `remt_ovf` always returns false, so `remt` evaluates `x % y` at scalar_sint.h:153 for every non-zero divisor | `remt(INT_MIN, -1)`: C11 section 6.5.5 leaves `INT_MIN % -1` undefined because `INT_MIN / -1` is not representable | report overflow where `quott_ovf` does | not executed | ScalarSint.RemtUndefinedAtMinusOne | ScalarSint.RemtChecked |
