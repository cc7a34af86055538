# A verified model of the bookkeeping of `poisson`

`poisson` generates Poisson-disk distributions in the unit hypercube with the
hierarchical method of Gamito and Maddock. This project models its
integer and list bookkeeping in Dafny and proves properties of the model:

- **Cell addressing.** `encode` maps a D-dimensional whole-number cell
  coordinate to a flat index in a `side^D` array, first component most
  significant. In non-periodic mode it rejects components outside
  `[0, side)`; in periodic mode it wraps them with a non-negative modulo.
  `decode` is its inverse, and `get_parent` floors each component divided by
  `2^level`.
- **Combination enumeration.** `each_combination` / `CombiIter` is a counter
  whose base-`len` digits, least significant first, pick the components.
- **In-place flat-map.** `flat_map_inplace` walks a vector from the back,
  swap-removing each element and pushing its images.
- **Grids.** The slot grid of `lib.rs` (`Vec<Option<V>>`) and the bucket grid
  of `utils` (`Vec<Vec<V>>`) are both addressed only through `encode`.
- **The generator.** `generate` seeds the candidate list with every top-level
  cell. It then runs `throw_samples` (darts at random candidates, writing
  samples into empty top-level slots) and `subdivide` (replacing each
  candidate by its uncovered children), level by level, up to
  `f64::MANTISSA_DIGITS`. Finally it appends the occupied slots to the
  caller's vector. The grid only grows: no sample is overwritten, each
  sample lies in the top-level cell of its slot, and each was tested with
  `far` against the samples around it that were placed before it. The loop
  also makes progress. The first dart always leaves a sample in the grid.
  Every cell of the final level is settled (its top-level slot holds a
  sample, or one of its ancestors at level 1 or deeper was dropped as
  covered) unless the loop stopped at level 53 with candidates left. Those
  are the only cells that may still be pending, and none of them is
  covered.

Layout:

- `arith.dfy` (module `Arith`): powers and facts about Euclidean division.
- `wrappers.dfy` (module `Wrappers`): `Option`.
- `utils.dfy` (module `Utils`): `src/utils/mod.rs`.
- `poisson.dfy` (module `Poisson`): `src/lib.rs`.

The two source files are parallel versions of the same helpers: `utils`
uses `Type::{Normal, Perioditic}` where `lib.rs` uses a `bool`.
`Utils.Encode`, `Utils.Decode` and `Utils.GetParent` are the pure reference
definitions. The loops of `lib.rs` are methods proved equal to them.
Coordinates are `seq<int>`: the source stores whole numbers in their `f64`
components, which are exact below 2^53 (see "## Left out"). Sample positions are `seq<real>`.

Random choices are nondeterministic (`:|`). The candidate index lies in
`[0, len)` and the place in `[0, 1)`. The floating-point distance tests are
two functions the generator is built with:

- `far(v, c)` stands for `sqdist(v, c) >= (2r)^2`;
- `cellCovered(v, i, k)` stands for `is_cell_covered`.

The 5^D ring scan that uses them (`is_disk_free`, `covered`) is modelled
as written.

## Model

| member | source | states |
|---|---|---|
| Utils.Wrapped | src/utils/mod.rs:74-79 | periodic wrapping keeps the length and puts every component in `[0, side)` |
| Utils.ValueBound | src/utils/mod.rs:90-92 | the mixed-radix value of in-grid digits is a valid index: `0 <= value < side^D` |
| Utils.EncodeFromValue | src/utils/mod.rs:72-92 | loop invariant of `encode`: after `n` components the accumulator is the value of the first `n` digits times `side`, and the rest of the loop yields the reference index `CellIndex` |
| Utils.Encode | src/utils/mod.rs:67-93 | `encode` equals the reference index; `None` exactly in `Normal` mode when some component is `< 0` or `>= side`; otherwise the index is `< side^D` |
| Utils.DecodeFromValue | src/utils/mod.rs:104-111 | the loop of `decode` on an index below `side^n` yields `n` in-grid digits whose value is that index |
| Utils.DecodeFromOfValue | src/utils/mod.rs:104-111 | the loop of `decode` on the value of in-grid digits gives back the digits |
| Utils.Decode | src/utils/mod.rs:95-112 | `None` exactly when `index >= side^dim`; otherwise `dim` in-grid components that `encode` maps back to `index` |
| Utils.DecodeEncode | src/utils/mod.rs:114-126 | round trip: `decode(encode(c))` is `c` for every in-grid `c` |
| Utils.EncodeDecode | src/utils/mod.rs:95-112 | round trip: `encode(decode(i))` is `i` for every `i < side^dim` |
| Utils.PeriodicEncodeShift | src/utils/mod.rs:75-80 | in periodic mode, adding a multiple of `side` to a component leaves the index unchanged |
| Utils.PeriodicEncodeIsWrapped | src/utils/mod.rs:75-80 | a periodic index is the non-periodic index of the wrapped coordinate, so it is never `None` |
| Utils.InGridEncodeEither | src/utils/mod.rs:75-80 | an in-grid coordinate has the same index in both modes, since wrapping leaves it unchanged |
| Utils.GetParent | src/utils/mod.rs:250-259 | `get_parent` keeps the number of components; its floor bracket and uniqueness are `ParentBracket` and `ParentUnique` |
| Utils.ParentBracket | src/utils/mod.rs:250-259 | each component of a cell at `level` lies between `2^level` times its parent's component and `2^level` times the next one |
| Utils.ParentUnique | src/utils/mod.rs:250-259 | `get_parent` is the only coarse cell whose bracket contains the cell |
| Utils.ParentOfParent | src/utils/mod.rs:250-259 | coarsening by `k1` and then by `k2` levels is coarsening by `k1 + k2` |
| Utils.Grid.constructor | src/utils/mod.rs:31-44 | a bucket grid with `side^dim` empty buckets |
| Utils.Grid.Cells | src/utils/mod.rs:54-56 | the number of buckets is `side^dim` |
| Utils.Grid.Get | src/utils/mod.rs:46-48 | `None` exactly when `encode` rejects the index; otherwise the bucket at the encoded index |
| Utils.Grid.GetMut | src/utils/mod.rs:50-52 | found exactly when `get` finds the bucket; only that bucket changes |
| Utils.Combination | src/utils/mod.rs:293-303 | the `k`-th vector has `dim` components, each drawn from `choices` |
| Utils.AllCombinations | src/utils/mod.rs:309-320 | `each_combination` yields `len^dim` vectors |
| Utils.AllCombinationsShape | src/utils/mod.rs:293-303 | every yielded vector has `dim` components drawn from `choices` |
| Utils.CombinationComponent | src/utils/mod.rs:293-303 | component `n` of the `k`-th vector is `choices[(k / len^n) % len]` |
| Utils.CombinationInjective | src/utils/mod.rs:287-306 | with distinct choices, different counters below `len^dim` yield different vectors |
| Utils.CombinationOnto | src/utils/mod.rs:287-306 | every vector over `choices` is the `k`-th one for some `k < len^dim` |
| Utils.AllCombinationsExactlyOnce | src/utils/mod.rs:309-320 | with distinct choices, every vector over `choices` is yielded exactly once |
| Utils.CombiIter.constructor | src/utils/mod.rs:310-320 | `each_combination` starts the counter at zero |
| Utils.CombiIter.Next | src/utils/mod.rs:287-306 | below `len^dim`, yields the `cur`-th vector and advances; from then on `None` and the counter stays put |
| Utils.ExtendCombinations | src/lib.rs:245 | `extend` pushes every vector the iterator still yields, in order, and leaves it exhausted |
| Utils.FlatMapMember | src/utils/mod.rs:356 | something is in the flat-map exactly when it is an image of some element |
| Utils.FlatMapLength | src/utils/mod.rs:356 | with at most `m` images per element, the flat-map has at most `m` times as many elements |
| Utils.Vec.Push | src/utils/mod.rs:337 | `push` appends |
| Utils.SwapRemoved | src/utils/mod.rs:336 | the contents after `swap_remove(i)` are one shorter, keep the prefix before `i`, and lose exactly one copy of element `i` |
| Utils.Vec.SwapRemove | src/utils/mod.rs:336 | `swap_remove(i)` returns element `i`, moves the last element into its place, keeps the prefix before `i` and removes one copy from the multiset |
| Utils.Vec.PushAll | src/utils/mod.rs:336-338 | the inner loop appends the images in order |
| Utils.FlatMapInplaceStep | src/utils/mod.rs:335-339 | one step of the outer loop keeps the invariant: prefix untouched, the rest a multiset-permutation of the flat-map of the processed elements |
| Utils.Vec.FlatMapInplace | src/utils/mod.rs:330-341 | the result is a permutation of the flat-map of `f` over the original elements, and `f` is applied once per element, last first |
| Utils.MappingInplaceWorks | src/utils/mod.rs:343-358 | the test: the result has the multiset `{1, 2, 3, 4, 5, 6}`, the flat-map of `1..6` under the test's closure |
| Poisson.Encode | src/lib.rs:381-393 | the loop computes `Utils.Encode`; `None` exactly for a non-periodic coordinate outside the grid; otherwise an index `< side^D` |
| Poisson.Decode | src/lib.rs:396-410 | the loop computes `Utils.Decode` (see its round trips) |
| Poisson.GetParent | src/lib.rs:437-448 | always `Some`, the floored quotient by `2^level`; the `top_lvl_side` check is commented out |
| Poisson.EncodingDecodingWorks | src/lib.rs:412-416 | `decode(encode((10, 7), 15), 15) == (10, 7)` |
| Poisson.EncodingDecodingAtEdgeWorks | src/lib.rs:418-422 | `decode(encode((14, 14), 15), 15) == (14, 14)` |
| Poisson.EncodingOutsideOfAreaFails | src/lib.rs:424-430 | `encode` of `(9, 7)` and `(7, 9)` with side 9 is `None` |
| Poisson.DecodingOutsideOfAreaFails | src/lib.rs:432-435 | `decode(100, 10)` in two dimensions is `None` |
| Poisson.GettingParentWorks | src/lib.rs:450-461 | the parent of `(16, 47)` at level 4 is `(1, 2)` |
| Poisson.GettingParentOutsideOfArea | src/lib.rs:463-474 | the parent of `(16, 63)` at level 4 is `Some((1, 3))`, not the `None` the test expects |
| Poisson.ExtendedMember | src/lib.rs:212-217 | a sample is appended exactly when its position occupies a slot and its radius is the generator's |
| Poisson.Grid.constructor | src/lib.rs:184-194 | `side^dim` slots, all empty |
| Poisson.Grid.Cells | src/lib.rs:208-210 | the number of slots is `side^dim` |
| Poisson.Grid.Get | src/lib.rs:200-202 | `None` exactly for a non-periodic index outside the grid; otherwise the slot at the encoded index |
| Poisson.Grid.GetMut | src/lib.rs:204-206 | with the `swap` at line 290: returns what `get` returned, writes `value` into that one slot, and changes nothing when `encode` rejects the index |
| Poisson.Grid.GetParent | src/lib.rs:196-198 | the unwrapped `get_parent` is the floored quotient by `2^level` |
| Poisson.Grid.IntoExtendedSamples | src/lib.rs:212-217 | appends one sample per occupied slot, in slot order, after the existing ones |
| Poisson.Spacing | src/lib.rs:356-357 | the cell width at `level` times `2^level` is the top-level width, and it is positive |
| Poisson.SpanStep | src/lib.rs:358-362 | adding `place * spacing`, with `place` in `[0, 1)`, to the corner of a span stays in that span |
| Poisson.ChooseRandomSample | src/lib.rs:350-364 | the sample lies inside cell `index` at `level` |
| Poisson.InSpanCoarse | src/lib.rs:356-357 | a point of one of the `k` fine spans of a coarse span lies in the coarse span |
| Poisson.InCellParent | src/lib.rs:356-362 | a sample of cell `i` at `level` lies in the top-level cell `get_parent(i, level)`, whose slot it is written into |
| Poisson.RandomPointIsBetweenRightValuesTopLvl | src/lib.rs:366-379 | a sample of the top-level cell at the origin has both components in `[0, cell)` |
| Poisson.Ceil | src/lib.rs:276 | `ceil` is the least whole number not below `x` |
| Poisson.Throws | src/lib.rs:276 | the number of throws is at least `a * len`; less than `a * len + 1` when `a * len` is positive; zero when it is not, as the cast to `usize` saturates |
| Poisson.Range | src/lib.rs:244 | the choices are `0, 1, ..., side - 1` in order, so exactly the whole numbers in `[0, side)` |
| Poisson.ModShiftBack | src/utils/mod.rs:75-80 | wrapping `x + t` and stepping back by `t` wraps back to an in-grid `x` |
| Poisson.WrappedBack | src/utils/mod.rs:75-80 | the same for whole coordinates: wrap `c + t`, add `-t`, wrap again, and the in-grid `c` comes back |
| Poisson.ChildParent | src/lib.rs:302-309 | a child `2i + t`, `t` in `{0,1}^D`, at `level + 1` has the same top-level cell as `i` at `level` |
| Poisson.PoissonGen.constructor | src/lib.rs:169-174 | the generator holds its radius, periodicity and derived geometry |
| Poisson.PoissonGen.ParentSlot | src/lib.rs:280-281 | a candidate's top-level cell is encoded to a slot `< side^D` |
| Poisson.PoissonGen.SlotCell | src/lib.rs:200-202 | the cell that `decode` gives for slot `j` is in the grid and `encode`s back to `j` in the generator's mode |
| Poisson.PoissonGen.ParentSlotCell | src/lib.rs:280-281 | the top-level slot of a candidate is the slot of its `get_parent` cell |
| Poisson.PoissonGen.Ring | src/lib.rs:315 | the ring of offsets has `5^D` vectors of `D` components |
| Poisson.PoissonGen.AroundSymmetric | src/lib.rs:311-327 | slot `k` is among the 5^D slots scanned around the cell of slot `j` exactly when `j` is among those around `k`, in both addressing modes |
| Poisson.PoissonGen.RingNegated | src/lib.rs:315 | the offsets `{-2..2}^D` are closed under negation |
| Poisson.PoissonGen.AroundBack | src/lib.rs:316 | stepping from an in-grid cell by an offset to a slot and back by the negated offset returns to the cell's slot, wrapping in periodic mode |
| Poisson.PoissonGen.Neighbour | src/lib.rs:316-317 | the `filter_map` chain: a neighbour found is a sample of the grid, and a non-periodic cell outside the grid gives none |
| Poisson.PoissonGen.IsDiskFree | src/lib.rs:311-319 | `is_disk_free` holds exactly when the sample is `far` from the sample of every occupied slot around its top-level cell |
| Poisson.PoissonGen.Covered | src/lib.rs:321-327 | `covered` holds exactly when the sample of some occupied slot around the top-level cell covers the cell at `level` |
| Poisson.PoissonGen.DiskFreeScan | src/lib.rs:315-318 | the ring scan of `is_disk_free` finds every neighbour `far` exactly when the sample of every occupied slot around the cell is `far` |
| Poisson.PoissonGen.CoveredScan | src/lib.rs:323-326 | the ring scan of `covered` finds a covering neighbour exactly when the sample of some occupied slot around the cell covers it |
| Poisson.PoissonGen.NeighbourSlot | src/lib.rs:316-317 | every neighbour the scan finds is the sample of an occupied slot around the cell |
| Poisson.PoissonGen.SlotNeighbour | src/lib.rs:316-317 | every occupied slot around the cell is found by the scan at some offset |
| Poisson.PoissonGen.NeighbourAt | src/lib.rs:316-317 | the neighbour at offset `t` is the sample in the slot that `parent + t` encodes to |
| Poisson.PoissonGen.Offsets | src/lib.rs:303-306 | there are `2^D` offsets, all child cells of `i` |
| Poisson.PoissonGen.OffsetsMember | src/lib.rs:303-306 | the offsets are exactly the child cells of `i` |
| Poisson.PoissonGen.Uncovered | src/lib.rs:307 | the filter keeps at most the cells it is given |
| Poisson.PoissonGen.UncoveredMember | src/lib.rs:307 | a cell survives the filter exactly when it is given and not covered |
| Poisson.PoissonGen.Children | src/lib.rs:304-308 | each candidate has at most `2^D` children |
| Poisson.PoissonGen.ChildrenOf | src/lib.rs:304-308 | the closure accepts every `D`-component cell `i`, and `c` is among its images exactly when `c` is a child cell of `i` that is not covered at `level + 1` |
| Poisson.PoissonGen.ChildrenMember | src/lib.rs:302-309 | the children of `i` are exactly its uncovered child cells at `level + 1` |
| Poisson.PoissonGen.SubdividedIsFlatMap | src/lib.rs:302-309 | the children of the candidates, one after another, are the flat-map of the closure |
| Poisson.PoissonGen.ChildrenAreCandidates | src/lib.rs:302-309 | every child of a candidate at `level` is a candidate at `level + 1` |
| Poisson.PoissonGen.Subdivide | src/lib.rs:302-309 | the new candidates are a permutation of the uncovered children of the old ones; they are candidates at `level + 1`; none of them is covered at `level + 1`; there are at most `2^D` per old candidate |
| Poisson.PoissonGen.SubdividedUncovered | src/lib.rs:302-309 | no cell of a permutation of the subdivided list is covered at `level + 1` |
| Poisson.PoissonGen.SubdividedChildUncovered | src/lib.rs:305-307 | a cell of the subdivided list has `D` coordinates and is not covered at `level + 1` |
| Poisson.PoissonGen.GrowsTrans | src/lib.rs:246-262 | adding samples in two rounds is adding them in one: the grid growth relation composes across levels |
| Poisson.PoissonGen.GrowsWrite | src/lib.rs:287-290 | writing into an empty slot a sample of its top-level cell that is `far` from every sample around that cell keeps the grid growing |
| Poisson.PoissonGen.GrownFromEmpty | src/lib.rs:240-263 | a grid grown from the empty one holds in each occupied slot a sample of that slot's top-level cell, and any two samples in slots around each other are `far` apart one way or the other |
| Poisson.PoissonGen.ThrowStart | src/lib.rs:269-276 | the start of `throw_samples` satisfies its invariant `ThrowProgress` |
| Poisson.PoissonGen.ThrowCandidates | src/lib.rs:279 | the remaining candidates are original candidates |
| Poisson.PoissonGen.ThrowDrop | src/lib.rs:281-286 | dropping a candidate whose top-level slot is occupied keeps the invariant |
| Poisson.PoissonGen.ThrowWrite | src/lib.rs:287-296 | writing a sample of the candidate's cell with a free disk into the candidate's empty top-level slot, and dropping it, keeps the invariant |
| Poisson.PoissonGen.WriteIsSampleOf | src/lib.rs:287-290 | after the write every changed slot still holds a sample of an original candidate whose top-level slot it is |
| Poisson.PoissonGen.DropOccupied | src/lib.rs:281-291 | a candidate is dropped only once its top-level slot is occupied, and no occupied slot is emptied, so every dropped candidate's slot stays occupied |
| Poisson.PoissonGen.Throw | src/lib.rs:278-297 | one dart keeps the invariant. If the candidate's top-level slot is occupied, the candidate is swap-removed and the grid is unchanged. Otherwise, either some sample of the candidate's cell passes `is_disk_free` and is written into exactly that slot while the candidate is swap-removed, or a sample of the cell fails `is_disk_free` and nothing changes; after the dart the grid holds at least one sample |
| Poisson.PoissonGen.NotDiskFreeOccupied | src/lib.rs:311-319 | a sample that fails `is_disk_free` has an occupied slot around it, so the grid holds a sample |
| Poisson.PoissonGen.ThrowSamples | src/lib.rs:269-300 | returns `false` exactly when the list is empty; at most `ceil(a * len)` candidates are removed; the rest are a sub-multiset of the original; the grid grows (occupied slots keep their samples, each added sample lies in its slot's top-level cell and is `far` from the samples around it that were there first); every changed slot holds a sample of the cell of an original candidate whose top-level slot it is; every dropped candidate's slot is occupied; when `a > 0` the grid holds at least one sample afterwards |
| Poisson.PoissonGen.TopLevelCandidate | src/lib.rs:244-245 | every top-level cell is a candidate at level 0 |
| Poisson.PoissonGen.TopLevelSettled | src/lib.rs:244-245 | the seeded list holds every top-level cell, so before the first round every candidate cell at level 0 is pending |
| Poisson.PoissonGen.AncestorCoveredGrows | src/lib.rs:321-327 | a cell covered by a sample stays covered while every sample is kept |
| Poisson.PoissonGen.SettledGrows | src/lib.rs:246-262 | a settled cell (its top-level slot occupied, or an ancestor at level 1 or deeper covered) stays settled while every sample is kept |
| Poisson.PoissonGen.ThrowsSettle | src/lib.rs:269-300 | after `throw_samples`, every candidate cell that was pending is still pending or has its top-level slot occupied, and settled cells stay settled |
| Poisson.PoissonGen.ChildOfParent | src/lib.rs:303-306 | every cell is one of the `2^D` child cells of its parent one level up |
| Poisson.PoissonGen.SelfCovered | src/lib.rs:307 | a cell that `subdivide` drops as covered is its own covered ancestor |
| Poisson.PoissonGen.AncestorCoveredChild | src/lib.rs:304-307 | a covered ancestor of a cell's parent is a covered ancestor of the cell |
| Poisson.PoissonGen.SubdividedMember | src/lib.rs:302-309 | an uncovered child of a candidate is among the new candidates |
| Poisson.PoissonGen.KeptChild | src/lib.rs:302-309 | a child cell of a pending candidate is a new candidate unless it is covered |
| Poisson.PoissonGen.SettledParent | src/lib.rs:280-281 | a child cell of a settled cell is settled: it has the same top-level slot, and the parent's covered ancestors are its own |
| Poisson.PoissonGen.SettledChild | src/lib.rs:302-309 | after `subdivide`, every candidate cell at `level + 1` is a new candidate or settled |
| Poisson.PoissonGen.SubdivideSettles | src/lib.rs:302-309 | `subdivide` carries "every candidate cell is pending or settled" from `level` to `level + 1` |
| Poisson.PoissonGen.RefineLevel | src/lib.rs:254-259 | a round grows the grid; the candidates `rest` left by the darts are a sub-multiset of the old ones, and every dropped candidate's slot is occupied; if `rest` is empty the list is empty, otherwise the new list is a permutation of the uncovered children of `rest`, all candidates at `level + 1`; if every candidate cell at `level` was pending or settled before the round, then every one at `level + 1` is pending or settled after it, or, when no candidate is left, every one at `level` is settled; the new candidates are not covered at `level + 1`; the grid holds at least one sample |
| Poisson.PoissonGen.Round | src/lib.rs:254-259 | a round keeps what the level loop relies on (`LoopKeeps`), one level down when candidates are left and at the same level, with none left, otherwise: the candidates are candidates at that level, the grid grows from the start, "pending or settled" carries over as in `RefineLevel`, the candidates past level 0 are not covered, and the grid holds a sample |
| Poisson.PoissonGen.Refine | src/lib.rs:246-262 | the level loop terminates; it ends at a level `<= 53` with no candidates left, or at level 53; the grid only grows; if every candidate cell at level 0 is pending at the start, every candidate cell at the final level is still pending or settled (its top-level slot holds a sample, or an ancestor at level 1 or deeper is covered); no candidate left at the end is covered; if the list was not empty at the start, the grid holds at least one sample |
| Poisson.PoissonGen.Generate | src/lib.rs:236-264 | the output is the old points followed by one sample per occupied slot of the final `side^D` grid; each slot holds a sample of its own top-level cell; two samples in slots around each other are `far` apart; the final level is at most 53; no candidate is left (`remaining` is empty) unless the level reached 53, and every candidate cell at the final level is in `remaining` or settled; no cell of `remaining` is covered; the grid holds at least one sample |

## Left out

- Floating-point geometry is not modelled: `Grid::new`'s `cell = 2r / sqrt(D)` and `side = floor(1 / cell)`. The width `cell > 0` and the count `side >= 1` are parameters of the grids and the generator.
- The distance tests `sqdist`, `is_cell_covered`, `is_valid` and the float arithmetic inside `is_disk_free` and `covered` are left out. They are the abstract functions `far` and `cellCovered`. So the minimum-separation and maximality guarantees, which rest on real geometry, are not proved.
- Randomness (`Range::ind_sample`, `f64::rand`) is nondeterministic choice, so no distribution is modelled.
- `utils::choose_random_sample`, `sample_to_index` and `index_to_sample` (src/utils/mod.rs:141-202) are float scaling and are not modelled. The `lib.rs` version of `choose_random_sample` is.
- `Poisson.ChooseRandomSample`: sample positions are exact reals. In `f64`, `index * spacing + place * spacing` with `place` just below 1 can round up to the cell's upper edge, and at deep levels the offset can be lost entirely, so `InCell` (and the test's `result.x < grid.cell`) is proved for the exact arithmetic only.
- `Poisson.Throws`: the rounding of `0.3 * len` in `f64` is not modelled; the product is exact.
- `Poisson.Encode`, `Utils.Encode`: `usize` overflow of `(index + cur) * side` is not modelled; indices are unbounded.
- `Poisson.PoissonGen.Offsets`, `Poisson.PoissonGen.Subdivide`: child coordinates are exact integers. The source computes them in `f64` as `n + i * 2.` (src/lib.rs:306), which is exact only up to 2^53. The level loop stops at `f64::MANTISSA_DIGITS` (53) whatever `side` is, yet coordinates at level `L` reach `side * 2^L`. Once `side * 2^(level + 1)` exceeds 2^53, an odd child coordinate can round to its even neighbour. For example, with `side` 3 at level 51, the parent coordinate `3 * 2^51 - 1` has the child `3 * 2^52 - 1`, which rounds to `3 * 2^52`, outside the grid. `grid.get(parent).unwrap()` then panics in a non-periodic grid, and the child lands in the wrong cell in a periodic one. `ChildrenAreCandidates` and `ChildParent` hold for the exact arithmetic only.
- `Poisson.GetParent`: the `f64` division and `floor` are modelled as exact floor division of whole numbers.
- `Poisson.PoissonGen.Generate`: the doc comment at src/lib.rs:234-235 promises a result that respects the samples already in `points`, but the code never loads them into the grid. The model follows the code. Beyond the slot bookkeeping (each sample in its own cell, neighbouring samples `far` apart, at least one sample, every cell at the final level settled or still pending and uncovered), it does not state that the result is a maximal Poisson-disk set, because `far` and `cellCovered` are abstract.
- `Poisson.PoissonGen.RefineLevel` relates the surviving candidates to the old ones by a sub-multiset and the occupied-slot fact, not by the whole `ThrowProgress` of `ThrowSamples`. Proving the full invariant through the level loop is too costly for the verifier.
- `Poisson.PoissonGen.Generate`, `Poisson.PoissonGen.ThrowSamples`: a sample is tested only against the samples around it that were placed before it, so the separation is stated as `far` in one direction or the other; `far` itself is not assumed symmetric.
- Builder and configuration plumbing (`PoissonDisk::new`, `perioditic`, `build_*`, `set_radius`, `math::calc_radius`) is not modelled. Neither are the `VecLike`/`Vector` trait bundles and the `side()`/`cell()` accessors of the bucket grid.
- src/test/dim3.rs (seeded end-to-end runs) is not part of this model.
- `Utils.MappingInplaceWorks`: the source's `expected.sort() == result.sort()` compares the `()` results of `sort` and so checks nothing. The model states the intended multiset equality instead.
- `Poisson.GettingParentOutsideOfArea`: the check against `top_lvl_side` in `get_parent` is commented out (marked as a to-do), so the source's test `getting_parent_outside_of_area_fails` expects a `None` the code never returns. The model follows the code and states the parent it returns.
- `Utils.GetParent` states only the length in its own contract; the floor bracket and its uniqueness are the lemmas `ParentBracket` and `ParentUnique`.

