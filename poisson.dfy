/** The sampler itself (src/lib.rs): the loops of `encode`, `decode` and
    `get_parent`, the occupancy grid and the level-by-level driver of
    `PoissonGen` (`generate`, `throw_samples`, `subdivide`).

    Grid coordinates are whole numbers (`seq<int>`); sample positions are
    `Point`s of reals. The distance tests are the abstract predicates `far`
    and `cellCovered` of a `PoissonGen`, and random choices are
    nondeterministic. */
module Poisson {
  import opened Arith
  import opened Wrappers
  import Utils

  /** `f64::MANTISSA_DIGITS`, the bound on the refinement level. */
  const MantissaDigits: nat := 53

  /** A sample position, one real per dimension. */
  type Point = seq<real>

  /** The `bool` periodicity flag of this file as the `Type` of the helpers. */
  function TypeOf(periodicity: bool): Utils.Type
  {
    if periodicity then Utils.Perioditic else Utils.Normal
  }

  // ---------------------------------------------------------------------
  // Cell addressing
  // ---------------------------------------------------------------------

  /** `encode`: the loop `index = (index + cur) * side` over the components,
      with `cur` wrapped into `[0, side)` in periodic mode and the
      coordinate rejected outside `[0, side)` otherwise; `index / side` at
      the end. It computes the reference index `Utils.CellIndex`. */
  method Encode(v: seq<int>, side: nat, periodicity: bool) returns (r: Option<nat>)
    requires side > 0 || (!periodicity && |v| > 0)
    ensures r == Utils.CellIndex(v, side, TypeOf(periodicity))
    ensures r.None? <==> !periodicity && !Utils.InGrid(v, side)
    ensures r.Some? ==> r.value < Pow(side, |v|)
  {
    ghost var ds := Utils.Digits(v, side, TypeOf(periodicity));
    var index: int := 0;
    var n := 0;
    while n < |v|
      invariant 0 <= n <= |v|
      invariant !periodicity ==> Utils.InGrid(v[..n], side)
      invariant index == Utils.Value(ds[..n], side) * side
    {
      var cur: int;
      if periodicity {
        cur := v[n] % side;
      } else if v[n] < 0 || v[n] >= side {
        assert !Utils.InGrid(v, side);
        return None;
      } else {
        cur := v[n];
      }
      assert Utils.Value(ds[..n + 1], side) == Utils.Value(ds[..n], side) * side + cur by {
        assert cur == ds[n];
        assert ds[..n + 1][..n] == ds[..n];
      }
      if !periodicity {
        assert Utils.InGrid(v[..n + 1], side) by {
          assert v[..n + 1] == v[..n] + [v[n]];
        }
      }
      index := (index + cur) * side;
      n := n + 1;
    }
    var value := Utils.Value(ds, side);
    assert index == value * side by {
      assert ds[..n] == ds;
    }
    assert !periodicity ==> Utils.InGrid(v, side) by {
      assert v[..n] == v;
    }
    assert 0 <= value < Pow(side, |v|) by {
      Utils.ValueBound(ds, side);
    }
    assert index / side == value by {
      DivModUnique(index, side, value, 0);
    }
    r := Some(index / side);
  }

  /** `decode`: `None` past the end of a `side^dim` array; otherwise the
      components from the last one back, each `last - (last / side) * side`
      with `last` divided by `side` in between. */
  method Decode(index: nat, side: nat, dim: nat) returns (r: Option<seq<int>>)
    ensures r == Utils.Decode(index, side, dim)
  {
    if index >= Pow(side, dim) {
      return None;
    }
    assert side > 0 || dim == 0 by {
      if side == 0 && dim > 0 { PowZeroBase(dim); }
    }
    var result := seq(dim, _ => 0);
    var last: int := index;
    var n := dim;
    while n > 0
      invariant 0 <= n <= dim && |result| == dim
      invariant Utils.DecodeFrom(last, side, n) + result[n..] == Utils.DecodeFrom(index, side, dim)
    {
      var cur := last / side;
      var value := last - cur * side;
      assert Utils.DecodeFrom(last, side, n) == Utils.DecodeFrom(cur, side, n - 1) + [value];
      result := result[n - 1 := value];
      assert result[n - 1..] == [value] + result[n..];
      last := cur;
      n := n - 1;
    }
    assert result[0..] == result;
    assert result == Utils.DecodeFrom(index, side, dim);
    r := Some(result);
  }

  /** `get_parent`: each component divided by `2^level` and floored. The
      check against `top_lvl_side` is commented out in the source, so the
      result is never `None`. */
  method GetParent(index: seq<int>, level: nat, topLvlSide: nat) returns (r: Option<seq<int>>)
    ensures r == Some(Utils.GetParent(index, level))
  {
    var split := Pow(2, level);
    PowPositive(2, level);
    var p := index;
    for n := 0 to |index|
      invariant |p| == |index|
      invariant p[..n] == Utils.GetParent(index, level)[..n]
      invariant p[n..] == index[n..]
    {
      assert p[n] == index[n];
      p := p[n := p[n] / split];
      assert p[..n + 1] == p[..n] + [p[n]];
    }
    assert p[..|index|] == p;
    assert Utils.GetParent(index, level)[..|index|] == Utils.GetParent(index, level);
    r := Some(p);
  }

  /** The round trip of the test `encoding_decoding_works`. */
  method EncodingDecodingWorks() returns (r: Option<seq<int>>)
    ensures r == Some([10, 7])
  {
    var i := Encode([10, 7], 15, false);
    assert Utils.InGrid([10, 7], 15);
    Utils.DecodeEncode([10, 7], 15);
    r := Decode(i.value, 15, 2);
  }

  /** The round trip of the test `encoding_decoding_at_edge_works`. */
  method EncodingDecodingAtEdgeWorks() returns (r: Option<seq<int>>)
    ensures r == Some([14, 14])
  {
    var i := Encode([14, 14], 15, false);
    assert Utils.InGrid([14, 14], 15);
    Utils.DecodeEncode([14, 14], 15);
    r := Decode(i.value, 15, 2);
  }

  /** The test `encoding_outside_of_area_fails`. */
  method EncodingOutsideOfAreaFails() returns (r1: Option<nat>, r2: Option<nat>)
    ensures r1 == None && r2 == None
  {
    r1 := Encode([9, 7], 9, false);
    assert !Utils.InGrid([7, 9], 9) by { assert [7, 9][1] == 9; }
    r2 := Encode([7, 9], 9, false);
  }

  /** The test `decoding_outside_of_area_fails`. */
  method DecodingOutsideOfAreaFails() returns (r: Option<seq<int>>)
    ensures r == None
  {
    r := Decode(100, 10, 2);
  }

  /** The test `getting_parent_works`: `(1, 2) * 16 + (0, 15)` at level 4. */
  method GettingParentWorks() returns (r: Option<seq<int>>)
    ensures r == Some([1, 2])
  {
    r := GetParent([16, 47], 4, 3);
    ParentUniqueAt([16, 47], 4, [1, 2]);
  }

  /** The test `getting_parent_outside_of_area_fails` expects `None` for
      `(1, 3) * 16 + (0, 15)`, but the code returns the parent `(1, 3)`. */
  method GettingParentOutsideOfArea() returns (r: Option<seq<int>>)
    ensures r == Some([1, 3])
  {
    r := GetParent([16, 63], 4, 3);
    ParentUniqueAt([16, 63], 4, [1, 3]);
  }

  /** A two-component parent checked by its floor bracket. */
  lemma ParentUniqueAt(index: seq<int>, level: nat, r: seq<int>)
    requires |index| == 2 && |r| == 2
    requires r[0] * Pow(2, level) <= index[0] < (r[0] + 1) * Pow(2, level)
    requires r[1] * Pow(2, level) <= index[1] < (r[1] + 1) * Pow(2, level)
    ensures Utils.GetParent(index, level) == r
  {
    Utils.ParentUnique(index, level, r);
  }

  // ---------------------------------------------------------------------
  // Samples and the occupancy grid
  // ---------------------------------------------------------------------

  /** `Sample`: a position and the radius of the disk around it. */
  datatype Sample = Sample(pos: Point, radius: real)

  /** Componentwise sum of two coordinates, as `V + V`. */
  function Add(u: seq<int>, w: seq<int>): (r: seq<int>)
    requires |u| == |w|
    ensures |r| == |u| && forall n :: 0 <= n < |u| ==> r[n] == u[n] + w[n]
  {
    seq(|u|, n requires 0 <= n < |u| => u[n] + w[n])
  }

  /** The slot of cell `v` in the slots `cells` of a grid: `None` when
      `encode` rejects `v`. */
  function SlotOf(cells: seq<Option<Point>>, side: nat, periodicity: bool, v: seq<int>): Option<Option<Point>>
    requires side > 0 || (!periodicity && |v| > 0)
  {
    match Utils.Encode(v, side, TypeOf(periodicity))
    case None => None
    case Some(t) => if t < |cells| then Some(cells[t]) else None
  }

  /** The samples that `into_extended_samples` appends: one per occupied
      slot, in slot order, each with disk radius `radius`. */
  function Extended(cells: seq<Option<Point>>, radius: real): seq<Sample>
  {
    if cells == [] then []
    else
      Extended(cells[..|cells| - 1], radius) +
      match cells[|cells| - 1]
      case None => []
      case Some(v) => [Sample(v, radius)]
  }

  /** A sample is appended exactly when its position occupies a slot and its
      radius is the given one. */
  lemma {:induction false} ExtendedMember(cells: seq<Option<Point>>, radius: real, s: Sample)
    ensures s in Extended(cells, radius) <==> s.radius == radius && Some(s.pos) in cells
  {
    if cells != [] {
      var pre := cells[..|cells| - 1];
      ExtendedMember(pre, radius, s);
      assert cells == pre + [cells[|cells| - 1]];
    }
  }

  /** The grid of `lib.rs`: one optional sample per cell of a `side^dim`
      array, addressed through `encode`. `cell` is the cell width. */
  class Grid {
    const data: array<Option<Point>>
    const side: nat
    const dim: nat
    const cell: real
    const periodicity: bool

    /** `Grid::new` with the width `cell` and the count `side` per side
        already computed from the radius; every slot starts empty. */
    constructor (cell: real, side: nat, dim: nat, periodicity: bool)
      requires cell > 0.0 && side > 0 && dim > 0
      ensures this.cell == cell && this.side == side && this.dim == dim && this.periodicity == periodicity
      ensures Valid() && fresh(data)
      ensures forall j :: 0 <= j < data.Length ==> data[j] == None
    {
      this.cell := cell;
      this.side := side;
      this.dim := dim;
      this.periodicity := periodicity;
      data := new Option<Point>[Pow(side, dim)](_ => None);
    }

    predicate Valid()
    {
      data.Length == Pow(side, dim) && cell > 0.0 && side > 0 && dim > 0
    }

    /** `cells`: the number of slots. */
    function Cells(): (r: nat)
      requires Valid()
      ensures r == Pow(side, dim)
    {
      data.Length
    }

    /** `get`: the slot of cell `index`, `None` exactly when `encode`
        rejects the index (a non-periodic index outside the grid). */
    function Get(index: seq<int>): (r: Option<Option<Point>>)
      requires Valid() && |index| == dim
      reads data
      ensures r.None? <==> !periodicity && !Utils.InGrid(index, side)
      ensures r == SlotOf(data[..], side, periodicity, index)
    {
      match Utils.Encode(index, side, TypeOf(periodicity))
      case None => None
      case Some(t) => Some(data[t])
    }

    /** `get_mut` followed by `swap` with `value`, the one use the sampler
        makes of it: the slot of `index` takes `value` and its previous
        content is returned; `None`, with nothing changed, when `encode`
        rejects the index. */
    method GetMut(index: seq<int>, value: Option<Point>) returns (prev: Option<Option<Point>>)
      requires Valid() && |index| == dim
      modifies data
      ensures prev == old(Get(index))
      ensures prev.None? ==> data[..] == old(data[..])
      ensures prev.Some? ==> data[..] == old(data[..])[Utils.Encode(index, side, TypeOf(periodicity)).value := value]
    {
      var t := Utils.Encode(index, side, TypeOf(periodicity));
      if t.None? {
        return None;
      }
      prev := Some(data[t.value]);
      data[t.value] := value;
    }

    /** `get_parent(...).unwrap()`: the top-level cell of `index`. */
    method GetParent(index: seq<int>, level: nat) returns (r: seq<int>)
      ensures r == Utils.GetParent(index, level)
    {
      var p := _default.GetParent(index, level, side);
      r := p.value;
    }

    /** `into_extended_samples`: appends to `samples` one sample of radius
        `radius` per occupied slot, in slot order. */
    method IntoExtendedSamples(samples: Utils.Vec<Sample>, radius: real)
      modifies samples
      ensures samples.elems == old(samples.elems) + Extended(data[..], radius)
    {
      for j := 0 to data.Length
        invariant samples.elems == old(samples.elems) + Extended(data[..j], radius)
      {
        assert data[..j + 1][..j] == data[..j];
        match data[j] {
          case Some(v) =>
            samples.Push(Sample(v, radius));
          case None =>
        }
      }
      assert data[..data.Length] == data[..];
    }
  }

  /** `s` lies in cell `index` of a grid whose cells are `spacing` wide. */
  predicate InCell(s: Point, index: seq<int>, spacing: real)
  {
    |s| == |index| && forall n :: 0 <= n < |s| ==> InSpan(s[n], index[n], spacing)
  }

  /** `x` lies in span `i` of a line cut into spans `spacing` long. */
  predicate InSpan(x: real, i: int, spacing: real)
  {
    i as real * spacing <= x < (i + 1) as real * spacing
  }

  /** Width of the cells at `level`: the top-level width halved `level` times. */
  function Spacing(cell: real, level: nat): (r: real)
    ensures r * Pow(2, level) as real == cell
    ensures cell > 0.0 ==> r > 0.0
  {
    PowPositive(2, level);
    cell / Pow(2, level) as real
  }

  /** `choose_random_sample`: the corner `index * spacing` of the cell, with
      `place * spacing` added to each component for a random `place` in
      `[0, 1)`; the cells at `level` are `cell / 2^level` wide. */
  method ChooseRandomSample(grid: Grid, index: seq<int>, level: nat) returns (s: Point)
    requires grid.Valid()
    ensures InCell(s, index, Spacing(grid.cell, level))
  {
    var spacing := Spacing(grid.cell, level);
    s := seq(|index|, n requires 0 <= n < |index| => index[n] as real * spacing);
    for n := 0 to |index|
      invariant |s| == |index|
      invariant forall m :: 0 <= m < n ==> InSpan(s[m], index[m], spacing)
      invariant forall m :: n <= m < |index| ==> s[m] == index[m] as real * spacing
    {
      var place: real :| 0.0 <= place < 1.0;
      SpanStep(s[n], index[n], place, spacing);
      s := s[n := s[n] + place * spacing];
    }
  }

  /** Adding a fraction of the spacing to the corner of a span stays in the span. */
  lemma SpanStep(low: real, i: int, place: real, spacing: real)
    requires 0.0 <= place < 1.0 && spacing > 0.0 && low == i as real * spacing
    ensures InSpan(low + place * spacing, i, spacing)
  {
    assert place * spacing < spacing;
    assert (i + 1) as real * spacing == low + spacing;
  }

  /** A point of span `i` lies in the span `q` of a line cut into spans `k`
      times as long, when `i` is one of the `k` fine spans of `q`. */
  lemma InSpanCoarse(x: real, i: int, q: int, k: int, spacing: real)
    requires k > 0 && spacing > 0.0
    requires q * k <= i < (q + 1) * k
    requires InSpan(x, i, spacing)
    ensures InSpan(x, q, k as real * spacing)
  {
    var coarse := k as real * spacing;
    var lo, hi := (q * k) as real, ((q + 1) * k) as real;
    assert lo <= i as real && (i + 1) as real <= hi;
    RealMulMonotone(lo, i as real, spacing);
    RealMulMonotone((i + 1) as real, hi, spacing);
    assert lo * spacing == q as real * coarse by {
      ScaledProduct(q, k, spacing);
    }
    assert hi * spacing == (q + 1) as real * coarse by {
      ScaledProduct(q + 1, k, spacing);
    }
    assert q as real * coarse <= x < (q + 1) as real * coarse;
  }

  /** `(a * b) * s` computed in reals is `a * (b * s)`. */
  lemma ScaledProduct(a: int, b: int, s: real)
    ensures (a * b) as real * s == a as real * (b as real * s)
  {
    assert (a * b) as real == a as real * b as real;
  }

  lemma RealMulMonotone(a: real, b: real, c: real)
    requires a <= b && c >= 0.0
    ensures a * c <= b * c
  {
  }

  /** A point of cell `i` at `level` lies in the top-level cell of `i`, the
      cell `get_parent` gives. */
  lemma InCellParent(s: Point, i: seq<int>, level: nat, cell: real)
    requires cell > 0.0 && InCell(s, i, Spacing(cell, level))
    ensures InCell(s, Utils.GetParent(i, level), cell)
  {
    var p := Utils.GetParent(i, level);
    var spacing := Spacing(cell, level);
    Utils.ParentBracket(i, level);
    PowPositive(2, level);
    assert Pow(2, level) as real * spacing == cell;
    forall n | 0 <= n < |s| ensures InSpan(s[n], p[n], cell) {
      InSpanCoarse(s[n], i[n], p[n], Pow(2, level), spacing);
    }
  }

  /** The test `random_point_is_between_right_values_top_lvl`: a sample of
      the top-level cell at the origin has every component in `[0, cell)`. */
  method RandomPointIsBetweenRightValuesTopLvl(cell: real) returns (s: Point)
    requires cell > 0.0
    ensures |s| == 2 && 0.0 <= s[0] < cell && 0.0 <= s[1] < cell
  {
    var grid := new Grid(cell, 3, 2, false);
    s := ChooseRandomSample(grid, [0, 0], 0);
  }

  // ---------------------------------------------------------------------
  // The generator
  // ---------------------------------------------------------------------

  /** `x.ceil()`: the least whole number not below `x`. */
  function Ceil(x: real): (r: int)
    ensures r as real - 1.0 < x <= r as real
  {
    if x.Floor as real == x then x.Floor else x.Floor + 1
  }

  /** The number of throws of `throw_samples`: `(a * len).ceil() as usize`,
      where the cast takes a negative value to zero. */
  function Throws(a: real, len: nat): (r: nat)
    ensures r as real >= a * len as real
    ensures a * len as real > 0.0 ==> r as real - 1.0 < a * len as real
    ensures a * len as real <= 0.0 ==> r == 0
  {
    var c := Ceil(a * len as real);
    if c < 0 then 0 else c
  }

  /** The choices `0, 1, ..., side - 1` of the top-level cells, as
      `(0..grid.side).map(|i| i as f64)`. */
  function Range(side: nat): (r: seq<int>)
    ensures |r| == side && forall n :: 0 <= n < side ==> r[n] == n
    ensures forall x :: x in r <==> 0 <= x < side
  {
    var r := seq(side, n => n);
    forall x | 0 <= x < side ensures x in r {
      assert r[x] == x;
    }
    r
  }

  /** Twice a coordinate, as `i * 2.`. */
  function Double(i: seq<int>): (r: seq<int>)
    ensures |r| == |i| && forall n :: 0 <= n < |i| ==> r[n] == 2 * i[n]
  {
    seq(|i|, n requires 0 <= n < |i| => 2 * i[n])
  }

  /** `c` is one of the `2^dim` cells at the next level inside cell `i`. */
  predicate IsChildCell(c: seq<int>, i: seq<int>)
  {
    |c| == |i| && forall n :: 0 <= n < |i| ==> 2 * i[n] <= c[n] <= 2 * i[n] + 1
  }

  /** Wrapping `x + t` and stepping back by `t` wraps back to `x`. */
  lemma ModShiftBack(x: int, t: int, side: nat)
    requires 0 <= x < side
    ensures ((x + t) % side - t) % side == x
  {
    var q := (x + t) / side;
    DivModUnique((x + t) % side - t, side, -q, x);
  }

  /** Wrapping `c + t`, stepping back by `-t` and wrapping again gives the
      in-grid `c`. */
  lemma WrappedBack(c: seq<int>, t: seq<int>, neg: seq<int>, side: nat)
    requires side > 0 && Utils.InGrid(c, side) && |t| == |c| == |neg|
    requires forall n :: 0 <= n < |c| ==> neg[n] == -t[n]
    ensures Utils.Wrapped(Add(Utils.Wrapped(Add(c, t), side), neg), side) == c
  {
    var u := Add(Utils.Wrapped(Add(c, t), side), neg);
    forall n | 0 <= n < |c| ensures u[n] % side == c[n] {
      ModShiftBack(c[n], t[n], side);
    }
  }

  /** A child cell at `level + 1` has the top-level cell of its parent at `level`. */
  lemma ChildParent(c: seq<int>, i: seq<int>, level: nat)
    requires IsChildCell(c, i)
    ensures Utils.GetParent(c, level + 1) == Utils.GetParent(i, level)
  {
    assert Pow(2, 1) == 2;
    Utils.ParentUnique(c, 1, i);
    Utils.ParentOfParent(c, 1, level);
  }

  /** `PoissonGen`: the generator, with the geometry it is built for. `side`
      and `cell` are what `Grid::new` derives from `radius`; `far(v, c)`
      stands for `sqdist(v, c) >= (2 * radius)^2` and `cellCovered(v, i, k)`
      for `is_cell_covered(v, i, _, k)`, both in the generator's periodicity. */
  class PoissonGen {
    const radius: real
    const periodicity: bool
    const dim: nat
    const cell: real
    const side: nat
    const far: (Point, Point) -> bool
    const cellCovered: (Point, seq<int>, nat) -> bool

    constructor (radius: real, periodicity: bool, dim: nat, cell: real, side: nat,
                 far: (Point, Point) -> bool, cellCovered: (Point, seq<int>, nat) -> bool)
      requires dim > 0 && side > 0 && cell > 0.0
      ensures this.radius == radius && this.periodicity == periodicity && this.dim == dim
      ensures this.cell == cell && this.side == side && this.far == far && this.cellCovered == cellCovered
      ensures Valid()
    {
      this.radius := radius;
      this.periodicity := periodicity;
      this.dim := dim;
      this.cell := cell;
      this.side := side;
      this.far := far;
      this.cellCovered := cellCovered;
    }

    predicate Valid()
    {
      dim > 0 && side > 0 && cell > 0.0
    }

    /** `grid` is the grid this generator builds. */
    predicate Matches(grid: Grid)
    {
      grid.side == side && grid.dim == dim && grid.cell == cell && grid.periodicity == periodicity
    }

    /** A candidate cell at `level`: its top-level cell lies in the grid, so
        `grid.get(parent)` in `throw_samples` finds a slot. */
    predicate Candidate(c: seq<int>, level: nat)
    {
      |c| == dim && Utils.InGrid(Utils.GetParent(c, level), side)
    }

    /** The slot index of the top-level cell of candidate `c`. */
    function ParentSlot(c: seq<int>, level: nat): (j: nat)
      requires Valid() && Candidate(c, level)
      ensures j < Pow(side, dim)
      ensures Utils.Encode(Utils.GetParent(c, level), side, TypeOf(periodicity)) == Some(j)
    {
      Utils.Encode(Utils.GetParent(c, level), side, TypeOf(periodicity)).value
    }

    /** `s` is a sample of a candidate of `cs` at `level` whose top-level
        slot is `j`. */
    predicate IsSampleOf(cs: seq<seq<int>>, level: nat, j: int, s: Point)
      requires Valid()
    {
      exists c :: c in cs && Candidate(c, level) && ParentSlot(c, level) == j && InCell(s, c, Spacing(cell, level))
    }

    /** The top-level cell of slot `j`, as `decode` gives it. */
    function SlotCell(j: nat): (c: seq<int>)
      requires Valid() && j < Pow(side, dim)
      ensures |c| == dim && Utils.InGrid(c, side)
      ensures Utils.Encode(c, side, TypeOf(periodicity)) == Some(j)
    {
      var c := Utils.Decode(j, side, dim).value;
      Utils.InGridEncodeEither(c, side);
      c
    }

    /** The top-level slot of a candidate holds the candidate's top-level cell. */
    lemma ParentSlotCell(c: seq<int>, level: nat)
      requires Valid() && Candidate(c, level)
      ensures SlotCell(ParentSlot(c, level)) == Utils.GetParent(c, level)
    {
      var p := Utils.GetParent(c, level);
      Utils.InGridEncodeEither(p, side);
      Utils.DecodeEncode(p, side);
    }

    /** Slot `k` is one of the 5^dim slots around top-level cell `parent`
        that `is_disk_free` and `covered` look at. */
    predicate Around(parent: seq<int>, k: nat)
      requires Valid() && |parent| == dim
    {
      exists m :: 0 <= m < |Ring()| && Utils.Encode(Add(parent, Ring()[m]), side, TypeOf(periodicity)) == Some(k)
    }

    /** Being around is symmetric: `k` is around the cell of slot `j` exactly
        when `j` is around the cell of slot `k`, in both addressing modes. */
    lemma AroundSymmetric(j: nat, k: nat)
      requires Valid() && j < Pow(side, dim) && k < Pow(side, dim)
      requires Around(SlotCell(j), k)
      ensures Around(SlotCell(k), j)
    {
      var ring := Ring();
      var m :| 0 <= m < |ring| && Utils.Encode(Add(SlotCell(j), ring[m]), side, TypeOf(periodicity)) == Some(k);
      var m' := RingNegated(m);
      AroundBack(SlotCell(j), ring[m], ring[m'], k);
      assert Utils.Encode(Add(SlotCell(k), ring[m']), side, TypeOf(periodicity)) == Some(j);
    }

    /** The ring of offsets is closed under negation. */
    lemma RingNegated(m: nat) returns (m': nat)
      requires m < |Ring()|
      ensures m' < |Ring()| && |Ring()[m]| == |Ring()[m']| == dim
      ensures forall n :: 0 <= n < dim ==> Ring()[m'][n] == -Ring()[m][n]
    {
      var choices := [-2, -1, 0, 1, 2];
      var t := Ring()[m];
      assert t == Utils.Combination(m, choices, dim);
      var neg := seq(dim, n requires 0 <= n < dim => -t[n]);
      forall n | 0 <= n < dim ensures neg[n] in choices {
        assert t[n] in choices;
      }
      m' := Utils.CombinationOnto(neg, choices);
      assert Ring()[m'] == neg;
    }

    /** Stepping from an in-grid cell `c` by `t` to the cell of slot `k`, and
        back from there by `-t`, returns to the slot of `c`. */
    lemma AroundBack(c: seq<int>, t: seq<int>, neg: seq<int>, k: nat)
      requires Valid() && |c| == dim && Utils.InGrid(c, side) && |t| == dim && |neg| == dim
      requires forall n :: 0 <= n < dim ==> neg[n] == -t[n]
      requires k < Pow(side, dim) && Utils.Encode(Add(c, t), side, TypeOf(periodicity)) == Some(k)
      ensures Utils.Encode(Add(SlotCell(k), neg), side, TypeOf(periodicity)) == Utils.Encode(c, side, TypeOf(periodicity))
    {
      var v := Add(c, t);
      Utils.InGridEncodeEither(c, side);
      if periodicity {
        Utils.PeriodicEncodeIsWrapped(v, side);
        var w := Utils.Wrapped(v, side);
        assert Utils.Encode(w, side, Utils.Normal) == Some(k);
        Utils.DecodeEncode(w, side);
        assert SlotCell(k) == w;
        var u := Add(w, neg);
        Utils.PeriodicEncodeIsWrapped(u, side);
        WrappedBack(c, t, neg, side);
      } else {
        Utils.DecodeEncode(v, side);
        assert SlotCell(k) == v;
        assert Add(v, neg) == c;
      }
    }

    /** The offsets `each_combination(&[-2., -1., 0., 1., 2.])` around a top-level cell. */
    function Ring(): (ts: seq<seq<int>>)
      ensures |ts| == Pow(5, dim)
      ensures forall t :: t in ts ==> |t| == dim
    {
      Utils.AllCombinations([-2, -1, 0, 1, 2], dim)
    }

    /** The sample in the slot at offset `t` from top-level cell `parent`,
        if that cell is in the grid and its slot is occupied. */
    function Neighbour(cells: seq<Option<Point>>, parent: seq<int>, t: seq<int>): (r: Option<Point>)
      requires Valid() && |parent| == dim && |t| == dim
      ensures r.Some? ==> Some(r.value) in cells
      ensures !periodicity && !Utils.InGrid(Add(parent, t), side) ==> r.None?
    {
      match SlotOf(cells, side, periodicity, Add(parent, t))
      case Some(Some(v)) => Some(v)
      case _ => None
    }

    /** `is_disk_free`: sample `c` thrown into cell `index` at `level` is far
        from every sample in the 5^dim top-level cells around its own. */
    function IsDiskFree(cells: seq<Option<Point>>, index: seq<int>, level: nat, c: Point): (r: bool)
      requires Valid() && |index| == dim
      ensures r <==> forall k :: 0 <= k < |cells| && cells[k].Some? && Around(Utils.GetParent(index, level), k) ==>
                       far(cells[k].value, c)
    {
      var parent := Utils.GetParent(index, level);
      DiskFreeScan(cells, parent, c);
      forall m :: 0 <= m < |Ring()| && Neighbour(cells, parent, Ring()[m]).Some? ==>
        far(Neighbour(cells, parent, Ring()[m]).value, c)
    }

    /** The ring scan of `is_disk_free` finds every neighbour `far` exactly
        when the sample of every occupied slot around `parent` is `far`. */
    lemma DiskFreeScan(cells: seq<Option<Point>>, parent: seq<int>, c: Point)
      requires Valid() && |parent| == dim
      ensures (forall m :: 0 <= m < |Ring()| && Neighbour(cells, parent, Ring()[m]).Some? ==>
                 far(Neighbour(cells, parent, Ring()[m]).value, c)) <==>
              (forall k :: 0 <= k < |cells| && cells[k].Some? && Around(parent, k) ==> far(cells[k].value, c))
    {
      if forall m :: 0 <= m < |Ring()| && Neighbour(cells, parent, Ring()[m]).Some? ==>
           far(Neighbour(cells, parent, Ring()[m]).value, c)
      {
        forall k | 0 <= k < |cells| && cells[k].Some? && Around(parent, k) ensures far(cells[k].value, c) {
          SlotNeighbour(cells, parent, k);
        }
      }
      if forall k :: 0 <= k < |cells| && cells[k].Some? && Around(parent, k) ==> far(cells[k].value, c) {
        forall m | 0 <= m < |Ring()| && Neighbour(cells, parent, Ring()[m]).Some?
          ensures far(Neighbour(cells, parent, Ring()[m]).value, c)
        {
          NeighbourSlot(cells, parent, m);
        }
      }
    }

    /** `covered`: some sample in the 5^dim top-level cells around cell
        `index` covers that cell at `level` entirely. */
    function Covered(cells: seq<Option<Point>>, index: seq<int>, level: nat): (r: bool)
      requires Valid() && |index| == dim
      ensures r <==> exists k :: 0 <= k < |cells| && cells[k].Some? && Around(Utils.GetParent(index, level), k) &&
                       cellCovered(cells[k].value, index, level)
    {
      var parent := Utils.GetParent(index, level);
      CoveredScan(cells, parent, index, level);
      exists m :: 0 <= m < |Ring()| && Neighbour(cells, parent, Ring()[m]).Some? &&
        cellCovered(Neighbour(cells, parent, Ring()[m]).value, index, level)
    }

    /** The ring scan of `covered` finds a covering neighbour exactly when
        the sample of some occupied slot around `parent` covers the cell. */
    lemma CoveredScan(cells: seq<Option<Point>>, parent: seq<int>, index: seq<int>, level: nat)
      requires Valid() && |parent| == dim
      ensures (exists m :: 0 <= m < |Ring()| && Neighbour(cells, parent, Ring()[m]).Some? &&
                 cellCovered(Neighbour(cells, parent, Ring()[m]).value, index, level)) <==>
              (exists k :: 0 <= k < |cells| && cells[k].Some? && Around(parent, k) &&
                 cellCovered(cells[k].value, index, level))
    {
      if exists m :: 0 <= m < |Ring()| && Neighbour(cells, parent, Ring()[m]).Some? &&
           cellCovered(Neighbour(cells, parent, Ring()[m]).value, index, level)
      {
        var m :| 0 <= m < |Ring()| && Neighbour(cells, parent, Ring()[m]).Some? &&
                 cellCovered(Neighbour(cells, parent, Ring()[m]).value, index, level);
        NeighbourSlot(cells, parent, m);
      }
      if exists k :: 0 <= k < |cells| && cells[k].Some? && Around(parent, k) && cellCovered(cells[k].value, index, level) {
        var k :| 0 <= k < |cells| && cells[k].Some? && Around(parent, k) && cellCovered(cells[k].value, index, level);
        SlotNeighbour(cells, parent, k);
      }
    }

    /** An occupied neighbour found by the ring scan is the sample of a slot
        around `parent`. */
    lemma NeighbourSlot(cells: seq<Option<Point>>, parent: seq<int>, m: nat)
      requires Valid() && |parent| == dim && m < |Ring()| && Neighbour(cells, parent, Ring()[m]).Some?
      ensures exists k :: 0 <= k < |cells| && cells[k] == Neighbour(cells, parent, Ring()[m]) && Around(parent, k)
    {
      var t := Ring()[m];
      var k := Utils.Encode(Add(parent, t), side, TypeOf(periodicity)).value;
      assert k < |cells| && cells[k] == Neighbour(cells, parent, t);
      assert Around(parent, k);
    }

    /** The sample of an occupied slot around `parent` is found by the ring scan. */
    lemma SlotNeighbour(cells: seq<Option<Point>>, parent: seq<int>, k: nat)
      requires Valid() && |parent| == dim && k < |cells| && cells[k].Some? && Around(parent, k)
      ensures exists m :: 0 <= m < |Ring()| && Neighbour(cells, parent, Ring()[m]) == cells[k]
    {
      var ring := Ring();
      var m :| 0 <= m < |ring| && Utils.Encode(Add(parent, ring[m]), side, TypeOf(periodicity)) == Some(k);
      NeighbourAt(cells, parent, ring[m], k);
    }

    /** The neighbour at offset `t` is the sample in the slot that
        `parent + t` encodes to. */
    lemma NeighbourAt(cells: seq<Option<Point>>, parent: seq<int>, t: seq<int>, k: nat)
      requires Valid() && |parent| == dim && |t| == dim && k < |cells| && cells[k].Some?
      requires Utils.Encode(Add(parent, t), side, TypeOf(periodicity)) == Some(k)
      ensures Neighbour(cells, parent, t) == cells[k]
    {
      assert SlotOf(cells, side, periodicity, Add(parent, t)) == Some(cells[k]);
    }

    /** The `2^dim` cells `n + i * 2` for `n` in `each_combination(&[0., 1.])`. */
    function Offsets(i: seq<int>): (cs: seq<seq<int>>)
      requires |i| == dim
      ensures |cs| == Pow(2, dim)
      ensures forall c :: c in cs ==> IsChildCell(c, i)
    {
      var ts := Utils.AllCombinations([0, 1], dim);
      seq(|ts|, k requires 0 <= k < |ts| => Add(ts[k], Double(i)))
    }

    /** The cells of `cs` that are not covered at `level`, in order. */
    function Uncovered(cells: seq<Option<Point>>, cs: seq<seq<int>>, level: nat): (r: seq<seq<int>>)
      requires Valid() && forall c :: c in cs ==> |c| == dim
      ensures |r| <= |cs|
    {
      if cs == [] then []
      else
        (if Covered(cells, cs[0], level) then [] else [cs[0]]) + Uncovered(cells, cs[1..], level)
    }

    /** A cell survives the filter exactly when it is one of `cs` and is not covered. */
    lemma {:induction false} UncoveredMember(cells: seq<Option<Point>>, cs: seq<seq<int>>, level: nat, c: seq<int>)
      requires Valid() && forall c :: c in cs ==> |c| == dim
      ensures c in Uncovered(cells, cs, level) <==> c in cs && !Covered(cells, c, level)
    {
      if cs != [] {
        UncoveredMember(cells, cs[1..], level, c);
        assert forall x :: x in cs <==> x == cs[0] || x in cs[1..];
      }
    }

    /** The images of candidate `i` in `subdivide`: its children at
        `level + 1` that are not covered. */
    function Children(cells: seq<Option<Point>>, i: seq<int>, level: nat): (cs: seq<seq<int>>)
      requires Valid() && |i| == dim
      ensures |cs| <= Pow(2, dim)
    {
      Uncovered(cells, Offsets(i), level + 1)
    }

    /** The closure that `subdivide` hands to `flat_map_inplace`. */
    function ChildrenOf(cells: seq<Option<Point>>, level: nat): (f: seq<int> --> seq<seq<int>>)
      requires Valid()
      ensures forall i :: |i| == dim ==> f.requires(i)
      ensures forall i :: |i| == dim ==> f(i) == Children(cells, i, level)
      ensures forall i, c :: |i| == dim ==> (c in f(i) <==> IsChildCell(c, i) && !Covered(cells, c, level + 1))
    {
      forall i, c | |i| == dim ensures c in Children(cells, i, level) <==> IsChildCell(c, i) && !Covered(cells, c, level + 1) {
        ChildrenMember(cells, i, level, c);
      }
      i requires |i| == dim => Children(cells, i, level)
    }

    /** The offsets are exactly the child cells of `i`. */
    lemma OffsetsMember(i: seq<int>, c: seq<int>)
      requires |i| == dim
      ensures c in Offsets(i) <==> IsChildCell(c, i)
    {
      if IsChildCell(c, i) {
        var k := OffsetIndex(i, c);
        var ts := Utils.AllCombinations([0, 1], dim);
        assert ts[k] == Utils.Combination(k, [0, 1], dim);
        assert Offsets(i)[k] == c;
      }
    }

    /** The position among the offsets of `i` of its child cell `c`. */
    lemma OffsetIndex(i: seq<int>, c: seq<int>) returns (k: nat)
      requires |i| == dim && IsChildCell(c, i)
      ensures k < Pow(2, dim) && Add(Utils.Combination(k, [0, 1], dim), Double(i)) == c
    {
      var t := seq(dim, n requires 0 <= n < dim => c[n] - 2 * i[n]);
      forall n | 0 <= n < dim ensures t[n] in [0, 1] {
        assert t[n] == 0 || t[n] == 1;
      }
      k := Utils.CombinationOnto(t, [0, 1]);
      assert Add(t, Double(i)) == c;
    }

    /** The children of `i` are exactly its uncovered child cells. */
    lemma ChildrenMember(cells: seq<Option<Point>>, i: seq<int>, level: nat, c: seq<int>)
      requires Valid() && |i| == dim
      ensures c in Children(cells, i, level) <==> IsChildCell(c, i) && !Covered(cells, c, level + 1)
    {
      UncoveredMember(cells, Offsets(i), level + 1, c);
      OffsetsMember(i, c);
    }
  
    /** What `subdivide` turns the candidates `cs` at `level` into: the
        children of each, one candidate after the other. */
    function Subdivided(cells: seq<Option<Point>>, cs: seq<seq<int>>, level: nat): seq<seq<int>>
      requires Valid() && forall c :: c in cs ==> Candidate(c, level)
    {
      if cs == [] then []
      else
        assert Candidate(cs[0], level);
        Children(cells, cs[0], level) + Subdivided(cells, cs[1..], level)
    }

    /** `Subdivided` is the flat-map with the closure of `subdivide`. */
    lemma {:induction false} SubdividedIsFlatMap(cells: seq<Option<Point>>, cs: seq<seq<int>>, level: nat)
      requires Valid() && forall c :: c in cs ==> Candidate(c, level)
      requires forall c :: c in cs ==> ChildrenOf(cells, level).requires(c)
      ensures Subdivided(cells, cs, level) == Utils.FlatMap(ChildrenOf(cells, level), cs)
    {
      if cs != [] {
        assert Candidate(cs[0], level);
        SubdividedIsFlatMap(cells, cs[1..], level);
      }
    }

    /** Every cell in the flat-map of the children of candidates at `level`
        is a candidate at `level + 1`. */
    lemma ChildrenAreCandidates(cells: seq<Option<Point>>, cs: seq<seq<int>>, level: nat, c: seq<int>)
      requires Valid() && forall i :: i in cs ==> Candidate(i, level)
      requires forall i :: i in cs ==> ChildrenOf(cells, level).requires(i)
      requires c in Utils.FlatMap(ChildrenOf(cells, level), cs)
      ensures Candidate(c, level + 1)
    {
      var f := ChildrenOf(cells, level);
      Utils.FlatMapMember(f, cs, c);
      var i :| i in cs && c in f(i);
      ChildrenMember(cells, i, level, c);
      ChildParent(c, i, level);
    }

    /** `subdivide`: every candidate is replaced, in place and in no
        particular order, by its uncovered children at the next level. */
    method Subdivide(grid: Grid, indices: Utils.Vec<seq<int>>, level: nat)
      requires Valid() && grid.Valid() && Matches(grid)
      requires forall c :: c in indices.elems ==> Candidate(c, level)
      modifies indices
      ensures multiset(indices.elems) == multiset(Subdivided(grid.data[..], old(indices.elems), level))
      ensures forall c :: c in indices.elems ==> Candidate(c, level + 1)
      ensures |indices.elems| <= Pow(2, dim) * |old(indices.elems)|
      ensures NoneCovered(indices.elems, grid.data[..], level + 1)
    {
      var cells := grid.data[..];
      ghost var before := indices.elems;
      var f := ChildrenOf(cells, level);
      ghost var _ := indices.FlatMapInplace(f);
      forall c | c in indices.elems ensures Candidate(c, level + 1) {
        assert c in multiset(Utils.FlatMap(f, before));
        ChildrenAreCandidates(cells, before, level, c);
      }
      SubdividedIsFlatMap(cells, before, level);
      Utils.FlatMapLength(f, before, Pow(2, dim));
      assert |multiset(indices.elems)| == |multiset(Utils.FlatMap(f, before))|;
      SubdividedUncovered(cells, before, level, indices.elems);
    }

    /** A list with the cells of `Subdivided` holds no cell `Covered` at the
        next level. */
    lemma SubdividedUncovered(cells: seq<Option<Point>>, cs: seq<seq<int>>, level: nat, next: seq<seq<int>>)
      requires Valid() && forall c :: c in cs ==> Candidate(c, level)
      requires multiset(next) == multiset(Subdivided(cells, cs, level))
      ensures NoneCovered(next, cells, level + 1)
    {
      forall c | c in next ensures |c| == dim && !Covered(cells, c, level + 1) {
        assert c in multiset(Subdivided(cells, cs, level));
        SubdividedChildUncovered(cells, cs, level, c);
      }
    }

    /** A cell `subdivide` keeps is the uncovered child of a candidate. */
    lemma SubdividedChildUncovered(cells: seq<Option<Point>>, cs: seq<seq<int>>, level: nat, c: seq<int>)
      requires Valid() && forall c :: c in cs ==> Candidate(c, level)
      requires c in Subdivided(cells, cs, level)
      ensures |c| == dim && !Covered(cells, c, level + 1)
    {
      var f := ChildrenOf(cells, level);
      SubdividedIsFlatMap(cells, cs, level);
      Utils.FlatMapMember(f, cs, c);
      var i :| i in cs && c in f(i);
      assert Candidate(i, level);
      ChildrenMember(cells, i, level, c);
    }
  
    /** The sample of slot `j` was tested against the sample of slot `k`:
        if `k` is around the cell of `j`, its sample is `far` from `j`'s. */
    predicate Checked(cells: seq<Option<Point>>, j: nat, k: nat)
      requires Valid() && |cells| == Pow(side, dim) && j < |cells| && k < |cells|
      requires cells[j].Some? && cells[k].Some?
    {
      Around(SlotCell(j), k) ==> far(cells[k].value, cells[j].value)
    }

    /** The grid `after` is the grid `before` with samples added: an
        occupied slot keeps its sample, every added sample lies in the
        top-level cell of its slot, and every added sample is `Checked`
        against every other sample, unless that one was added later and is
        `Checked` against it. */
    ghost predicate Grows(before: seq<Option<Point>>, after: seq<Option<Point>>)
      requires Valid()
    {
      |before| == |after| == Pow(side, dim) &&
      (forall j :: 0 <= j < |after| && before[j].Some? ==> after[j] == before[j]) &&
      (forall j :: 0 <= j < |after| && after[j] != before[j] ==>
         after[j].Some? && InCell(after[j].value, SlotCell(j), cell)) &&
      (forall j, k ::
         (0 <= j < |after| && 0 <= k < |after| && j != k && before[j].None? && after[j].Some? && after[k].Some?) ==>
         Checked(after, j, k) || (before[k].None? && Checked(after, k, j)))
    }

    /** Some slot of the grid holds a sample. */
    ghost predicate Occupied(cells: seq<Option<Point>>)
    {
      exists p :: Some(p) in cells
    }

    /** A grid with slot `j` occupied is `Occupied`. */
    lemma SlotOccupied(cells: seq<Option<Point>>, j: nat)
      requires j < |cells| && cells[j].Some?
      ensures Occupied(cells)
    {
      assert Some(cells[j].value) in cells;
    }

    /** A point whose disk is not free has a sample around it. */
    lemma NotDiskFreeOccupied(cells: seq<Option<Point>>, index: seq<int>, level: nat, c: Point)
      requires Valid() && |index| == dim && !IsDiskFree(cells, index, level, c)
      ensures Occupied(cells)
    {
      var k :| 0 <= k < |cells| && cells[k].Some? && Around(Utils.GetParent(index, level), k) && !far(cells[k].value, c);
      SlotOccupied(cells, k);
    }

    /** No cell of `cs` is `Covered` at `level`: each one passed the filter
        of `subdivide`. */
    ghost predicate NoneCovered(cs: seq<seq<int>>, cells: seq<Option<Point>>, level: nat)
      requires Valid()
    {
      forall c {:trigger Covered(cells, c, level)} :: c in cs ==> |c| == dim && !Covered(cells, c, level)
    }

    /** Adding samples in two steps is adding them in one. */
    lemma GrowsTrans(a: seq<Option<Point>>, b: seq<Option<Point>>, c: seq<Option<Point>>)
      requires Valid() && Grows(a, b) && Grows(b, c)
      ensures Grows(a, c)
    {
      forall j | 0 <= j < |c| && c[j] != a[j] ensures c[j].Some? && InCell(c[j].value, SlotCell(j), cell) {
        if b[j] != a[j] {
          assert c[j] == b[j];
        }
      }
      forall j, k | 0 <= j < |c| && 0 <= k < |c| && j != k && a[j].None? && c[j].Some? && c[k].Some?
        ensures Checked(c, j, k) || (a[k].None? && Checked(c, k, j))
      {
        if b[j].Some? {
          assert c[j] == b[j];
          if b[k].Some? {
            assert c[k] == b[k];
            assert Checked(b, j, k) || (a[k].None? && Checked(b, k, j));
          } else {
            assert Checked(c, k, j) || (b[j].None? && Checked(c, j, k));
          }
        } else {
          assert Checked(c, j, k) || (b[k].None? && Checked(c, k, j));
        }
      }
    }

    /** A grid grown from the empty one holds, in each occupied slot, a
        sample of that slot's top-level cell, and any two samples in slots
        around each other are `far` apart, one way or the other. */
    lemma GrownFromEmpty(empty: seq<Option<Point>>, cells: seq<Option<Point>>)
      requires Valid() && Grows(empty, cells)
      requires forall j :: 0 <= j < |empty| ==> empty[j].None?
      ensures forall j :: 0 <= j < |cells| && cells[j].Some? ==> InCell(cells[j].value, SlotCell(j), cell)
      ensures forall j, k ::
                (0 <= j < |cells| && 0 <= k < |cells| && j != k && cells[j].Some? && cells[k].Some? && Around(SlotCell(j), k)) ==>
                far(cells[k].value, cells[j].value) || far(cells[j].value, cells[k].value)
    {
      forall j | 0 <= j < |cells| && cells[j].Some? ensures InCell(cells[j].value, SlotCell(j), cell) {
        assert cells[j] != empty[j];
      }
      forall j, k | 0 <= j < |cells| && 0 <= k < |cells| && j != k && cells[j].Some? && cells[k].Some? &&
                    Around(SlotCell(j), k)
        ensures far(cells[k].value, cells[j].value) || far(cells[j].value, cells[k].value)
      {
        AroundSymmetric(j, k);
        assert Checked(cells, j, k) || Checked(cells, k, j);
      }
    }

    /** Writing into an empty slot a sample of its top-level cell that is
        `far` from every sample around that cell makes the grid grow. */
    lemma GrowsWrite(before: seq<Option<Point>>, cells: seq<Option<Point>>, p: nat, s: Point)
      requires Valid() && Grows(before, cells) && p < |cells| && cells[p].None?
      requires InCell(s, SlotCell(p), cell)
      requires forall k :: 0 <= k < |cells| && cells[k].Some? && Around(SlotCell(p), k) ==> far(cells[k].value, s)
      ensures Grows(before, cells[p := Some(s)])
    {
      var after := cells[p := Some(s)];
      assert before[p].None?;
      forall j | 0 <= j < |after| && before[j].Some? ensures after[j] == before[j] {
        assert j != p;
      }
      forall j | 0 <= j < |after| && after[j] != before[j] ensures after[j].Some? && InCell(after[j].value, SlotCell(j), cell) {
        if j != p {
          assert cells[j] == after[j];
        }
      }
      forall j, k | 0 <= j < |after| && 0 <= k < |after| && j != k && before[j].None? && after[j].Some? && after[k].Some?
        ensures Checked(after, j, k) || (before[k].None? && Checked(after, k, j))
      {
        if j == p {
          assert cells[k] == after[k];
        } else if k == p {
          assert cells[j] == after[j];
          assert Checked(after, p, j);
        } else {
          assert cells[j] == after[j] && cells[k] == after[k];
          assert Checked(cells, j, k) || (before[k].None? && Checked(cells, k, j));
        }
      }
    }

    /** What `throw_samples` keeps true from the candidates `orig` and the
        slots `origData` it started with, for the candidates `cs` and slots
        `cells` it has now: the candidates are a sub-multiset of the original
        ones, the grid `Grows`, every slot that changed holds a sample of an
        original candidate whose top-level slot it is, and each dropped
        candidate's top-level slot is occupied. */
    ghost predicate ThrowProgress(orig: seq<seq<int>>, origData: seq<Option<Point>>,
                                  cs: seq<seq<int>>, cells: seq<Option<Point>>, level: nat)
      requires Valid()
    {
      |origData| == |cells| == Pow(side, dim) &&
      (forall c :: c in orig ==> Candidate(c, level)) &&
      multiset(cs) <= multiset(orig) &&
      Grows(origData, cells) &&
      (forall j :: 0 <= j < |cells| && cells[j] != origData[j] ==>
         cells[j].Some? && IsSampleOf(orig, level, j, cells[j].value)) &&
      (forall c :: c in orig && multiset(cs)[c] < multiset(orig)[c] ==> cells[ParentSlot(c, level)].Some?)
    }

    /** The start of `throw_samples` satisfies `ThrowProgress`. */
    lemma ThrowStart(orig: seq<seq<int>>, origData: seq<Option<Point>>, level: nat)
      requires Valid() && |origData| == Pow(side, dim)
      requires forall c :: c in orig ==> Candidate(c, level)
      ensures ThrowProgress(orig, origData, orig, origData, level)
    {
    }

    /** Candidates of a `ThrowProgress` state are candidates. */
    lemma ThrowCandidates(orig: seq<seq<int>>, origData: seq<Option<Point>>,
                          cs: seq<seq<int>>, cells: seq<Option<Point>>, level: nat)
      requires Valid() && ThrowProgress(orig, origData, cs, cells, level)
      ensures forall c :: c in cs ==> Candidate(c, level)
    {
      forall c | c in cs ensures Candidate(c, level) {
        assert c in multiset(cs);
        assert c in multiset(orig);
      }
    }

    /** Dropping a candidate whose top-level slot is occupied keeps `ThrowProgress`. */
    lemma ThrowDrop(orig: seq<seq<int>>, origData: seq<Option<Point>>,
                    cs: seq<seq<int>>, cells: seq<Option<Point>>, level: nat,
                    cur: seq<int>, cs': seq<seq<int>>)
      requires Valid() && ThrowProgress(orig, origData, cs, cells, level)
      requires cur in cs && multiset(cs') + multiset{cur} == multiset(cs)
      requires Candidate(cur, level) && cells[ParentSlot(cur, level)].Some?
      ensures ThrowProgress(orig, origData, cs', cells, level)
    {
      assert cur in multiset(orig);
      DropOccupied(orig, cs, cs', cells, cells, level, cur);
    }

    /** Writing a sample of a candidate's cell that has a free disk into the
        candidate's empty top-level slot, and dropping the candidate, keeps
        `ThrowProgress`. */
    lemma ThrowWrite(orig: seq<seq<int>>, origData: seq<Option<Point>>,
                     cs: seq<seq<int>>, cells: seq<Option<Point>>, level: nat,
                     cur: seq<int>, sample: Point, cs': seq<seq<int>>, cells': seq<Option<Point>>)
      requires Valid() && ThrowProgress(orig, origData, cs, cells, level)
      requires cur in cs && multiset(cs') + multiset{cur} == multiset(cs)
      requires Candidate(cur, level) && cells[ParentSlot(cur, level)].None?
      requires InCell(sample, cur, Spacing(cell, level)) && IsDiskFree(cells, cur, level, sample)
      requires cells' == cells[ParentSlot(cur, level) := Some(sample)]
      ensures ThrowProgress(orig, origData, cs', cells', level)
    {
      var p := ParentSlot(cur, level);
      assert cur in multiset(orig);
      ParentSlotCell(cur, level);
      InCellParent(sample, cur, level, cell);
      GrowsWrite(origData, cells, p, sample);
      WriteIsSampleOf(orig, origData, cells, level, cur, sample);
      DropOccupied(orig, cs, cs', cells, cells', level, cur);
    }

    /** Writing a sample of candidate `cur` into its top-level slot keeps
        every changed slot a sample of some candidate of `orig`. */
    lemma WriteIsSampleOf(orig: seq<seq<int>>, origData: seq<Option<Point>>, cells: seq<Option<Point>>,
                          level: nat, cur: seq<int>, sample: Point)
      requires Valid() && |origData| == |cells| == Pow(side, dim)
      requires cur in orig && Candidate(cur, level) && InCell(sample, cur, Spacing(cell, level))
      requires forall j :: 0 <= j < |cells| && cells[j] != origData[j] ==>
                 cells[j].Some? && IsSampleOf(orig, level, j, cells[j].value)
      ensures var after := cells[ParentSlot(cur, level) := Some(sample)];
              forall j :: 0 <= j < |after| && after[j] != origData[j] ==>
                after[j].Some? && IsSampleOf(orig, level, j, after[j].value)
    {
      var p := ParentSlot(cur, level);
      var after := cells[p := Some(sample)];
      assert IsSampleOf(orig, level, p, sample);
      forall j | 0 <= j < |after| && after[j] != origData[j]
        ensures after[j].Some? && IsSampleOf(orig, level, j, after[j].value)
      {
        if j != p {
          assert cells[j] == after[j];
        }
      }
    }

    /** Dropping candidate `cur` once its top-level slot is occupied, with
        no occupied slot emptied, keeps every dropped candidate's slot
        occupied. */
    lemma DropOccupied(orig: seq<seq<int>>, cs: seq<seq<int>>, cs': seq<seq<int>>,
                       cells: seq<Option<Point>>, cells': seq<Option<Point>>, level: nat, cur: seq<int>)
      requires Valid() && (forall c :: c in orig ==> Candidate(c, level))
      requires cur in orig && multiset(cs') + multiset{cur} == multiset(cs)
      requires |cells| == |cells'| == Pow(side, dim)
      requires forall c :: c in orig && multiset(cs)[c] < multiset(orig)[c] ==> cells[ParentSlot(c, level)].Some?
      requires forall j :: 0 <= j < |cells| && cells[j].Some? ==> cells'[j].Some?
      requires cells'[ParentSlot(cur, level)].Some?
      ensures forall c :: c in orig && multiset(cs')[c] < multiset(orig)[c] ==> cells'[ParentSlot(c, level)].Some?
    {
      forall c | c in orig && multiset(cs')[c] < multiset(orig)[c]
        ensures cells'[ParentSlot(c, level)].Some?
      {
        if c != cur {
          assert multiset(cs')[c] == multiset(cs)[c];
          assert cells[ParentSlot(c, level)].Some?;
        }
      }
    }

    /** One dart of `throw_samples`, at the candidate `cur` in position
        `index`: when its top-level slot is taken the candidate is dropped
        and the grid is unchanged; otherwise a random sample of its cell is
        drawn and, if its disk is free, written into that slot and the
        candidate dropped, and if not, nothing changes. */
    method Throw(grid: Grid, indices: Utils.Vec<seq<int>>, level: nat, index: nat,
                 ghost orig: seq<seq<int>>, ghost origData: seq<Option<Point>>) returns (dropped: bool)
      requires Valid() && grid.Valid() && Matches(grid) && index < |indices.elems|
      requires ThrowProgress(orig, origData, indices.elems, grid.data[..], level)
      modifies grid.data, indices
      ensures Candidate(old(indices.elems)[index], level)
      ensures ThrowProgress(orig, origData, indices.elems, grid.data[..], level)
      ensures |indices.elems| == |old(indices.elems)| - if dropped then 1 else 0
      ensures dropped ==> indices.elems == Utils.SwapRemoved(old(indices.elems), index)
      ensures !dropped ==> indices.elems == old(indices.elems) && grid.data[..] == old(grid.data[..])
      ensures old(grid.data[..])[ParentSlot(old(indices.elems)[index], level)].Some? ==>
                dropped && grid.data[..] == old(grid.data[..])
      ensures dropped && old(grid.data[..])[ParentSlot(old(indices.elems)[index], level)].None? ==>
                exists s :: InCell(s, old(indices.elems)[index], Spacing(cell, level)) &&
                  IsDiskFree(old(grid.data[..]), old(indices.elems)[index], level, s) &&
                  grid.data[..] == old(grid.data[..])[ParentSlot(old(indices.elems)[index], level) := Some(s)]
      ensures !dropped ==>
                exists s :: InCell(s, old(indices.elems)[index], Spacing(cell, level)) &&
                  !IsDiskFree(old(grid.data[..]), old(indices.elems)[index], level, s)
      ensures Occupied(grid.data[..])
    {
      ThrowCandidates(orig, origData, indices.elems, grid.data[..], level);
      var cur := indices.elems[index];
      assert Candidate(cur, level);
      var parent := grid.GetParent(cur, level);
      var slot := grid.Get(parent);
      ghost var cs := indices.elems;
      ghost var cells := grid.data[..];
      dropped := false;
      if slot.value.Some? {
        var _ := indices.SwapRemove(index);
        ThrowDrop(orig, origData, cs, cells, level, cur, indices.elems);
        dropped := true;
        SlotOccupied(grid.data[..], ParentSlot(cur, level));
      } else {
        var sample := ChooseRandomSample(grid, cur, level);
        if IsDiskFree(grid.data[..], cur, level, sample) {
          var _ := grid.GetMut(parent, Some(sample));
          var _ := indices.SwapRemove(index);
          ThrowWrite(orig, origData, cs, cells, level, cur, sample, indices.elems, grid.data[..]);
          dropped := true;
          SlotOccupied(grid.data[..], ParentSlot(cur, level));
        } else {
          NotDiskFreeOccupied(cells, cur, level, sample);
        }
      }
    }

    /** `throw_samples`: at most `Throws(a, len)` darts, each at a random
        candidate (see `Throw`), stopping early with `false` when no
        candidate is left; `true` otherwise. */
    method ThrowSamples(grid: Grid, indices: Utils.Vec<seq<int>>, level: nat, a: real) returns (more: bool)
      requires Valid() && grid.Valid() && Matches(grid)
      requires |indices.elems| > 0
      requires forall c :: c in indices.elems ==> Candidate(c, level)
      modifies grid.data, indices
      ensures more <==> |indices.elems| > 0
      ensures |old(indices.elems)| - |indices.elems| <= Throws(a, |old(indices.elems)|)
      ensures ThrowProgress(old(indices.elems), old(grid.data[..]), indices.elems, grid.data[..], level)
      ensures forall c :: c in indices.elems ==> Candidate(c, level)
      ensures a > 0.0 ==> Occupied(grid.data[..])
    {
      ghost var orig := indices.elems;
      ghost var origData := grid.data[..];
      ThrowStart(orig, origData, level);
      var throws := Throws(a, |indices.elems|);
      for k := 0 to throws
        invariant |indices.elems| > 0
        invariant |orig| - |indices.elems| <= k
        invariant ThrowProgress(orig, origData, indices.elems, grid.data[..], level)
        invariant k > 0 ==> Occupied(grid.data[..])
      {
        var index :| 0 <= index < |indices.elems|;
        var dropped := Throw(grid, indices, level, index, orig, origData);
        if dropped && |indices.elems| == 0 {
          return false;
        }
      }
      ThrowCandidates(orig, origData, indices.elems, grid.data[..], level);
      return true;
    }
  
    /** A top-level cell is a candidate at level 0. */
    lemma TopLevelCandidate(c: seq<int>)
      requires |c| == dim && forall n :: 0 <= n < dim ==> c[n] in Range(side)
      ensures Candidate(c, 0)
    {
      assert Pow(2, 0) == 1;
      assert Utils.GetParent(c, 0) == c;
      assert forall n :: 0 <= n < dim ==> 0 <= c[n] < side;
    }

    /** Cell `x` at `level` needs no more darts: its top-level slot is
        occupied, or its ancestor `m` levels up, at level 1 or deeper, is
        `Covered`, so that `subdivide` dropped it. */
    ghost predicate Settled(cells: seq<Option<Point>>, x: seq<int>, level: nat)
      requires Valid() && Candidate(x, level) && |cells| == Pow(side, dim)
    {
      cells[ParentSlot(x, level)].Some? || exists m :: AncestorCovered(cells, x, level, m)
    }

    /** The ancestor of `x` (a cell at `level`) `m` levels up, itself at
        level 1 or deeper, is `Covered`. */
    ghost predicate AncestorCovered(cells: seq<Option<Point>>, x: seq<int>, level: nat, m: int)
      requires Valid() && |x| == dim
    {
      0 <= m < level && Covered(cells, Utils.GetParent(x, m), level - m)
    }

    /** Every candidate cell at `level` is either pending (still in `cs`)
        or `Settled`. */
    ghost predicate AllSettled(cs: seq<seq<int>>, cells: seq<Option<Point>>, level: nat)
      requires Valid()
    {
      |cells| == Pow(side, dim) &&
      forall x {:trigger Settled(cells, x, level)} :: Candidate(x, level) ==> x in cs || Settled(cells, x, level)
    }

    /** The grid `after` keeps every sample of the grid `before`. */
    ghost predicate Keeps(before: seq<Option<Point>>, after: seq<Option<Point>>)
      requires Valid()
    {
      |before| == |after| == Pow(side, dim) &&
      forall j :: 0 <= j < |after| && before[j].Some? ==> after[j] == before[j]
    }

    /** A covered ancestor stays covered when every sample is kept: the
        sample that covers it is still there. */
    lemma AncestorCoveredGrows(before: seq<Option<Point>>, after: seq<Option<Point>>, x: seq<int>, level: nat, m: int)
      requires Valid() && Keeps(before, after) && |x| == dim && AncestorCovered(before, x, level, m)
      ensures AncestorCovered(after, x, level, m)
    {
      var up := Utils.GetParent(x, m);
      var k :| 0 <= k < |before| && before[k].Some? && Around(Utils.GetParent(up, level - m), k) &&
               cellCovered(before[k].value, up, level - m);
      assert after[k] == before[k];
    }

    /** A settled cell stays settled when every sample is kept. */
    lemma SettledGrows(before: seq<Option<Point>>, after: seq<Option<Point>>, x: seq<int>, level: nat)
      requires Valid() && Keeps(before, after) && Candidate(x, level) && Settled(before, x, level)
      ensures Settled(after, x, level)
    {
      var j := ParentSlot(x, level);
      if before[j].Some? {
        assert after[j] == before[j];
      } else {
        var m :| AncestorCovered(before, x, level, m);
        AncestorCoveredGrows(before, after, x, level, m);
      }
    }

    /** Before the first round, every candidate at level 0 (every top-level
        cell) is among the combinations `generate` seeds. */
    lemma TopLevelSettled(cells: seq<Option<Point>>)
      requires Valid() && |cells| == Pow(side, dim)
      ensures AllSettled(Utils.AllCombinations(Range(side), dim), cells, 0)
    {
      var all := Utils.AllCombinations(Range(side), dim);
      forall x | Candidate(x, 0) ensures x in all {
        assert Pow(2, 0) == 1;
        assert Utils.GetParent(x, 0) == x;
        var k := Utils.CombinationOnto(x, Range(side));
        assert all[k] == x;
      }
    }

    /** After `throw_samples`, a candidate that was still to be tried is
        still to be tried or has its top-level slot occupied. */
    lemma ThrowsSettle(orig: seq<seq<int>>, origData: seq<Option<Point>>,
                       rest: seq<seq<int>>, cells: seq<Option<Point>>, level: nat)
      requires Valid() && ThrowProgress(orig, origData, rest, cells, level) && AllSettled(orig, origData, level)
      ensures AllSettled(rest, cells, level)
    {
      assert Keeps(origData, cells);
      forall x | Candidate(x, level) ensures x in rest || Settled(cells, x, level) {
        if x !in rest {
          if x in orig {
            assert multiset(rest)[x] == 0;
          } else {
            SettledGrows(origData, cells, x, level);
          }
        }
      }
    }

    /** Cell `x` is a child cell of its parent one level up. */
    lemma ChildOfParent(x: seq<int>)
      ensures IsChildCell(x, Utils.GetParent(x, 1))
    {
      Utils.ParentBracket(x, 1);
      assert Pow(2, 1) == 2;
    }

    /** A covered cell at level 1 or deeper is its own covered ancestor. */
    lemma SelfCovered(cells: seq<Option<Point>>, x: seq<int>, level: nat)
      requires Valid() && |x| == dim && level > 0 && Covered(cells, x, level)
      ensures AncestorCovered(cells, x, level, 0)
    {
      assert Pow(2, 0) == 1;
      assert Utils.GetParent(x, 0) == x;
    }

    /** The covered ancestors of the parent of `x` are ancestors of `x`. */
    lemma AncestorCoveredChild(cells: seq<Option<Point>>, x: seq<int>, level: nat, m: int)
      requires Valid() && |x| == dim && AncestorCovered(cells, Utils.GetParent(x, 1), level, m)
      ensures AncestorCovered(cells, x, level + 1, m + 1)
    {
      Utils.ParentOfParent(x, 1, m);
    }

    /** The children of a candidate of `cs` are among its subdivision. */
    lemma SubdividedMember(cells: seq<Option<Point>>, cs: seq<seq<int>>, level: nat, i: seq<int>, c: seq<int>)
      requires Valid() && forall c :: c in cs ==> Candidate(c, level)
      requires i in cs && |i| == dim && c in Children(cells, i, level)
      ensures c in Subdivided(cells, cs, level)
    {
      var f := ChildrenOf(cells, level);
      SubdividedIsFlatMap(cells, cs, level);
      Utils.FlatMapMember(f, cs, c);
    }

    /** A child cell `x` of a candidate `p` still to be tried is kept by
        `subdivide` unless it is covered. */
    lemma KeptChild(rest: seq<seq<int>>, cells: seq<Option<Point>>, next: seq<seq<int>>, level: nat, p: seq<int>, x: seq<int>)
      requires Valid() && forall c :: c in rest ==> Candidate(c, level)
      requires multiset(next) == multiset(Subdivided(cells, rest, level))
      requires p in rest && |p| == dim && IsChildCell(x, p)
      ensures x in next || AncestorCovered(cells, x, level + 1, 0)
    {
      ChildrenMember(cells, p, level, x);
      if Covered(cells, x, level + 1) {
        SelfCovered(cells, x, level + 1);
      } else {
        SubdividedMember(cells, rest, level, p, x);
        assert x in multiset(next);
      }
    }

    /** A child cell `x` of a settled cell `p` is settled. */
    lemma SettledParent(cells: seq<Option<Point>>, level: nat, p: seq<int>, x: seq<int>)
      requires Valid() && |cells| == Pow(side, dim) && Candidate(p, level) && Candidate(x, level + 1)
      requires p == Utils.GetParent(x, 1) && Settled(cells, p, level)
      ensures Settled(cells, x, level + 1)
    {
      Utils.ParentOfParent(x, 1, level);
      assert ParentSlot(x, level + 1) == ParentSlot(p, level);
      if cells[ParentSlot(p, level)].None? {
        var m :| AncestorCovered(cells, p, level, m);
        AncestorCoveredChild(cells, x, level, m);
      }
    }

    /** A candidate `x` at `level + 1` is a child cell of the candidate
        `GetParent(x, 1)` at `level`: if that one was still to be tried,
        `subdivide` kept `x` unless it is covered; if it was settled, so is `x`. */
    lemma SettledChild(rest: seq<seq<int>>, cells: seq<Option<Point>>, next: seq<seq<int>>, level: nat, x: seq<int>)
      requires Valid() && AllSettled(rest, cells, level) && forall c :: c in rest ==> Candidate(c, level)
      requires multiset(next) == multiset(Subdivided(cells, rest, level))
      requires Candidate(x, level + 1)
      ensures x in next || Settled(cells, x, level + 1)
    {
      var p := Utils.GetParent(x, 1);
      Utils.ParentOfParent(x, 1, level);
      assert Candidate(p, level);
      if p in rest {
        ChildOfParent(x);
        KeptChild(rest, cells, next, level, p, x);
      } else {
        SettledParent(cells, level, p, x);
      }
    }

    /** `subdivide` carries `AllSettled` from `level` to `level + 1`. */
    lemma SubdivideSettles(rest: seq<seq<int>>, cells: seq<Option<Point>>, next: seq<seq<int>>, level: nat)
      requires Valid() && AllSettled(rest, cells, level) && forall c :: c in rest ==> Candidate(c, level)
      requires multiset(next) == multiset(Subdivided(cells, rest, level))
      ensures AllSettled(next, cells, level + 1)
    {
      forall x | Candidate(x, level + 1) ensures x in next || Settled(cells, x, level + 1) {
        SettledChild(rest, cells, next, level, x);
      }
    }

    /** The level loop of `generate`: throw darts at the candidates and, if
        any are left, subdivide them and go one level down; it stops when no
        candidate is left or the level reaches `f64::MANTISSA_DIGITS`. The
        grid only `Grows`. */
    method Refine(grid: Grid, indices: Utils.Vec<seq<int>>) returns (level: nat)
      requires Valid() && grid.Valid() && Matches(grid)
      requires forall c :: c in indices.elems ==> Candidate(c, 0)
      modifies grid.data, indices
      ensures level <= MantissaDigits
      ensures |indices.elems| == 0 || level == MantissaDigits
      ensures Grows(old(grid.data[..]), grid.data[..])
      ensures AllSettled(old(indices.elems), old(grid.data[..]), 0) ==> AllSettled(indices.elems, grid.data[..], level)
      ensures NoneCovered(indices.elems, grid.data[..], level)
      ensures |old(indices.elems)| > 0 ==> Occupied(grid.data[..])
    {
      ghost var origData, orig := grid.data[..], indices.elems;
      level := 0;
      while |indices.elems| > 0 && level < MantissaDigits
        invariant level <= MantissaDigits
        invariant LoopKeeps(orig, origData, indices.elems, grid.data[..], level)
        decreases MantissaDigits - level, |indices.elems|
      {
        var more := Round(grid, indices, level, orig, origData);
        if more {
          level := level + 1;
        }
      }
    }

    /** What the level loop of `generate` keeps about the candidates `cs`
        at `level` and the grid `cells`, given the candidates `orig` and
        the grid `origData` it started from: every candidate is a
        `Candidate`, the grid only `Grows`, settlement is carried from
        level 0, no candidate past level 0 is `Covered`, and once a round
        has run the grid is `Occupied`. */
    ghost predicate LoopKeeps(orig: seq<seq<int>>, origData: seq<Option<Point>>,
                              cs: seq<seq<int>>, cells: seq<Option<Point>>, level: nat)
      requires Valid()
    {
      (forall c :: c in cs ==> Candidate(c, level)) &&
      Grows(origData, cells) &&
      (AllSettled(orig, origData, 0) ==> AllSettled(cs, cells, level)) &&
      (level > 0 ==> NoneCovered(cs, cells, level)) &&
      (|orig| > 0 ==> Occupied(cells) || (level == 0 && |cs| > 0))
    }

    /** One round as the level loop of `generate` relies on it: the round
        keeps `LoopKeeps`, one level down when candidates are left, and
        otherwise at the same level with none left. */
    method Round(grid: Grid, indices: Utils.Vec<seq<int>>, level: nat,
                 ghost orig: seq<seq<int>>, ghost origData: seq<Option<Point>>) returns (more: bool)
      requires Valid() && grid.Valid() && Matches(grid) && |indices.elems| > 0
      requires LoopKeeps(orig, origData, indices.elems, grid.data[..], level)
      modifies grid.data, indices
      ensures !more ==> indices.elems == []
      ensures LoopKeeps(orig, origData, indices.elems, grid.data[..], if more then level + 1 else level)
    {
      ghost var before := grid.data[..];
      ghost var rest;
      more, rest := RefineLevel(grid, indices, level);
      GrowsTrans(origData, before, grid.data[..]);
    }

    /** One round of the level loop of `generate`: throw darts at the
        candidates of `level` and, if some are left (`rest`, related to the
        old candidates and slots by `ThrowProgress`), subdivide them into
        the candidates of the next level. */
    method RefineLevel(grid: Grid, indices: Utils.Vec<seq<int>>, level: nat) returns (more: bool, ghost rest: seq<seq<int>>)
      requires Valid() && grid.Valid() && Matches(grid)
      requires |indices.elems| > 0 && forall c :: c in indices.elems ==> Candidate(c, level)
      modifies grid.data, indices
      ensures Grows(old(grid.data[..]), grid.data[..])
      ensures multiset(rest) <= multiset(old(indices.elems))
      ensures forall c :: c in rest ==> Candidate(c, level)
      ensures forall c :: c in old(indices.elems) && multiset(rest)[c] < multiset(old(indices.elems))[c] ==>
                grid.data[ParentSlot(c, level)].Some?
      ensures more <==> |rest| > 0
      ensures !more ==> indices.elems == []
      ensures more ==> multiset(indices.elems) == multiset(Subdivided(grid.data[..], rest, level))
      ensures more ==> forall c :: c in indices.elems ==> Candidate(c, level + 1)
      ensures AllSettled(old(indices.elems), old(grid.data[..]), level) ==>
                if more then AllSettled(indices.elems, grid.data[..], level + 1)
                else AllSettled([], grid.data[..], level)
      ensures more ==> NoneCovered(indices.elems, grid.data[..], level + 1)
      ensures Occupied(grid.data[..])
    {
      ghost var orig, origData := indices.elems, grid.data[..];
      more := ThrowSamples(grid, indices, level, 0.3);
      rest := indices.elems;
      ThrowCandidates(orig, origData, rest, grid.data[..], level);
      ghost var settled := AllSettled(orig, origData, level);
      if settled {
        ThrowsSettle(orig, origData, rest, grid.data[..], level);
      }
      if more {
        Subdivide(grid, indices, level);
        if settled {
          SubdivideSettles(rest, grid.data[..], indices.elems, level);
        }
      }
    }

    /** `generate`: seeds the candidates with every top-level cell, then
        throws and subdivides level by level until no candidate is left or
        the level reaches `f64::MANTISSA_DIGITS`, and finally appends one
        sample per occupied slot to `points`. The points already in `points`
        are not loaded into the grid. `cells` is the final grid and `level`
        the level reached: each occupied slot holds a sample of its own
        top-level cell, and two samples in slots around each other are
        `far` apart. */
    method Generate(points: Utils.Vec<Sample>)
      returns (ghost cells: seq<Option<Point>>, ghost level: nat, ghost remaining: seq<seq<int>>)
      requires Valid()
      modifies points
      ensures points.elems == old(points.elems) + Extended(cells, radius)
      ensures |cells| == Pow(side, dim)
      ensures forall j :: 0 <= j < |cells| && cells[j].Some? ==> InCell(cells[j].value, SlotCell(j), cell)
      ensures forall j, k ::
                (0 <= j < |cells| && 0 <= k < |cells| && j != k && cells[j].Some? && cells[k].Some? && Around(SlotCell(j), k)) ==>
                far(cells[k].value, cells[j].value) || far(cells[j].value, cells[k].value)
      ensures level <= MantissaDigits
      ensures remaining == [] || level == MantissaDigits
      ensures AllSettled(remaining, cells, level)
      ensures NoneCovered(remaining, cells, level)
      ensures Occupied(cells)
    {
      var grid := new Grid(cell, side, dim, periodicity);
      ghost var empty := grid.data[..];
      var indices := new Utils.Vec<seq<int>>([]);
      var choices := Range(side);
      var combinations := new Utils.CombiIter(choices, dim);
      Utils.ExtendCombinations(indices, combinations);
      assert indices.elems == Utils.AllCombinations(choices, dim);
      forall c | c in indices.elems ensures Candidate(c, 0) {
        TopLevelCandidate(c);
      }
      TopLevelSettled(empty);
      PowPositive(side, dim);
      level := Refine(grid, indices);
      remaining := indices.elems;
      grid.IntoExtendedSamples(points, radius);
      cells := grid.data[..];
      GrownFromEmpty(empty, cells);
    }
  }
}
