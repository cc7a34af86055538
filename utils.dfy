/** Helper machinery of the sampler (src/utils/mod.rs): cell addressing
    (`encode`, `decode`, `get_parent`), the bucket grid, the combination
    iterator and the in-place flat-map over a vector.

    Cell coordinates are whole numbers, so a D-dimensional index vector is a
    `seq<int>` of length D. */
module Utils {
  import opened Arith
  import opened Wrappers

  /** Addressing mode of a grid: clamped (`Normal`) or wrapping (`Perioditic`). */
  datatype Type = Normal | Perioditic

  // ---------------------------------------------------------------------
  // Cell addressing
  // ---------------------------------------------------------------------

  /** Every component lies in `[0, side)`. */
  predicate InGrid(v: seq<int>, side: nat)
  {
    forall n :: 0 <= n < |v| ==> 0 <= v[n] < side
  }

  /** Each component taken modulo `side` (non-negative remainder). */
  function Wrapped(v: seq<int>, side: nat): (w: seq<int>)
    requires side > 0
    ensures |w| == |v| && InGrid(w, side)
  {
    seq(|v|, n requires 0 <= n < |v| => v[n] % side)
  }

  /** The digits that `encode` accumulates: the coordinate itself in
      `Normal` mode, its wrapped components in `Perioditic` mode. */
  function Digits(v: seq<int>, side: nat, t: Type): seq<int>
    requires side > 0 || t == Normal
  {
    if t == Normal then v else Wrapped(v, side)
  }

  /** Mixed-radix value of `ds` in base `side`, first digit most significant. */
  function Value(ds: seq<int>, side: nat): int
  {
    if ds == [] then 0 else Value(ds[..|ds| - 1], side) * side + ds[|ds| - 1]
  }

  /** Reference meaning of a cell's flat index: the mixed-radix value of its
      digits, or no cell for a `Normal` coordinate outside the grid. */
  function CellIndex(v: seq<int>, side: nat, t: Type): Option<nat>
    requires side > 0 || (t == Normal && |v| > 0)
  {
    if t == Normal && !InGrid(v, side) then None
    else
      ValueBound(Digits(v, side, t), side);
      Some(Value(Digits(v, side, t), side))
  }

  /** The value of in-grid digits is an index into a `side^|ds|` array. */
  lemma {:induction false} ValueBound(ds: seq<int>, side: nat)
    requires InGrid(ds, side)
    ensures 0 <= Value(ds, side) < Pow(side, |ds|)
  {
    if ds != [] {
      var pre := ds[..|ds| - 1];
      assert InGrid(pre, side);
      ValueBound(pre, side);
      AppendDigit(Value(pre, side), Pow(side, |pre|), ds[|ds| - 1], side);
    }
  }

  /** One component of the loop in `encode`: `None` stops the loop. */
  function Digit(x: int, side: nat, t: Type): Option<nat>
    requires side > 0 || t == Normal
  {
    match t
    case Perioditic => Some(x % side)
    case Normal => if x < 0 || x >= side then None else Some(x)
  }

  /** The loop of `encode` from component `n` on, with accumulator `index`
      (`index = (index + cur) * side` per component, `index / side` at the end). */
  function EncodeFrom(v: seq<int>, side: nat, t: Type, n: nat, index: nat): Option<nat>
    requires n <= |v|
    requires side > 0 || (t == Normal && n < |v|)
    decreases |v| - n
  {
    if n == |v| then Some(index / side)
    else
      match Digit(v[n], side, t)
      case None => None
      case Some(cur) => EncodeFrom(v, side, t, n + 1, (index + cur) * side)
  }

  /** The accumulator after `n` components is the value of the first `n`
      digits times `side`; from there the loop finishes with the reference index. */
  lemma {:induction false} EncodeFromValue(v: seq<int>, side: nat, t: Type, n: nat)
    requires n <= |v|
    requires side > 0 || (t == Normal && n < |v|)
    requires t == Normal ==> InGrid(v[..n], side)
    decreases |v| - n
    ensures 0 <= Value(Digits(v, side, t)[..n], side) * side
    ensures EncodeFrom(v, side, t, n, Value(Digits(v, side, t)[..n], side) * side) == CellIndex(v, side, t)
  {
    var ds := Digits(v, side, t);
    assert InGrid(ds[..n], side);
    ValueBound(ds[..n], side);
    var acc := Value(ds[..n], side) * side;
    MulMonotone(0, Value(ds[..n], side), side);
    if n == |v| {
      assert ds[..n] == ds;
      assert v[..n] == v;
      DivModUnique(acc, side, Value(ds, side), 0);
    } else if Digit(v[n], side, t).Some? {
      var cur := Digit(v[n], side, t).value;
      assert cur == ds[n];
      assert ds[..n + 1][..n] == ds[..n];
      assert acc + cur == Value(ds[..n + 1], side);
      if t == Normal {
        assert v[..n + 1] == v[..n] + [v[n]];
      }
      EncodeFromValue(v, side, t, n + 1);
    } else {
      assert t == Normal && !InGrid(v, side);
    }
  }

  /** `encode`: the flat index of cell `v` in a `side^D` array, or `None`
      in `Normal` mode when some component lies outside `[0, side)`. */
  function Encode(v: seq<int>, side: nat, t: Type): (r: Option<nat>)
    requires side > 0 || (t == Normal && |v| > 0)
    ensures r == CellIndex(v, side, t)
    ensures r.None? <==> t == Normal && exists n :: 0 <= n < |v| && (v[n] < 0 || v[n] >= side)
    ensures r.Some? ==> r.value < Pow(side, |v|)
  {
    EncodeFromValue(v, side, t, 0);
    assert Digits(v, side, t)[..0] == [];
    var r := EncodeFrom(v, side, t, 0, 0);
    if r.Some? then
      ValueBound(Digits(v, side, t), side);
      r
    else
      r
  }

  /** The loop of `decode` over the last `n` components, from the last one
      back: each step keeps `last - (last / side) * side` and divides by `side`. */
  function DecodeFrom(last: int, side: nat, n: nat): seq<int>
    requires side > 0 || n == 0
    decreases n
  {
    if n == 0 then [] else DecodeFrom(last / side, side, n - 1) + [last - (last / side) * side]
  }

  /** Decoding an index below `side^n` gives in-grid digits whose value is that index. */
  lemma {:induction false} DecodeFromValue(index: nat, side: nat, n: nat)
    requires side > 0 && index < Pow(side, n)
    ensures |DecodeFrom(index, side, n)| == n
    ensures InGrid(DecodeFrom(index, side, n), side)
    ensures Value(DecodeFrom(index, side, n), side) == index
    decreases n
  {
    if n > 0 {
      var ds := DecodeFrom(index, side, n);
      var q := index / side;
      DivBelow(index, side, Pow(side, n - 1));
      FloorDiv(index, side);
      DecodeFromValue(q, side, n - 1);
      var pre := DecodeFrom(q, side, n - 1);
      assert ds == pre + [index - q * side];
      assert ds[..|ds| - 1] == pre;
      assert Value(ds, side) == Value(pre, side) * side + (index - q * side);
    }
  }

  /** Decoding the value of in-grid digits gives back the digits. */
  lemma {:induction false} DecodeFromOfValue(ds: seq<int>, side: nat)
    requires side > 0 && InGrid(ds, side)
    ensures 0 <= Value(ds, side)
    ensures DecodeFrom(Value(ds, side), side, |ds|) == ds
  {
    ValueBound(ds, side);
    if ds != [] {
      var pre := ds[..|ds| - 1];
      assert InGrid(pre, side);
      ValueBound(pre, side);
      DivModUnique(Value(ds, side), side, Value(pre, side), ds[|ds| - 1]);
      DecodeFromOfValue(pre, side);
    }
  }

  /** `decode`: the coordinate of flat index `index` in a `side^dim` array,
      or `None` when the index is past the end. */
  function Decode(index: nat, side: nat, dim: nat): (r: Option<seq<int>>)
    ensures r.None? <==> index >= Pow(side, dim)
    ensures r.Some? ==> |r.value| == dim && InGrid(r.value, side)
    ensures r.Some? && side > 0 ==> Encode(r.value, side, Normal) == Some(index)
  {
    if index >= Pow(side, dim) then None
    else
      assert side > 0 || dim == 0 by {
        if side == 0 && dim > 0 { PowZeroBase(dim); }
      }
      if side > 0 then
        DecodeFromValue(index, side, dim);
        Some(DecodeFrom(index, side, dim))
      else
        Some(DecodeFrom(index, side, dim))
  }

  /** Round trip: decoding the index of an in-grid coordinate gives it back. */
  lemma DecodeEncode(c: seq<int>, side: nat)
    requires side > 0 && InGrid(c, side)
    ensures Encode(c, side, Normal).Some?
    ensures Decode(Encode(c, side, Normal).value, side, |c|) == Some(c)
  {
    ValueBound(c, side);
    DecodeFromOfValue(c, side);
  }

  /** Round trip the other way: every index below `side^dim` is the index of
      exactly the coordinate that `decode` returns. */
  lemma EncodeDecode(index: nat, side: nat, dim: nat)
    requires side > 0 && index < Pow(side, dim)
    ensures Decode(index, side, dim).Some?
    ensures Encode(Decode(index, side, dim).value, side, Normal) == Some(index)
  {
  }

  /** In `Perioditic` mode adding a multiple of `side` to one component
      leaves the index unchanged. */
  lemma PeriodicEncodeShift(v: seq<int>, side: nat, n: nat, k: int)
    requires side > 0 && n < |v|
    ensures Encode(v[n := v[n] + k * side], side, Perioditic) == Encode(v, side, Perioditic)
  {
    var w := v[n := v[n] + k * side];
    DivModUnique(v[n] + k * side, side, v[n] / side + k, v[n] % side);
    assert Wrapped(w, side) == Wrapped(v, side);
  }

  /** A `Perioditic` coordinate has the index of its wrapped coordinate. */
  lemma PeriodicEncodeIsWrapped(v: seq<int>, side: nat)
    requires side > 0
    ensures Encode(v, side, Perioditic) == Encode(Wrapped(v, side), side, Normal)
  {
  }

  /** An in-grid coordinate has the same index in both modes. */
  lemma InGridEncodeEither(v: seq<int>, side: nat)
    requires side > 0 && InGrid(v, side)
    ensures Encode(v, side, Perioditic) == Encode(v, side, Normal)
  {
    assert Wrapped(v, side) == v by {
      forall n | 0 <= n < |v| ensures v[n] % side == v[n] {
        DivModUnique(v[n], side, 0, v[n]);
      }
    }
  }

  /** Euclidean division by a positive `d` is floor division. */
  lemma FloorDiv(x: int, d: int)
    requires d > 0
    ensures (x / d) * d <= x < (x / d + 1) * d
  {
  }

  /** `get_parent`: each component divided by `2^level` and floored. */
  function GetParent(index: seq<int>, level: nat): (r: seq<int>)
    ensures |r| == |index|
  {
    PowPositive(2, level);
    seq(|index|, n requires 0 <= n < |index| => index[n] / Pow(2, level))
  }

  /** The coarse cell `GetParent(index, level)` at level 0 contains the fine
      cell `index` at `level`: each component of `index` lies between
      `2^level` times the parent's and `2^level` times the next one. */
  lemma ParentBracket(index: seq<int>, level: nat)
    ensures forall n :: 0 <= n < |index| ==>
              GetParent(index, level)[n] * Pow(2, level) <= index[n] < (GetParent(index, level)[n] + 1) * Pow(2, level)
  {
    PowPositive(2, level);
    forall n | 0 <= n < |index|
      ensures GetParent(index, level)[n] * Pow(2, level) <= index[n] < (GetParent(index, level)[n] + 1) * Pow(2, level)
    {
      FloorDiv(index[n], Pow(2, level));
    }
  }

  /** The floor bracket determines the parent: no other coarse cell contains `index`. */
  lemma ParentUnique(index: seq<int>, level: nat, r: seq<int>)
    requires |r| == |index|
    requires forall n :: 0 <= n < |index| ==>
               r[n] * Pow(2, level) <= index[n] < (r[n] + 1) * Pow(2, level)
    ensures r == GetParent(index, level)
  {
    PowPositive(2, level);
    var p := GetParent(index, level);
    forall n | 0 <= n < |index| ensures r[n] == p[n] {
      DivModUnique(index[n], Pow(2, level), r[n], index[n] - r[n] * Pow(2, level));
    }
  }

  /** Coarsening by `k1` levels and then by `k2` is coarsening by `k1 + k2`. */
  lemma ParentOfParent(index: seq<int>, k1: nat, k2: nat)
    ensures GetParent(GetParent(index, k1), k2) == GetParent(index, k1 + k2)
  {
    PowPositive(2, k1);
    PowPositive(2, k2);
    PowAdd(2, k1, k2);
    var lhs := GetParent(GetParent(index, k1), k2);
    forall n | 0 <= n < |index| ensures lhs[n] == GetParent(index, k1 + k2)[n] {
      DivDiv(index[n], Pow(2, k1), Pow(2, k2));
    }
  }

  // ---------------------------------------------------------------------
  // Bucket grid
  // ---------------------------------------------------------------------

  /** The bucket variant of the grid: `side^dim` buckets of points, addressed
      only through `Encode`. The point type `P` is left abstract. */
  class Grid<P> {
    const data: array<seq<P>>
    const side: nat
    const dim: nat
    const poissonType: Type

    /** `Grid::new` with the cell count per side already computed. */
    constructor (side: nat, dim: nat, poissonType: Type)
      ensures this.side == side && this.dim == dim && this.poissonType == poissonType
      ensures Valid() && fresh(data)
      ensures forall j :: 0 <= j < data.Length ==> data[j] == []
    {
      this.side := side;
      this.dim := dim;
      this.poissonType := poissonType;
      data := new seq<P>[Pow(side, dim)](_ => []);
    }

    predicate Valid()
    {
      data.Length == Pow(side, dim)
    }

    /** `cells`: the number of buckets. */
    function Cells(): (r: nat)
      requires Valid()
      ensures r == Pow(side, dim)
    {
      data.Length
    }

    /** `get`: the bucket of cell `index`, `None` exactly when `encode` rejects it. */
    function Get(index: seq<int>): (r: Option<seq<P>>)
      requires Valid() && |index| == dim
      requires side > 0 || (poissonType == Normal && dim > 0)
      reads data
      ensures r.None? <==> poissonType == Normal && !InGrid(index, side)
      ensures r.Some? ==> r.value == data[Encode(index, side, poissonType).value]
    {
      match Encode(index, side, poissonType)
      case None => None
      case Some(t) => Some(data[t])
    }

    /** `get_mut`: mutable access to the bucket of cell `index`; the caller's
        change to the bucket is the function `update`. */
    method GetMut(index: seq<int>, update: seq<P> -> seq<P>) returns (found: bool)
      requires Valid() && |index| == dim
      requires side > 0 || (poissonType == Normal && dim > 0)
      modifies data
      ensures found <==> old(Get(index)).Some?
      ensures found ==> Get(index) == Some(update(old(Get(index)).value))
      ensures forall j :: 0 <= j < data.Length && Encode(index, side, poissonType) != Some(j) ==>
                data[j] == old(data[j])
    {
      match Encode(index, side, poissonType)
      case None =>
        found := false;
      case Some(t) =>
        data[t] := update(data[t]);
        found := true;
    }
  }

  // ---------------------------------------------------------------------
  // Combination iterator
  // ---------------------------------------------------------------------

  /** The `k`-th vector that `each_combination(choices)` yields in `dim`
      dimensions: `k` written in base `|choices|`, least significant digit
      first, each digit selecting a component from `choices`. */
  function Combination(k: int, choices: seq<int>, dim: nat): (w: seq<int>)
    requires |choices| > 0 || dim == 0
    decreases dim
    ensures |w| == dim
    ensures forall n :: 0 <= n < dim ==> w[n] in choices
  {
    if dim == 0 then []
    else [choices[k % |choices|]] + Combination(k / |choices|, choices, dim - 1)
  }

  /** Everything `each_combination(choices)` yields, in order. */
  function AllCombinations(choices: seq<int>, dim: nat): (ws: seq<seq<int>>)
    ensures |ws| == Pow(|choices|, dim)
  {
    if |choices| == 0 && dim > 0 then
      PowZeroBase(dim);
      []
    else
      seq(Pow(|choices|, dim), k => Combination(k, choices, dim))
  }

  /** Every vector yielded has `dim` components, each one of `choices`. */
  lemma AllCombinationsShape(choices: seq<int>, dim: nat)
    ensures forall w :: w in AllCombinations(choices, dim) ==>
              |w| == dim && forall n :: 0 <= n < dim ==> w[n] in choices
  {
  }

  /** Component `n` of the `k`-th vector is `choices[(k / len^n) % len]`. */
  lemma {:induction false} CombinationComponent(k: nat, choices: seq<int>, dim: nat, n: nat)
    requires |choices| > 0 && n < dim
    ensures Pow(|choices|, n) > 0
    ensures Combination(k, choices, dim)[n] == choices[(k / Pow(|choices|, n)) % |choices|]
    decreases n
  {
    var len := |choices|;
    PowPositive(len, n);
    var w := Combination(k, choices, dim);
    if n > 0 {
      var q := k / len;
      assert Pow(len, n - 1) > 0 && q >= 0 by {
        PowPositive(len, n - 1);
        DivNonneg(k, len);
      }
      assert w[n] == Combination(q, choices, dim - 1)[n - 1];
      assert Combination(q, choices, dim - 1)[n - 1] == choices[(q / Pow(len, n - 1)) % len] by {
        CombinationComponent(q, choices, dim - 1, n - 1);
      }
      assert q / Pow(len, n - 1) == k / Pow(len, n) by {
        DivPow(k, len, n);
      }
    }
  }

  predicate Distinct(s: seq<int>)
  {
    forall i, j :: 0 <= i < j < |s| ==> s[i] != s[j]
  }

  /** With distinct choices no vector is yielded twice. */
  lemma {:induction false} CombinationInjective(k1: nat, k2: nat, choices: seq<int>, dim: nat)
    requires Distinct(choices) && |choices| > 0
    requires k1 < Pow(|choices|, dim) && k2 < Pow(|choices|, dim)
    requires Combination(k1, choices, dim) == Combination(k2, choices, dim)
    ensures k1 == k2
    decreases dim
  {
    var len := |choices|;
    if dim > 0 {
      var w1, w2 := Combination(k1, choices, dim), Combination(k2, choices, dim);
      assert w1[0] == choices[k1 % len] && w2[0] == choices[k2 % len];
      assert k1 % len == k2 % len;
      assert w1[1..] == Combination(k1 / len, choices, dim - 1);
      DivBelow(k1, len, Pow(len, dim - 1));
      DivBelow(k2, len, Pow(len, dim - 1));
      CombinationInjective(k1 / len, k2 / len, choices, dim - 1);
    }
  }

  /** Every vector whose components are drawn from `choices` is yielded. */
  lemma {:induction false} CombinationOnto(w: seq<int>, choices: seq<int>) returns (k: nat)
    requires forall n :: 0 <= n < |w| ==> w[n] in choices
    ensures |choices| > 0 || |w| == 0
    ensures k < Pow(|choices|, |w|) && Combination(k, choices, |w|) == w
    decreases |w|
  {
    if w == [] {
      k := 0;
    } else {
      var len := |choices|;
      assert w[0] in choices;
      var i :| 0 <= i < len && choices[i] == w[0];
      var rest := CombinationOnto(w[1..], choices);
      k := i + len * rest;
      assert k / len == rest && k % len == i && k < Pow(len, |w|) by {
        DivModUnique(k, len, rest, i);
        AppendDigit(rest, Pow(len, |w| - 1), i, len);
      }
      assert Combination(k, choices, |w|) == [w[0]] + w[1..];
    }
  }

  /** `each_combination` with distinct choices yields every vector over
      `choices` exactly once. */
  lemma AllCombinationsExactlyOnce(choices: seq<int>, dim: nat)
    requires Distinct(choices)
    ensures forall i, j :: 0 <= i < j < |AllCombinations(choices, dim)| ==>
              AllCombinations(choices, dim)[i] != AllCombinations(choices, dim)[j]
    ensures forall w :: |w| == dim && (forall n :: 0 <= n < dim ==> w[n] in choices) ==>
              w in AllCombinations(choices, dim)
  {
    var all := AllCombinations(choices, dim);
    forall i, j | 0 <= i < j < |all| ensures all[i] != all[j] {
      if all[i] == all[j] {
        CombinationInjective(i, j, choices, dim);
      }
    }
    forall w | |w| == dim && (forall n :: 0 <= n < dim ==> w[n] in choices)
      ensures w in all
    {
      var k := CombinationOnto(w, choices);
      assert all[k] == w;
    }
  }

  /** `CombiIter`: the state of `each_combination(choices)` is the counter `cur`. */
  class CombiIter {
    var cur: nat
    const choices: seq<int>
    const dim: nat

    /** `each_combination`: a fresh iterator with its counter at zero. */
    constructor (choices: seq<int>, dim: nat)
      ensures this.choices == choices && this.dim == dim && cur == 0
    {
      this.choices := choices;
      this.dim := dim;
      cur := 0;
    }

    /** `next`: the `cur`-th combination while `cur < len^dim`, and `None`
        from then on without advancing the counter. */
    method Next() returns (r: Option<seq<int>>)
      modifies this
      ensures old(cur) < Pow(|choices|, dim) ==>
                r == Some(AllCombinations(choices, dim)[old(cur)]) && cur == old(cur) + 1
      ensures old(cur) >= Pow(|choices|, dim) ==> r == None && cur == old(cur)
    {
      var len := |choices|;
      if cur >= Pow(len, dim) {
        r := None;
      } else {
        assert len > 0 || dim == 0 by {
          if len == 0 && dim > 0 { PowZeroBase(dim); }
        }
        var result := seq(dim, _ => 0);
        var div: int := cur;
        cur := cur + 1;
        var n := 0;
        while n < dim
          invariant n <= dim && |result| == dim && cur == old(cur) + 1
          invariant result[..n] + Combination(div, choices, dim - n) == Combination(old(cur), choices, dim)
        {
          var rem := div % len;
          ghost var rest := Combination(div / len, choices, dim - n - 1);
          assert Combination(div, choices, dim - n) == [choices[rem]] + rest;
          div := div / len;
          result := result[n := choices[rem]];
          assert result[..n + 1] == result[..n] + [choices[rem]];
          n := n + 1;
        }
        assert Combination(div, choices, 0) == [];
        assert result[..n] == result;
        assert result == Combination(old(cur), choices, dim);
        assert AllCombinations(choices, dim)[old(cur)] == Combination(old(cur), choices, dim);
        r := Some(result);
      }
    }
  }

  // ---------------------------------------------------------------------
  // Vector and in-place flat-map
  // ---------------------------------------------------------------------

  /** `f` applied to each element in turn, the results concatenated. */
  function FlatMap<T>(f: T --> seq<T>, s: seq<T>): seq<T>
    requires forall x :: x in s ==> f.requires(x)
  {
    if s == [] then [] else f(s[0]) + FlatMap(f, s[1..])
  }

  function Reversed<T>(s: seq<T>): seq<T>
  {
    if s == [] then [] else Reversed(s[1..]) + [s[0]]
  }

  /** Something is in the flat-map exactly when it is in the image of some element. */
  lemma {:induction false} FlatMapMember<T>(f: T --> seq<T>, s: seq<T>, y: T)
    requires forall x :: x in s ==> f.requires(x)
    ensures y in FlatMap(f, s) <==> exists x :: x in s && y in f(x)
  {
    if s != [] {
      FlatMapMember(f, s[1..], y);
      assert forall x :: x in s <==> x == s[0] || x in s[1..];
    }
  }

  /** The flat-map is at most `bound` times as long when every image is. */
  lemma {:induction false} FlatMapLength<T>(f: T --> seq<T>, s: seq<T>, bound: nat)
    requires forall x :: x in s ==> f.requires(x) && |f(x)| <= bound
    ensures |FlatMap(f, s)| <= bound * |s|
  {
    if s != [] {
      FlatMapLength(f, s[1..], bound);
      assert bound * |s| == bound * |s[1..]| + bound;
    }
  }

  /** One round of `flat_map_inplace`: swap-removing element `i` of
      `before` gave `mid`, and pushing its images gave `after`. */
  lemma FlatMapInplaceStep<T>(f: T --> seq<T>, orig: seq<T>, i: nat, before: seq<T>, mid: seq<T>, after: seq<T>)
    requires i < |orig| && i < |before| && i <= |mid|
    requires forall x :: x in orig ==> f.requires(x)
    requires before[..i + 1] == orig[..i + 1]
    requires multiset(before[i + 1..]) == multiset(FlatMap(f, orig[i + 1..]))
    requires mid[..i] == before[..i]
    requires multiset(mid[i..]) == multiset(before[i + 1..])
    requires after == mid + f(orig[i])
    ensures after[..i] == orig[..i]
    ensures multiset(after[i..]) == multiset(FlatMap(f, orig[i..]))
    ensures Reversed(orig[i..]) == Reversed(orig[i + 1..]) + [orig[i]]
  {
    assert orig[i..][1..] == orig[i + 1..];
    assert after[i..] == mid[i..] + f(orig[i]);
    assert before[..i] == orig[..i];
    assert after[..i] == mid[..i];
  }

  /** The contents after `swap_remove(i)`: element `i` is replaced by the
      last element, which leaves the end. */
  function SwapRemoved<T>(s: seq<T>, i: nat): (r: seq<T>)
    requires i < |s|
    ensures |r| == |s| - 1 && r[..i] == s[..i]
    ensures multiset(r) + multiset{s[i]} == multiset(s)
  {
    if i == |s| - 1 then
      assert s == s[..i] + [s[i]];
      s[..i]
    else
      assert s == s[..i] + [s[i]] + s[i + 1..|s| - 1] + [s[|s| - 1]];
      s[..i] + [s[|s| - 1]] + s[i + 1..|s| - 1]
  }

  /** A Rust `Vec`: its contents are `elems`. */
  class Vec<T> {
    var elems: seq<T>

    constructor (elems: seq<T>)
      ensures this.elems == elems
    {
      this.elems := elems;
    }

    method Push(x: T)
      modifies this
      ensures elems == old(elems) + [x]
    {
      elems := elems + [x];
    }

    /** `swap_remove`: removes element `i`, moving the last element into its place. */
    method SwapRemove(i: nat) returns (x: T)
      requires i < |elems|
      modifies this
      ensures x == old(elems)[i]
      ensures elems == SwapRemoved(old(elems), i)
      ensures elems[..i] == old(elems)[..i]
      ensures multiset(elems[i..]) == multiset(old(elems)[i + 1..])
      ensures multiset(elems) + multiset{x} == multiset(old(elems))
    {
      var last := |elems| - 1;
      x := elems[i];
      ghost var s := elems;
      if i == last {
        elems := elems[..i];
        assert s == elems + [x];
      } else {
        elems := elems[..i] + [elems[last]] + elems[i + 1..last];
        assert s[i + 1..] == s[i + 1..last] + [s[last]];
        assert elems[i..] == [s[last]] + s[i + 1..last];
        assert s == s[..i] + [x] + s[i + 1..];
        assert elems == elems[..i] + elems[i..];
      }
    }

    /** Pushes `images` one by one, as the `for` loop of `flat_map_inplace` does. */
    method PushAll(images: seq<T>)
      modifies this
      ensures elems == old(elems) + images
    {
      var j := 0;
      while j < |images|
        invariant 0 <= j <= |images|
        invariant elems == old(elems) + images[..j]
      {
        Push(images[j]);
        assert images[..j + 1] == images[..j] + [images[j]];
        j := j + 1;
      }
      assert images[..j] == images;
    }

    /** `flat_map_inplace`: replaces the contents by the flat-map of `f`
        over them, without keeping the order. Going from the back, each
        element is swap-removed and its images pushed; `applied` records
        the arguments `f` received, one per original element, last first. */
    method FlatMapInplace(f: T --> seq<T>) returns (ghost applied: seq<T>)
      requires forall x :: x in elems ==> f.requires(x)
      modifies this
      ensures multiset(elems) == multiset(FlatMap(f, old(elems)))
      ensures applied == Reversed(old(elems))
    {
      ghost var orig := elems;
      applied := [];
      var i := |elems|;
      while i > 0
        invariant 0 <= i <= |orig| && i <= |elems|
        invariant elems[..i] == orig[..i]
        invariant multiset(elems[i..]) == multiset(FlatMap(f, orig[i..]))
        invariant applied == Reversed(orig[i..])
      {
        i := i - 1;
        ghost var before := elems;
        assert before[..i + 1] == orig[..i + 1];
        assert before[i] == orig[i] && orig[i] in orig by {
          assert before[..i + 1][i] == orig[..i + 1][i];
        }
        var x := SwapRemove(i);
        var images := f(x);
        ghost var mid := elems;
        PushAll(images);
        applied := applied + [x];
        FlatMapInplaceStep(f, orig, i, before, mid, elems);
      }
      assert elems[0..] == elems;
      assert orig[0..] == orig;
    }
  }

  /** `extend` from a combination iterator: pushes what `it` still
      yields, leaving it exhausted. */
  method ExtendCombinations(v: Vec<seq<int>>, it: CombiIter)
    requires it.cur <= Pow(|it.choices|, it.dim)
    modifies v, it
    ensures it.cur == Pow(|it.choices|, it.dim)
    ensures v.elems == old(v.elems) + AllCombinations(it.choices, it.dim)[old(it.cur)..]
  {
    ghost var all := AllCombinations(it.choices, it.dim);
    ghost var start := it.cur;
    var done := false;
    while !done
      invariant start <= it.cur <= |all|
      invariant v.elems == old(v.elems) + all[start..it.cur]
      invariant done ==> it.cur == |all|
      decreases |all| - it.cur, !done
    {
      ghost var k := it.cur;
      var next := it.Next();
      if next.None? {
        done := true;
      } else {
        assert it.cur == k + 1 && next.value == all[k];
        assert all[start..k + 1] == all[start..k] + [all[k]];
        v.Push(next.value);
      }
    }
  }

  /** The flat-map of the source's own test: `t % 3 == 0` drops `t`, `1`
      keeps it, `2` adds `t + 1` after it. */
  function MappingTestImages(t: int): (r: seq<int>)
  {
    var m := if t >= 0 then t % 3 else -((-t) % 3);  // Rust's `%` truncates
    if m == 0 then [] else if m == 1 then [t] else [t, t + 1]
  }

  /** The images, in order, of 1 to 6 under the test's closure. */
  lemma MappingTestFlatMap()
    ensures FlatMap(MappingTestImages, [1, 2, 3, 4, 5, 6]) == [1, 2, 3, 4, 5, 6]
  {
  }

  /** The flat-map test, compared as multisets (the order is not kept). */
  method MappingInplaceWorks() returns (result: seq<int>)
    ensures multiset(result) == multiset([1, 2, 3, 4, 5, 6])
  {
    var v := new Vec([1, 2, 3, 4, 5, 6]);
    var _ := v.FlatMapInplace(MappingTestImages);
    result := v.elems;
    MappingTestFlatMap();
  }
}
