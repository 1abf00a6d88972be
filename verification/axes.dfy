/** Axis utilities shared by broadcast and squeeze: unsigned index
    arithmetic, axis normalisation, erasing by position, and selecting the
    dimensions that survive a removal. */
module Axes {
  import opened Wrappers
  import opened Shapes
  import opened Graph

  /** Values of `size_t` are taken modulo 2^64. */
  const SizeTModulus: nat := 0x1_0000_0000_0000_0000

  /** Conversion of a signed value to `size_t`: negative values wrap around. */
  function SizeT(x: int): (r: nat)
    ensures r < SizeTModulus
    ensures 0 <= x < SizeTModulus ==> r == x
    ensures -(SizeTModulus as int) <= x < 0 ==> r == x + SizeTModulus
  {
    x % SizeTModulus
  }

  predicate NonDecreasing(xs: seq<nat>) {
    forall i, j | 0 <= i < j < |xs| :: xs[i] <= xs[j]
  }

  predicate StrictlyAscending(xs: seq<nat>) {
    forall i, j | 0 <= i < j < |xs| :: xs[i] < xs[j]
  }

  predicate Distinct(xs: seq<nat>) {
    forall i, j | 0 <= i < j < |xs| :: xs[i] != xs[j]
  }

  /** The set of values in a list of axes (`AxisSet`, `std::set`). */
  function AxisSet(xs: seq<nat>): set<nat> {
    set x | x in xs
  }

  /** The axes 0, 1, ..., n-1 as a set. */
  function AxesBelow(n: nat): (r: set<nat>)
    ensures forall j: nat :: j in r <==> j < n
  {
    assert forall j: nat | j < n :: j in Range(n) by {
      forall j: nat | j < n ensures j in Range(n) {
        assert Range(n)[j] == j;
      }
    }
    AxisSet(Range(n))
  }

  /** Axes of `selected` that are below `n`. */
  function SelectedBelow(selected: set<nat>, n: nat): set<nat> {
    set a | a in selected && a < n
  }

  /** Normalises one axis against a static rank: a negative axis counts from
      the end, and the result must lie in [0, rank). */
  function NormalizeAxis(axis: int, rank: nat): (r: Result<nat, Error>)
    ensures r.Ok? <==> -(rank as int) <= axis < rank
    ensures r.Ok? ==> r.value < rank && (r.value == axis || r.value == axis + rank)
    ensures r.Err? ==> r.error == AxisOutOfRange
  {
    if -(rank as int) <= axis < rank then Ok(if axis < 0 then axis + rank else axis)
    else Err(AxisOutOfRange)
  }

  /** Normalises every axis in order; no de-duplication. */
  function NormalizeAxes(axes: seq<int>, rank: nat): (r: Result<seq<nat>, Error>)
    ensures r.Ok? <==> forall k | 0 <= k < |axes| :: -(rank as int) <= axes[k] < rank
    ensures r.Ok? ==> |r.value| == |axes|
    ensures r.Ok? ==> forall k | 0 <= k < |axes| :: NormalizeAxis(axes[k], rank) == Ok(r.value[k])
    ensures r.Err? ==> r.error == AxisOutOfRange
  {
    if |axes| == 0 then Ok([])
    else
      var head :- NormalizeAxis(axes[0], rank);
      var tail :- NormalizeAxes(axes[1..], rank);
      Ok([head] + tail)
  }

  /** The indices below `n` that are not selected, in ascending order. */
  function KeptIndices(n: nat, selected: set<nat>): (r: seq<nat>)
    ensures StrictlyAscending(r)
    ensures forall k | 0 <= k < |r| :: r[k] < n
    ensures forall i: nat :: i in r <==> i < n && i !in selected
  {
    if n == 0 then []
    else KeptIndices(n - 1, selected) + (if n - 1 in selected then [] else [n - 1])
  }

  /** The elements of `xs` at unselected positions, in their original order. */
  function KeepUnselected<T>(xs: seq<T>, selected: set<nat>): seq<T> {
    if |xs| == 0 then []
    else KeepUnselected(xs[..|xs| - 1], selected) + (if |xs| - 1 in selected then [] else [xs[|xs| - 1]])
  }

  /** `KeepUnselected` picks the elements at the kept indices, in order. */
  lemma {:induction false} KeepUnselectedPicksKept<T>(xs: seq<T>, selected: set<nat>)
    ensures |KeepUnselected(xs, selected)| == |KeptIndices(|xs|, selected)|
    ensures forall k | 0 <= k < |KeepUnselected(xs, selected)| ::
      KeepUnselected(xs, selected)[k] == xs[KeptIndices(|xs|, selected)[k]]
  {
    if |xs| > 0 {
      var n := |xs| - 1;
      KeepUnselectedPicksKept(xs[..n], selected);
      var rest := KeepUnselected(xs[..n], selected);
      var kept := KeptIndices(n, selected);
      assert KeptIndices(|xs|, selected) == kept + (if n in selected then [] else [n]);
      forall k | 0 <= k < |rest| ensures rest[k] == xs[kept[k]] {
        assert kept[k] < n;
        assert xs[..n][kept[k]] == xs[kept[k]];
      }
    }
  }

  /** The positions of the size-1 dimensions of `s`, in ascending order. */
  function UnitAxes(s: seq<nat>): (r: seq<nat>)
    ensures StrictlyAscending(r)
    ensures forall k | 0 <= k < |r| :: r[k] < |s|
    ensures forall i: nat :: i in r <==> i < |s| && s[i] == 1
  {
    if |s| == 0 then []
    else
      var n := |s| - 1;
      assert forall i | 0 <= i < n :: s[..n][i] == s[i];
      UnitAxes(s[..n]) + (if s[n] == 1 then [n] else [])
  }

  /** `xs.erase(xs.begin() + p)`. */
  function EraseAt(xs: seq<nat>, p: nat): seq<nat>
    requires p < |xs|
  {
    xs[..p] + xs[p + 1..]
  }

  /** Erases, one after another, the positions listed in `positions`, last
      entry first; erasing at or past the end is undefined in the source. */
  function EraseReverse(xs: seq<nat>, positions: seq<nat>): (r: Result<seq<nat>, Error>)
    ensures r.Ok? ==> |r.value| + |positions| == |xs|
    ensures r.Err? ==> r.error == UndefinedRead
    decreases |positions|
  {
    if |positions| == 0 then Ok(xs)
    else
      var p := positions[|positions| - 1];
      if p >= |xs| then Err(UndefinedRead)
      else EraseReverse(EraseAt(xs, p), positions[..|positions| - 1])
  }
}
