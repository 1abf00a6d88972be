/** Properties of squeeze inference and decomposition that relate several
    calls, or a call to an independent description of its result. */
module SqueezeProperties {
  import opened Wrappers
  import opened Shapes
  import opened ElementTypes
  import opened Graph
  import opened Axes
  import opened Squeeze

  /** Every index below `n` is either kept or selected, never both. */
  lemma {:induction false} KeptIndicesCount(n: nat, selected: set<nat>)
    ensures |KeptIndices(n, selected)| + |SelectedBelow(selected, n)| == n
  {
    if n == 0 {
      assert SelectedBelow(selected, 0) == {};
    } else {
      KeptIndicesCount(n - 1, selected);
      var below := SelectedBelow(selected, n - 1);
      assert n - 1 !in below;
      if n - 1 in selected {
        assert SelectedBelow(selected, n) == below + {n - 1};
      } else {
        assert SelectedBelow(selected, n) == below;
      }
    }
  }

  lemma ShapeSizeAppend(s: seq<nat>, d: nat)
    ensures ShapeSize(s + [d]) == ShapeSize(s) * d
  {
  }

  /** One step of the recursion of `KeepUnselected`. */
  lemma KeepUnselectedStep<T>(xs: seq<T>, selected: set<nat>)
    requires |xs| > 0
    ensures KeepUnselected(xs, selected) ==
      KeepUnselected(xs[..|xs| - 1], selected) + (if |xs| - 1 in selected then [] else [xs[|xs| - 1]])
  {
  }

  /** Dropping dimensions of size 1 keeps the number of elements. */
  lemma {:induction false} KeepUnselectedPreservesSize(s: seq<nat>, selected: set<nat>)
    requires forall i | i in selected && i < |s| :: s[i] == 1
    ensures ShapeSize(KeepUnselected(s, selected)) == ShapeSize(s)
  {
    if |s| > 0 {
      var n := |s| - 1;
      var prefix := s[..n];
      assert forall i | i in selected && i < |prefix| :: prefix[i] == 1;
      KeepUnselectedPreservesSize(prefix, selected);
      KeepUnselectedStep(s, selected);
      assert s == prefix + [s[n]];
      ShapeSizeAppend(prefix, s[n]);
      if n !in selected {
        ShapeSizeAppend(KeepUnselected(prefix, selected), s[n]);
      } else {
        assert s[n] == 1;
        assert KeepUnselected(s, selected) == KeepUnselected(prefix, selected) + [];
        assert KeepUnselected(prefix, selected) + [] == KeepUnselected(prefix, selected);
      }
    }
  }

  /** With nothing selected below its length, a list is kept whole. */
  lemma {:induction false} KeepUnselectedNone<T>(xs: seq<T>, selected: set<nat>)
    requires forall i | i in selected :: i >= |xs|
    ensures KeepUnselected(xs, selected) == xs
  {
    if |xs| > 0 {
      var n := |xs| - 1;
      KeepUnselectedNone(xs[..n], selected);
      KeepUnselectedStep(xs, selected);
      assert xs == xs[..n] + [xs[n]];
    }
  }

  /** Keeping all but position `i` removes just that position. */
  lemma {:induction false} KeepUnselectedSingle<T>(xs: seq<T>, i: nat)
    requires i < |xs|
    ensures KeepUnselected(xs, {i}) == xs[..i] + xs[i + 1..]
  {
    var n := |xs| - 1;
    KeepUnselectedStep(xs, {i});
    if n == i {
      KeepUnselectedNone(xs[..n], {i});
    } else {
      KeepUnselectedSingle(xs[..n], i);
      assert xs[..n][..i] == xs[..i];
      assert xs[..n][i + 1..] + [xs[n]] == xs[i + 1..];
    }
  }

  /** Keeping dimensions commutes with reading a static shape's values. */
  lemma KeepUnselectedOfStatic(p: PartialShape, selected: set<nat>)
    requires IsStatic(p)
    ensures IsStatic(Ranked(KeepUnselected(p.dims, selected)))
    ensures ToShape(Ranked(KeepUnselected(p.dims, selected))) == KeepUnselected(ToShape(p), selected)
  {
    var kept := KeptIndices(|p.dims|, selected);
    var q := Ranked(KeepUnselected(p.dims, selected));
    KeepUnselectedPicksKept(p.dims, selected);
    KeepUnselectedPicksKept(ToShape(p), selected);
    assert |ToShape(p)| == |p.dims|;
    forall k | 0 <= k < |q.dims| ensures q.dims[k] == Static(KeepUnselected(ToShape(p), selected)[k]) {
      assert q.dims[k] == p.dims[kept[k]];
    }
  }

  /** With a known rank and a determined squeeze, the output rank is the data
      rank less the number of distinct selected axes. */
  lemma SqueezedRank(data: Input, axes: Input)
    requires !Undetermined(data, axes) && InferSqueeze(data, axes).Ok?
    ensures
      var out := InferSqueeze(data, axes).value.shape;
      out.Ranked? && |out.dims| + |AxisSet(SqueezeAxes(data, axes).value)| == |data.shape.dims|
  {
    var selected := AxisSet(SqueezeAxes(data, axes).value);
    var n := |data.shape.dims|;
    KeptIndicesCount(n, selected);
    KeepUnselectedPicksKept(data.shape.dims, selected);
    assert SelectedBelow(selected, n) == selected;
  }

  /** An empty constant axes list on static data removes exactly the size-1
      dimensions and keeps the others in order; no 1 is left. */
  lemma EmptyAxesRemoveUnitDims(data: Input, axes: Input)
    requires IsStatic(data.shape) && EmptyConstantAxes(axes)
    ensures InferSqueeze(data, axes).Ok?
    ensures
      var out := InferSqueeze(data, axes).value.shape;
      var ones := set i: nat | i < |data.shape.dims| && data.shape.dims[i] == Static(1);
      && out == Ranked(KeepUnselected(data.shape.dims, ones))
      && forall k | 0 <= k < |out.dims| :: out.dims[k] != Static(1)
  {
    var dims := data.shape.dims;
    var selected := SqueezeAxes(data, axes).value;
    var ones := set i: nat | i < |dims| && dims[i] == Static(1);
    assert AxisSet(selected) == ones;
    assert !SelectsNonUnit(dims, selected) by {
      forall k | 0 <= k < |selected| ensures dims[selected[k]] == Static(1) {
        assert selected[k] in selected;
      }
    }
    var out := KeepUnselected(dims, ones);
    var kept := KeptIndices(|dims|, ones);
    KeepUnselectedPicksKept(dims, ones);
    forall k | 0 <= k < |out| ensures out[k] != Static(1) {
      assert out[k] == dims[kept[k]];
      assert kept[k] in kept;
    }
  }

  /** The axes as the constant stores them. */
  function AsValues(xs: seq<nat>): (r: seq<int>)
    ensures |r| == |xs| && forall k | 0 <= k < |xs| :: r[k] == xs[k]
  {
    seq(|xs|, k requires 0 <= k < |xs| => xs[k] as int)
  }

  /** Normalised axes depend only on the set of given values. */
  lemma NormalizedSet(values: seq<int>, rank: nat)
    requires NormalizeAxes(values, rank).Ok?
    ensures forall a: nat :: a in AxisSet(NormalizeAxes(values, rank).value) <==>
      exists v | v in values :: NormalizeAxis(v, rank) == Ok(a)
  {
  }

  /** A single in-range, non-negative axis normalises to itself. */
  lemma NormalizeSingle(a: int, rank: nat)
    requires 0 <= a < rank
    ensures NormalizeAxes([a], rank) == Ok([a as nat])
  {
    var v := [a];
    var r := NormalizeAxes(v, rank);
    assert forall k | 0 <= k < |v| :: -(rank as int) <= v[k] < rank;
    assert r.Ok? && |r.value| == 1;
    assert NormalizeAxis(v[0], rank) == Ok(r.value[0]);
    assert r.value == [a as nat];
  }

  /** Whether a selection includes a non-unit dimension depends only on the
      set of selected axes. */
  lemma SelectsNonUnitBySet(dims: seq<Dimension>, s1: seq<nat>, s2: seq<nat>)
    requires forall k | 0 <= k < |s1| :: s1[k] < |dims|
    requires forall k | 0 <= k < |s2| :: s2[k] < |dims|
    requires AxisSet(s1) == AxisSet(s2)
    ensures SelectsNonUnit(dims, s1) <==> SelectsNonUnit(dims, s2)
  {
    if SelectsNonUnit(dims, s1) {
      var k :| 0 <= k < |s1| && dims[s1[k]] != Static(1);
      assert s1[k] in AxisSet(s2);
      var j :| 0 <= j < |s2| && s2[j] == s1[k];
    }
    if SelectsNonUnit(dims, s2) {
      var k :| 0 <= k < |s2| && dims[s2[k]] != Static(1);
      assert s2[k] in AxisSet(s1);
      var j :| 0 <= j < |s1| && s1[j] == s2[k];
    }
  }

  /** Lists with the same values normalise to the same set of axes, or both fail. */
  lemma NormalizeByValues(v1: seq<int>, v2: seq<int>, rank: nat)
    requires forall v :: v in v1 <==> v in v2
    ensures NormalizeAxes(v1, rank).Ok? <==> NormalizeAxes(v2, rank).Ok?
    ensures NormalizeAxes(v1, rank).Ok? ==>
      AxisSet(NormalizeAxes(v1, rank).value) == AxisSet(NormalizeAxes(v2, rank).value)
  {
    if NormalizeAxes(v1, rank).Ok? {
      forall k | 0 <= k < |v2| ensures -(rank as int) <= v2[k] < rank {
        assert v2[k] in v2;
      }
    }
    if NormalizeAxes(v2, rank).Ok? {
      forall k | 0 <= k < |v1| ensures -(rank as int) <= v1[k] < rank {
        assert v1[k] in v1;
      }
    }
    if NormalizeAxes(v1, rank).Ok? {
      NormalizedSet(v1, rank);
      NormalizedSet(v2, rank);
    }
  }

  /** Two non-empty constant axes lists with the same values give the same
      squeeze, however often and in whatever order the values appear. */
  lemma SqueezeDependsOnAxisValues(data: Input, v1: seq<int>, v2: seq<int>, e1: ElementType, e2: ElementType)
    requires |v1| > 0 && |v2| > 0
    requires forall v :: v in v1 <==> v in v2
    ensures InferSqueeze(data, Input(e1, FromShape([|v1|]), Constant(v1))) ==
            InferSqueeze(data, Input(e2, FromShape([|v2|]), Constant(v2)))
  {
    var a1 := Input(e1, FromShape([|v1|]), Constant(v1));
    var a2 := Input(e2, FromShape([|v2|]), Constant(v2));
    if data.shape.Ranked? {
      var rank := |data.shape.dims|;
      NormalizeByValues(v1, v2, rank);
      var r1 := SqueezeAxes(data, a1);
      var r2 := SqueezeAxes(data, a2);
      assert r1 == NormalizeAxes(v1, rank) && r2 == NormalizeAxes(v2, rank);
      if r1.Ok? {
        SelectsNonUnitBySet(data.shape.dims, r1.value, r2.value);
      }
    }
  }

  /** Squeezing [a, a] is squeezing [a]. */
  lemma RepeatedAxisCollapses(data: Input, a: int, et: ElementType)
    ensures InferSqueeze(data, Input(et, FromShape([2]), Constant([a, a]))) ==
            InferSqueeze(data, Input(et, FromShape([1]), Constant([a])))
  {
    SqueezeDependsOnAxisValues(data, [a, a], [a], et, et);
  }

  /** An empty constant list on static data squeezes like the explicit list
      of the size-1 positions. */
  lemma EmptyAxesMatchExplicitList(data: Input, et: ElementType)
    requires IsStatic(data.shape)
    ensures
      var units := UnitAxes(ToShape(data.shape));
      InferSqueeze(data, Input(et, FromShape([0]), Constant([]))) ==
      InferSqueeze(data, Input(et, FromShape([|units|]), Constant(AsValues(units))))
  {
    var s := ToShape(data.shape);
    var units := UnitAxes(s);
    var empty := Input(et, FromShape([0]), Constant([]));
    var listed := Input(et, FromShape([|units|]), Constant(AsValues(units)));
    if |units| > 0 {
      var rank := |data.shape.dims|;
      var r0 := SqueezeAxes(data, empty);
      var r1 := SqueezeAxes(data, listed);
      assert r1.Ok?;
      assert r1.value == r0.value by {
        forall k | 0 <= k < |units| ensures r1.value[k] == units[k] {
          assert NormalizeAxis(AsValues(units)[k], rank) == Ok(r1.value[k]);
        }
      }
    }
  }

  /** With a known rank but some unknown dimension, listed axes are not
      checked for size 1: any in-range selection succeeds, and the unselected
      dimensions, known or not, are copied through in order. */
  lemma DynamicDimsPassThrough(data: Input, axes: Input)
    requires data.shape.Ranked? && !IsStatic(data.shape)
    requires axes.producer.Constant? && |axes.producer.values| > 0
    requires forall k | 0 <= k < |axes.producer.values| ::
      -(|data.shape.dims| as int) <= axes.producer.values[k] < |data.shape.dims|
    ensures InferSqueeze(data, axes).Ok?
    ensures InferSqueeze(data, axes).value.shape ==
      Ranked(KeepUnselected(data.shape.dims, AxisSet(SqueezeAxes(data, axes).value)))
  {
  }

  /** Data (5, ?) squeezed at axis 0 gives (?), although 5 is not 1. */
  lemma NonUnitAxisAcceptedWhenShapeDynamic()
    ensures InferSqueeze(Input(F32, Ranked([Static(5), Dynamic]), Other),
                         Input(I64, FromShape([1]), Constant([0])))
            == Ok(TypedShape(F32, Ranked([Dynamic])))
  {
    var data := Input(F32, Ranked([Static(5), Dynamic]), Other);
    var axes := Input(I64, FromShape([1]), Constant([0]));
    assert !IsStatic(data.shape) by { assert !data.shape.dims[1].Static?; }
    NormalizeSingle(0, 2);
    assert SqueezeAxes(data, axes) == Ok([0]);
    assert AxisSet([0]) == {0};
    assert KeepUnselected([Static(5), Dynamic], {0}) == [Dynamic] by {
      KeepUnselectedSingle([Static(5), Dynamic], 0);
    }
  }

  /** Static data: squeezing one size-1 axis removes just that position;
      squeezing an axis of another size fails. */
  lemma SqueezeOneAxis(s: seq<nat>, i: nat, et: ElementType)
    requires i < |s|
    ensures s[i] == 1 ==>
      InferSqueeze(Input(et, FromShape(s), Other), Input(I64, FromShape([1]), Constant([i]))) ==
      Ok(TypedShape(et, FromShape(s[..i] + s[i + 1..])))
    ensures s[i] != 1 ==>
      InferSqueeze(Input(et, FromShape(s), Other), Input(I64, FromShape([1]), Constant([i]))) ==
      Err(OnlySize1Removable)
  {
    var data := Input(et, FromShape(s), Other);
    var axes := Input(I64, FromShape([1]), Constant([i]));
    NormalizeSingle(i, |s|);
    assert SqueezeAxes(data, axes) == Ok([i]);
    assert AxisSet([i]) == {i};
    if s[i] == 1 {
      var dims := data.shape.dims;
      KeepUnselectedSingle(dims, i);
      assert !SelectsNonUnit(dims, [i]);
      assert dims[..i] + dims[i + 1..] == FromShape(s[..i] + s[i + 1..]).dims;
    } else {
      assert SelectsNonUnit(data.shape.dims, [i]) by {
        assert data.shape.dims[i] == Static(s[i]);
      }
    }
  }

  /** Decomposition of a squeeze of static data yields a Reshape to exactly
      the inferred output shape, in the default axis order, and the reshape
      keeps the element count. */
  lemma DecomposeAgreesWithInference(data: Input, axes: Input)
    requires IsStatic(data.shape) && axes.producer.Constant?
    requires InferSqueeze(data, axes).Ok?
    ensures
      var out := InferSqueeze(data, axes).value.shape;
      && IsStatic(out)
      && DecomposeSqueeze(data, out) == Ok(Reshape(Range(|data.shape.dims|), ToShape(out)))
      && ShapeSize(ToShape(out)) == ShapeSize(ToShape(data.shape))
  {
    var selected := SqueezeAxes(data, axes).value;
    var sel := AxisSet(selected);
    KeepUnselectedOfStatic(data.shape, sel);
    var s := ToShape(data.shape);
    forall i | i in sel && i < |s| ensures s[i] == 1 {
      var k :| 0 <= k < |selected| && selected[k] == i;
      assert !SelectsNonUnit(data.shape.dims, selected);
      assert data.shape.dims[selected[k]] == Static(1);
    }
    KeepUnselectedPreservesSize(s, sel);
  }
}
