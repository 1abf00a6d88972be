/** Properties of broadcast inference that relate several calls, or a call
    to an independent description of its result. */
module BroadcastProperties {
  import opened Wrappers
  import opened Shapes
  import opened ElementTypes
  import opened Graph
  import opened Axes
  import opened Broadcast

  // ---------------------------------------------------------------------
  // Explicit mode
  // ---------------------------------------------------------------------

  /** Erasing one position of a list without repeats removes exactly the
      value stored there. */
  lemma EraseAtRemovesValue(xs: seq<nat>, p: nat)
    requires Distinct(xs) && p < |xs|
    ensures Distinct(EraseAt(xs, p))
    ensures AxisSet(EraseAt(xs, p)) == AxisSet(xs) - {xs[p]}
  {
  }

  /** Erasing strictly ascending positions, last first, from a list that is
      the identity up to the largest position removes exactly the values at
      those positions. */
  lemma {:induction false} EraseReverseRemovesPositions(xs: seq<nat>, m: seq<nat>)
    requires Distinct(xs)
    requires StrictlyAscending(m)
    requires forall k | 0 <= k < |m| :: m[k] < |xs|
    requires |m| > 0 ==> forall j | 0 <= j <= m[|m| - 1] :: xs[j] == j
    ensures EraseReverse(xs, m).Ok?
    ensures Distinct(EraseReverse(xs, m).value)
    ensures AxisSet(EraseReverse(xs, m).value) == AxisSet(xs) - AxisSet(m)
    decreases |m|
  {
    if |m| > 0 {
      var p := m[|m| - 1];
      var m' := m[..|m| - 1];
      var ys := EraseAt(xs, p);
      assert EraseReverse(xs, m) == EraseReverse(ys, m');
      assert xs[p] == p;
      EraseAtRemovesValue(xs, p);
      forall k | 0 <= k < |m'| ensures m'[k] < |ys| {
        assert m[k] < m[|m| - 1];
      }
      if |m'| > 0 {
        assert m'[|m'| - 1] < p;
        forall j | 0 <= j <= m'[|m'| - 1] ensures ys[j] == j {
          assert ys[j] == xs[j];
        }
      }
      EraseReverseRemovesPositions(ys, m');
      assert AxisSet(m) == AxisSet(m') + {p} by {
        assert m == m' + [p];
      }
    }
  }

  /** Explicit mode: for a strictly ascending mapping whose entries are below
      the output rank R, the broadcast axes are exactly the output axes the
      mapping does not name. */
  lemma ExplicitAxesAreComplement(n: BroadcastNode, output: PartialShape)
    requires n.mode.Explicit?
    requires IsStatic(n.target.shape) && |ToShape(n.target.shape)| == 1
    requires n.axesMapping.producer.Constant?
    requires StrictlyAscending(MappingValues(n))
    requires forall k | 0 <= k < |MappingValues(n)| :: MappingValues(n)[k] < ToShape(n.target.shape)[0]
    ensures BroadcastAxes(n, output) ==
      Ok(Known(AxesBelow(ToShape(n.target.shape)[0]) - AxisSet(MappingValues(n))))
  {
    var rank := ToShape(n.target.shape)[0];
    var m := MappingValues(n);
    var xs := Range(rank);
    EraseReverseRemovesPositions(xs, m);
    assert Distinct(xs);
  }

  /** Explicit mode with a repeated mapping entry, which the sortedness check
      admits: erasing by position twice at 1 removes output axes 1 and 2, so
      only axis 0 is reported although the mapping leaves axes 0 and 2 unnamed. */
  lemma RepeatedMappingEntryErasesNeighbour()
    ensures
      var n := BroadcastNode(
        Input(F32, FromShape([3, 3]), Other),
        Input(I64, FromShape([3]), Constant([5, 3, 7])),
        Input(I64, FromShape([2]), Constant([1, 1])),
        Explicit);
      && InferBroadcast(n) == Ok(TypedShape(F32, FromShape([5, 3, 7])))
      && BroadcastAxes(n, FromShape([5, 3, 7])) == Ok(Known({0}))
  {
    var n := BroadcastNode(
      Input(F32, FromShape([3, 3]), Other),
      Input(I64, FromShape([3]), Constant([5, 3, 7])),
      Input(I64, FromShape([2]), Constant([1, 1])),
      Explicit);
    assert ClampedValues([1, 1]) == [1, 1];
    assert ClampedValues([5, 3, 7]) == [5, 3, 7];
    assert ShapeSize([2]) == 2 by { assert [2][..0] == []; }
    assert CheckExplicit(n).Ok?;
    assert Range(3) == [0, 1, 2];
    assert EraseAt([0, 1, 2], 1) == [0, 2];
    assert EraseAt([0, 2], 1) == [0];
    assert EraseReverse([0, 1, 2], [1, 1]) == Ok([0]) by {
      assert [1, 1][..1] == [1];
      assert [1][..0] == [];
    }
    assert AxisSet([0]) == {0};
  }

  /** Explicit mode with every input shape static and both the target and the
      mapping constant: validation succeeds exactly when the mapping has one
      entry per arg axis, is sorted, and sends each arg axis to a target axis
      of exactly its size. */
  lemma ExplicitValidationRules(n: BroadcastNode)
    requires n.mode.Explicit? && WellTyped(n)
    requires AllStatic(n) && BothConstant(n)
    ensures InferBroadcast(n).Ok? <==>
      && ShapeSize(ToShape(n.axesMapping.shape)) == |ToShape(n.arg.shape)|
      && NonDecreasing(MappingValues(n))
      && forall k | 0 <= k < |MappingValues(n)| ::
           MapsExactly(TargetValues(n), MappingValues(n), ToShape(n.arg.shape), k)
    ensures InferBroadcast(n).Ok? ==> InferBroadcast(n).value.shape == FromShape(TargetValues(n))
  {
  }

  /** When the arg has an axis for every mapping entry, the per-entry checks
      never read the arg shape past its end. */
  lemma {:induction false} MappingChecksReadInRange(t: seq<nat>, m: seq<nat>, a: seq<nat>, i: nat)
    requires i <= |m| <= |a|
    ensures CheckMappingFrom(t, m, a, i) != Err(UndefinedRead)
    decreases |m| - i
  {
    if i < |m| && m[i] < |t| && t[m[i]] == a[i] {
      MappingChecksReadInRange(t, m, a, i + 1);
    }
  }

  /** For a well-formed mapping constant the count check already gives one
      entry per arg axis, so the explicit checks never read the arg shape past
      its end: their out-of-range branch is unreachable. */
  lemma ExplicitArgReadInRange(n: BroadcastNode)
    requires WellFormedConstant(n.axesMapping)
    ensures CheckExplicit(n) != Err(UndefinedRead)
  {
    if AllStatic(n) && BothConstant(n)
       && ShapeSize(ToShape(n.axesMapping.shape)) == |ToShape(n.arg.shape)|
       && NonDecreasing(MappingValues(n))
    {
      MappingChecksReadInRange(TargetValues(n), MappingValues(n), ToShape(n.arg.shape), 0);
    }
  }

  /** Once the count check passes, a mapping that is not sorted is rejected
      as a transpose, whatever the sizes it maps. */
  lemma DescendingMappingRejected(n: BroadcastNode)
    requires n.mode.Explicit? && WellTyped(n) && AllStatic(n) && BothConstant(n)
    requires ShapeSize(ToShape(n.axesMapping.shape)) == |ToShape(n.arg.shape)|
    requires !NonDecreasing(MappingValues(n))
    ensures InferBroadcast(n) == Err(TransposeNotPermitted)
  {
  }

  // ---------------------------------------------------------------------
  // NumPy and PDPD modes
  // ---------------------------------------------------------------------

  /** A broadcast of a static arg of shape `argDims` to the constant target
      `targetValues`. */
  function AlignNode(argDims: seq<nat>, targetValues: seq<int>, mode: BroadcastMode): BroadcastNode {
    BroadcastNode(
      Input(F32, FromShape(argDims), Other),
      Input(I64, FromShape([|targetValues|]), Constant(targetValues)),
      Input(I64, DynamicRank, Other),
      mode)
  }

  /** After a successful NumPy or PDPD validation against a constant target,
      the broadcast axes are the output axes before the start axis and those
      where the target dimension exceeds the arg dimension it faces. */
  lemma AlignedAxesAfterValidation(n: BroadcastNode)
    requires AlignsConstantTarget(n)
    requires InferBroadcast(n).Ok?
    ensures
      var t := TargetValues(n);
      var a := ToShape(n.arg.shape);
      var start := AlignStart(n);
      && BroadcastAxes(n, InferBroadcast(n).value.shape).Ok?
      && BroadcastAxes(n, InferBroadcast(n).value.shape).value.Known?
      && forall i: nat :: i in BroadcastAxes(n, InferBroadcast(n).value.shape).value.axes <==>
           i < |t| && (i < start || (i - start < |a| && a[i - start] < t[i]))
  {
  }

  function ArgThreeByOne(target: seq<int>): BroadcastNode {
    AlignNode([3, 1], target, Numpy)
  }

  /** NumPy: an arg of shape (3,1) stretches its trailing 1 to a target (5,3,4);
      output axes 0 and 2 are broadcast. */
  lemma NumpyStretchesTrailingOne()
    ensures InferBroadcast(ArgThreeByOne([5, 3, 4])) == Ok(TypedShape(F32, FromShape([5, 3, 4])))
    ensures BroadcastAxes(ArgThreeByOne([5, 3, 4]), FromShape([5, 3, 4])) == Ok(Known({0, 2}))
  {
    var n := ArgThreeByOne([5, 3, 4]);
    assert ClampedValues([5, 3, 4]) == [5, 3, 4];
    assert StartAxis(Numpy, 3, 2) == 1;
    var r := AlignedDims([5, 3, 4], [3, 1], 1);
    assert r.Ok?;
    assert r.value == [5, 3, 4];
    var axes := AxesFrom([5, 3, 4], [3, 1], 1, 0);
    assert axes.Ok?;
    assert axes.value == {0, 2};
  }

  /** NumPy: an arg of shape (3,1) against a target (5,3,1) yields (5,3,1),
      and only output axis 0 is broadcast. */
  lemma NumpyKeepsMatchingDims()
    ensures InferBroadcast(ArgThreeByOne([5, 3, 1])) == Ok(TypedShape(F32, FromShape([5, 3, 1])))
    ensures BroadcastAxes(ArgThreeByOne([5, 3, 1]), FromShape([5, 3, 1])) == Ok(Known({0}))
    ensures Adjoint(ArgThreeByOne([5, 3, 1]), FromShape([5, 3, 1])) == Ok(Sum({0}))
  {
    var n := ArgThreeByOne([5, 3, 1]);
    assert ClampedValues([5, 3, 1]) == [5, 3, 1];
    assert StartAxis(Numpy, 3, 2) == 1;
    var r := AlignedDims([5, 3, 1], [3, 1], 1);
    assert r.Ok?;
    assert r.value == [5, 3, 1];
    var axes := AxesFrom([5, 3, 1], [3, 1], 1, 0);
    assert axes.Ok?;
    assert axes.value == {0};
  }

  /** NumPy: aligned dimensions that are neither 1 nor equal are rejected. */
  lemma NumpyRejectsMismatch()
    ensures InferBroadcast(AlignNode([3, 2], [5, 3, 4], Numpy)) == Err(IncompatibleDims)
  {
  }

  /** The result dimension is the larger of the pair, so an arg dimension 1
      against a target dimension 0 gives 1. */
  lemma UnitAgainstZeroGivesOne()
    ensures InferBroadcast(AlignNode([1], [0], Numpy)) == Ok(TypedShape(F32, FromShape([1])))
  {
    assert ClampedValues([0]) == [0];
    assert StartAxis(Numpy, 1, 1) == 0;
    assert Max(1, 0) == 1;
    assert Broadcastable(1, 0);
    assert AlignFrom([0], [1], 0, 1) == Ok([]);
    assert AlignFrom([0], [1], 0, 0) == Ok([1] + []);
    assert [1] + [] == [1];
    var t: seq<nat> := [0];
    assert t[..0] + [1] == [1];
    assert AlignedDims([0], [1], 0) == Ok([1]);
  }

  /** NumPy with a target of smaller rank than the arg: the rank difference
      wraps around as an unsigned value, nothing is checked, and the target
      itself becomes the output shape. */
  lemma NumpySmallerTargetIsNotRejected(argDims: seq<nat>, targetValues: seq<nat>)
    requires |targetValues| < |argDims| < SizeTModulus
    ensures InferBroadcast(AlignNode(argDims, targetValues, Numpy)) ==
      Ok(TypedShape(F32, FromShape(targetValues)))
  {
    var n := AlignNode(argDims, targetValues, Numpy);
    assert ClampedValues(targetValues) == targetValues;
    assert AlignStart(n) > |targetValues|;
  }

  /** PDPD with a negative axis: the axis wraps to a huge unsigned start, so
      nothing is checked, the output is the target, and every output axis is
      reported as broadcast. */
  lemma PdpdNegativeAxis(argDims: seq<nat>, targetValues: seq<nat>, axis: int)
    requires -(SizeTModulus as int) / 2 <= axis < 0
    requires |targetValues| < SizeTModulus / 2
    ensures InferBroadcast(AlignNode(argDims, targetValues, Pdpd(axis))) ==
      Ok(TypedShape(F32, FromShape(targetValues)))
    ensures BroadcastAxes(AlignNode(argDims, targetValues, Pdpd(axis)), FromShape(targetValues)) ==
      Ok(Known(AxesBelow(|targetValues|)))
  {
    var n := AlignNode(argDims, targetValues, Pdpd(axis));
    assert ClampedValues(targetValues) == targetValues;
    assert AlignStart(n) >= SizeTModulus / 2;
    var start := StartAxis(Pdpd(axis), |targetValues|, |argDims|);
    assert start >= SizeTModulus / 2;
    var axes := AxesFrom(targetValues, argDims, start, 0);
    assert axes.Ok?;
    assert axes.value == AxesBelow(|targetValues|);
  }

  /** PDPD with a start axis that leaves more output axes than the arg has:
      the source reads past the end of the arg shape. */
  lemma PdpdShortArgReadsPastEnd()
    ensures InferBroadcast(AlignNode([2], [2, 3], Pdpd(0))) == Err(UndefinedRead)
  {
  }
}
