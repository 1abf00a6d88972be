/** Shape inference and decomposition of the fused Squeeze op: the axes to
    drop are listed, or, when the constant list is empty, every size-1
    dimension; the op lowers itself to a Reshape. */
module Squeeze {
  import opened Wrappers
  import opened Shapes
  import opened ElementTypes
  import opened Graph
  import opened Axes

  /** The replacement op: the data with its axes in `inputOrder`, reshaped to `outputShape`. */
  datatype Reshape = Reshape(inputOrder: seq<nat>, outputShape: seq<nat>)

  predicate EmptyConstantAxes(axes: Input) {
    axes.producer.Constant? && |axes.producer.values| == 0
  }

  /** The cases in which the squeezed shape cannot be determined. */
  predicate Undetermined(data: Input, axes: Input) {
    || data.shape.DynamicRank?
    || !axes.producer.Constant?
    || (!IsStatic(data.shape) && EmptyConstantAxes(axes))
  }

  /** The axes to remove (`get_axes`): the size-1 dimensions when the constant
      list is empty, otherwise the listed axes normalised against the rank. */
  function SqueezeAxes(data: Input, axes: Input): (r: Result<seq<nat>, Error>)
    ensures data.shape.DynamicRank? || !axes.producer.Constant? ==> r == Err(AxesNotConstant)
    ensures r.Ok? ==> forall k | 0 <= k < |r.value| :: r.value[k] < |data.shape.dims|
    ensures EmptyConstantAxes(axes) && data.shape.Ranked? && !IsStatic(data.shape) ==> r == Err(NotStatic)
    ensures EmptyConstantAxes(axes) && IsStatic(data.shape) ==>
      && r.Ok?
      && StrictlyAscending(r.value)
      && forall i: nat :: i in r.value <==> i < |data.shape.dims| && data.shape.dims[i] == Static(1)
    ensures data.shape.Ranked? && axes.producer.Constant? && !EmptyConstantAxes(axes) ==>
      var values := axes.producer.values;
      var rank := |data.shape.dims|;
      && (r.Ok? <==> forall k | 0 <= k < |values| :: -(rank as int) <= values[k] < rank)
      && (r.Ok? ==> |r.value| == |values|)
      && (r.Ok? ==> forall k | 0 <= k < |values| :: NormalizeAxis(values[k], rank) == Ok(r.value[k]))
  {
    if data.shape.DynamicRank? || !axes.producer.Constant? then Err(AxesNotConstant)
    else if EmptyConstantAxes(axes) then
      if !IsStatic(data.shape) then Err(NotStatic)
      else
        var s := ToShape(data.shape);
        var r := UnitAxes(s);
        assert forall i: nat :: i in r <==> i < |data.shape.dims| && data.shape.dims[i] == Static(1);
        Ok(r)
    else NormalizeAxes(axes.producer.values, |data.shape.dims|)
  }

  /** Some selected axis has a dimension other than 1. */
  predicate SelectsNonUnit(dims: seq<Dimension>, selected: seq<nat>)
    requires forall k | 0 <= k < |selected| :: selected[k] < |dims|
  {
    exists k | 0 <= k < |selected| :: dims[selected[k]] != Static(1)
  }

  /** `pre_validate_and_infer_types`: the squeezed output's element type and shape. */
  function InferSqueeze(data: Input, axes: Input): (r: Result<TypedShape, Error>)
    ensures r.Ok? ==> r.value.elementType == data.elementType
    ensures Undetermined(data, axes) ==> r == Ok(TypedShape(data.elementType, DynamicRank))
    ensures !Undetermined(data, axes) ==>
      && (r.Ok? <==>
            && SqueezeAxes(data, axes).Ok?
            && (IsStatic(data.shape) ==> !SelectsNonUnit(data.shape.dims, SqueezeAxes(data, axes).value)))
      && (r.Ok? ==> r.value.shape.Ranked?)
      && (r.Ok? ==> r.value.shape.dims == KeepUnselected(data.shape.dims, AxisSet(SqueezeAxes(data, axes).value)))
      && (r.Err? && IsStatic(data.shape) && SqueezeAxes(data, axes).Ok? ==> r.error == OnlySize1Removable)
  {
    if Undetermined(data, axes) then Ok(TypedShape(data.elementType, DynamicRank))
    else
      var selected :- SqueezeAxes(data, axes);
      if IsStatic(data.shape) && SelectsNonUnit(data.shape.dims, selected) then Err(OnlySize1Removable)
      else Ok(TypedShape(data.elementType, Ranked(KeepUnselected(data.shape.dims, AxisSet(selected)))))
  }

  /** `decompose_op`: a Reshape of the data, in its default axis order, to the
      output shape inference already stored. */
  function DecomposeSqueeze(data: Input, output: PartialShape): (r: Result<Reshape, Error>)
    ensures !IsStatic(output) ==> r == Err(CannotDecompose)
    ensures r.Ok? <==> IsStatic(output) && IsStatic(data.shape)
    ensures r.Ok? ==> FromShape(r.value.outputShape) == output
    ensures r.Ok? ==> |r.value.inputOrder| == |data.shape.dims|
    ensures r.Ok? ==> forall i | 0 <= i < |r.value.inputOrder| :: r.value.inputOrder[i] == i
  {
    if !IsStatic(output) then Err(CannotDecompose)
    else if !IsStatic(data.shape) then Err(NotStatic)
    else
      FromShapeOfToShape(output);
      Ok(Reshape(Range(|data.shape.dims|), ToShape(output)))
  }
}
