/** Shape inference for broadcasting (`op::util::BroadcastBase`): validation
    and the result shape, the set of broadcast output axes, the gradient rule
    and the success flag of reference evaluation. */
module Broadcast {
  import opened Wrappers
  import opened Shapes
  import opened ElementTypes
  import opened Graph
  import opened Axes

  /** How the arg's axes line up with the output's (`BroadcastType`). */
  datatype BroadcastMode =
    | Explicit          // NONE: an axes-mapping input says where each arg axis goes
    | Numpy             // trailing alignment
    | Pdpd(axis: int)   // alignment from a configured (int64) axis
    | Bidirectional     // a mode the base class does not handle itself

  /** A broadcast op: the tensor to broadcast, the target-shape input and the
      axes-mapping input (read in explicit mode only). */
  datatype BroadcastNode = BroadcastNode(arg: Input, target: Input, axesMapping: Input, mode: BroadcastMode)

  /** The broadcast output axes, or "not known" (`pair<bool, AxisSet>`). */
  datatype AxesInfo = Unknown | Known(axes: set<nat>)

  /** The gradient contribution: the output gradient summed over these axes. */
  datatype SumNode = Sum(reductionAxes: set<nat>)

  /** What reference evaluation reports: its success flag, and the shape it
      assigned to the output tensor, if it got that far. */
  datatype EvalOutcome = EvalOutcome(success: bool, outputShape: Option<seq<nat>>)

  // ---------------------------------------------------------------------
  // Input checks and the shape taken from the target-shape input
  // ---------------------------------------------------------------------

  predicate WellTyped(n: BroadcastNode) {
    && IsIntegralNumber(n.target.elementType)
    && RankCompatible(n.target.shape, 1)
    && (n.mode.Explicit? ==>
          IsIntegralNumber(n.axesMapping.elementType) && RankCompatible(n.axesMapping.shape, 1))
  }

  /** A Concat target whose own output is a static flat list with one element per part. */
  predicate ConcatUsable(target: Input) {
    && target.producer.Concat?
    && IsStatic(target.shape)
    && |target.shape.dims| == 1
    && |target.producer.parts| == ShapeSize(ToShape(target.shape))
  }

  predicate EmptyConstant(p: Producer) {
    p.Constant? && |p.values| == 0
  }

  /** The dimension a Concat part contributes: a constant's first value, else unknown. */
  function PartDim(p: Producer): Dimension {
    if p.Constant? && |p.values| > 0 then Static(ClampedValues(p.values)[0]) else Dynamic
  }

  /** The result shape before any mode-specific refinement: a Constant target's
      value, a usable Concat's per-part dimensions, or an unknown rank. */
  function TargetDerivedShape(target: Input): (r: Result<PartialShape, Error>)
    ensures target.producer.Constant? ==>
      r.Ok? && IsStatic(r.value) && ToShape(r.value) == ClampedValues(target.producer.values)
    ensures ConcatUsable(target) ==>
      (r.Ok? <==> forall i | 0 <= i < |target.producer.parts| :: !EmptyConstant(target.producer.parts[i]))
    ensures ConcatUsable(target) && r.Ok? ==>
      && r.value.Ranked?
      && |r.value.dims| == |target.producer.parts|
      && forall i | 0 <= i < |r.value.dims| ::
           (r.value.dims[i].Static? <==> target.producer.parts[i].Constant?)
           && (target.producer.parts[i].Constant? ==>
                 r.value.dims[i].length == ClampedValues(target.producer.parts[i].values)[0])
    ensures !target.producer.Constant? && !ConcatUsable(target) ==> r == Ok(DynamicRank)
  {
    match target.producer
    case Constant(values) => Ok(FromShape(ClampedValues(values)))
    case Concat(parts) =>
      if ConcatUsable(target) then
        if exists i | 0 <= i < |parts| :: EmptyConstant(parts[i]) then Err(UndefinedRead)
        else Ok(Ranked(seq(|parts|, i requires 0 <= i < |parts| => PartDim(parts[i]))))
      else Ok(DynamicRank)
    case Other => Ok(DynamicRank)
  }

  // ---------------------------------------------------------------------
  // Explicit mode
  // ---------------------------------------------------------------------

  predicate AllStatic(n: BroadcastNode) {
    IsStatic(n.arg.shape) && IsStatic(n.target.shape) && IsStatic(n.axesMapping.shape)
  }

  predicate BothConstant(n: BroadcastNode) {
    n.target.producer.Constant? && n.axesMapping.producer.Constant?
  }

  function TargetValues(n: BroadcastNode): seq<nat>
    requires n.target.producer.Constant?
  {
    ClampedValues(n.target.producer.values)
  }

  function MappingValues(n: BroadcastNode): seq<nat>
    requires n.axesMapping.producer.Constant?
  {
    ClampedValues(n.axesMapping.producer.values)
  }

  /** Arg axis `k` is sent by the mapping to a target axis of exactly its size. */
  predicate MapsExactly(t: seq<nat>, m: seq<nat>, a: seq<nat>, k: nat)
    requires k < |m|
  {
    m[k] < |t| && k < |a| && t[m[k]] == a[k]
  }

  /** The per-entry checks of the mapping, from entry `i` on. */
  function CheckMappingFrom(t: seq<nat>, m: seq<nat>, a: seq<nat>, i: nat): (r: Result<(), Error>)
    requires i <= |m|
    ensures r.Ok? <==> forall k | i <= k < |m| :: MapsExactly(t, m, a, k)
    ensures r.Err? ==> r.error in {MappingExceedsRank, UndefinedRead, MappingDimMismatch}
    decreases |m| - i
  {
    if i == |m| then Ok(())
    else if m[i] >= |t| then assert !MapsExactly(t, m, a, i); Err(MappingExceedsRank)
    else if i >= |a| then assert !MapsExactly(t, m, a, i); Err(UndefinedRead)
    else if t[m[i]] != a[i] then assert !MapsExactly(t, m, a, i); Err(MappingDimMismatch)
    else CheckMappingFrom(t, m, a, i + 1)
  }

  /** The explicit-mode checks, made only when all three input shapes are static. */
  function CheckExplicit(n: BroadcastNode): (r: Result<(), Error>)
    ensures !AllStatic(n) ==> r.Ok?
    ensures AllStatic(n) && r.Ok? ==>
      ShapeSize(ToShape(n.axesMapping.shape)) == |ToShape(n.arg.shape)|
    ensures AllStatic(n) && !BothConstant(n) ==>
      (r.Ok? <==> ShapeSize(ToShape(n.axesMapping.shape)) == |ToShape(n.arg.shape)|)
    ensures AllStatic(n) && BothConstant(n) && r.Ok? ==>
      && NonDecreasing(MappingValues(n))
      && forall k | 0 <= k < |MappingValues(n)| ::
           MapsExactly(TargetValues(n), MappingValues(n), ToShape(n.arg.shape), k)
    ensures AllStatic(n) && BothConstant(n) && !NonDecreasing(MappingValues(n)) ==>
      r.Err? && (ShapeSize(ToShape(n.axesMapping.shape)) == |ToShape(n.arg.shape)| ==>
                   r.error == TransposeNotPermitted)
  {
    if AllStatic(n) then
      var argShape := ToShape(n.arg.shape);
      if ShapeSize(ToShape(n.axesMapping.shape)) != |argShape| then Err(AxesCountMismatch)
      else if BothConstant(n) then
        var t := TargetValues(n);
        var m := MappingValues(n);
        if !NonDecreasing(m) then Err(TransposeNotPermitted)
        else CheckMappingFrom(t, m, argShape, 0)
      else Ok(())
    else Ok(())
  }

  // ---------------------------------------------------------------------
  // NumPy and PDPD modes
  // ---------------------------------------------------------------------

  /** `start_axis`: the configured axis in PDPD mode, the rank difference
      otherwise, both as `size_t` (so a negative value wraps around). */
  function StartAxis(mode: BroadcastMode, targetRank: nat, argRank: nat): (r: nat)
    ensures !mode.Pdpd? && argRank <= targetRank < SizeTModulus ==> r == targetRank - argRank
    ensures !mode.Pdpd? && targetRank < argRank < SizeTModulus ==> r > targetRank
    ensures mode.Pdpd? && 0 <= mode.axis < SizeTModulus ==> r == mode.axis
    ensures mode.Pdpd? && -(SizeTModulus as int) / 2 <= mode.axis < 0 ==> r >= SizeTModulus / 2
  {
    match mode
    case Pdpd(axis) => SizeT(axis)
    case _ => SizeT(targetRank - argRank)
  }

  /** An aligned (arg, target) pair is legal: one of them is 1 or they agree. */
  predicate Broadcastable(a: nat, t: nat) {
    a == 1 || t == 1 || a == t
  }

  function Max(a: nat, b: nat): nat {
    if a >= b then a else b
  }

  /** The alignment loop from output axis `i` on: output axis `j` faces arg
      axis `j - start`. */
  function AlignFrom(t: seq<nat>, a: seq<nat>, start: nat, i: nat): (r: Result<seq<nat>, Error>)
    requires start <= i <= |t|
    ensures r.Ok? <==> forall j | i <= j < |t| :: j - start < |a| && Broadcastable(a[j - start], t[j])
    ensures r.Ok? ==> |r.value| == |t| - i
    ensures r.Ok? ==> i == |t| || |t| <= start + |a|
    ensures r.Ok? ==> forall k | 0 <= k < |r.value| ::
      i + k - start < |a| && r.value[k] == Max(a[i + k - start], t[i + k])
    ensures r.Err? ==> r.error in {UndefinedRead, IncompatibleDims}
    decreases |t| - i
  {
    if i == |t| then Ok([])
    else if i - start >= |a| then Err(UndefinedRead)
    else if !Broadcastable(a[i - start], t[i]) then Err(IncompatibleDims)
    else
      var rest :- AlignFrom(t, a, start, i + 1);
      Ok([Max(a[i - start], t[i])] + rest)
  }

  /** The result dimensions for a constant target `t` and a static arg `a`. */
  function AlignedDims(t: seq<nat>, a: seq<nat>, start: nat): (r: Result<seq<nat>, Error>)
    ensures r.Ok? <==> forall j | start <= j < |t| :: j - start < |a| && Broadcastable(a[j - start], t[j])
    ensures r.Ok? ==> |r.value| == |t|
    ensures r.Ok? ==> |t| <= start + |a|
    ensures r.Ok? ==> forall i | 0 <= i < |t| ::
      if i < start then r.value[i] == t[i]
      else i - start < |a| && r.value[i] == Max(a[i - start], t[i])
  {
    if start >= |t| then Ok(t)
    else
      var tail :- AlignFrom(t, a, start, start);
      Ok(t[..start] + tail)
  }

  /** NumPy or PDPD mode with a static arg and a static, constant target:
      the only case in which those modes check anything. */
  predicate AlignsConstantTarget(n: BroadcastNode) {
    && (n.mode.Numpy? || n.mode.Pdpd?)
    && IsStatic(n.arg.shape)
    && IsStatic(n.target.shape)
    && n.target.producer.Constant?
  }

  function AlignStart(n: BroadcastNode): nat
    requires AlignsConstantTarget(n)
  {
    StartAxis(n.mode, |TargetValues(n)|, |ToShape(n.arg.shape)|)
  }

  function AlignedResult(n: BroadcastNode): Result<seq<nat>, Error>
    requires AlignsConstantTarget(n)
  {
    AlignedDims(TargetValues(n), ToShape(n.arg.shape), AlignStart(n))
  }

  // ---------------------------------------------------------------------
  // validate_and_infer_types
  // ---------------------------------------------------------------------

  /** Validates the inputs and infers the output's element type and shape. */
  function InferBroadcast(n: BroadcastNode): (r: Result<TypedShape, Error>)
    ensures r.Ok? ==> r.value.elementType == n.arg.elementType
    ensures r.Ok? ==> WellTyped(n) && TargetDerivedShape(n.target).Ok?
    ensures !IsIntegralNumber(n.target.elementType) ==> r == Err(ShapeNotIntegral)
    ensures r.Ok? && !AlignsConstantTarget(n) ==> r.value.shape == TargetDerivedShape(n.target).value
    ensures n.mode.Explicit? ==>
      (r.Ok? <==> WellTyped(n) && TargetDerivedShape(n.target).Ok? && CheckExplicit(n).Ok?)
    ensures n.mode.Bidirectional? || ((n.mode.Numpy? || n.mode.Pdpd?) && !AlignsConstantTarget(n)) ==>
      (r.Ok? <==> WellTyped(n) && TargetDerivedShape(n.target).Ok?)
    ensures AlignsConstantTarget(n) ==>
      && (r.Ok? <==> WellTyped(n) && AlignedResult(n).Ok?)
      && (r.Ok? ==> r.value.shape == FromShape(AlignedResult(n).value))
  {
    if !IsIntegralNumber(n.target.elementType) then Err(ShapeNotIntegral)
    else if !RankCompatible(n.target.shape, 1) then Err(ShapeRankNot1)
    else if n.mode.Explicit? && !IsIntegralNumber(n.axesMapping.elementType) then Err(AxesNotIntegral)
    else if n.mode.Explicit? && !RankCompatible(n.axesMapping.shape, 1) then Err(AxesRankNot1)
    else
      var resolved :- TargetDerivedShape(n.target);
      if n.mode.Explicit? then
        var _ :- CheckExplicit(n);
        Ok(TypedShape(n.arg.elementType, resolved))
      else if AlignsConstantTarget(n) then
        var dims :- AlignedResult(n);
        Ok(TypedShape(n.arg.elementType, FromShape(dims)))
      else
        Ok(TypedShape(n.arg.elementType, resolved))
  }

  // ---------------------------------------------------------------------
  // get_broadcast_axes, generate_adjoints, evaluate
  // ---------------------------------------------------------------------

  /** The output axes from `i` on that have no equal-sized arg axis facing them. */
  function AxesFrom(res: seq<nat>, a: seq<nat>, start: nat, i: nat): (r: Result<set<nat>, Error>)
    requires i <= |res|
    ensures r.Err? <==> i < |res| && start + |a| < |res|
    ensures r.Err? ==> r.error == UndefinedRead
    ensures r.Ok? ==> forall k: nat :: k in r.value <==>
      i <= k < |res| && (k < start || (k - start < |a| && res[k] != a[k - start]))
    decreases |res| - i
  {
    if i == |res| then Ok({})
    else if i < start then
      var rest :- AxesFrom(res, a, start, i + 1);
      Ok({i} + rest)
    else if i - start >= |a| then Err(UndefinedRead)
    else
      var rest :- AxesFrom(res, a, start, i + 1);
      Ok(if res[i] != a[i - start] then {i} + rest else rest)
  }

  /** The broadcast output axes of node `n` whose inferred output shape is `output`. */
  function BroadcastAxes(n: BroadcastNode, output: PartialShape): (r: Result<AxesInfo, Error>)
    ensures n.mode.Bidirectional? ==> r == Err(UnknownBroadcastMode)
    ensures n.mode.Explicit? ==>
      (r == Ok(Unknown) <==> !(IsStatic(n.target.shape) && n.axesMapping.producer.Constant?))
    ensures n.mode.Explicit? && r.Ok? && r.value.Known? ==>
      |ToShape(n.target.shape)| == 1 && forall x | x in r.value.axes :: x < ToShape(n.target.shape)[0]
    ensures (n.mode.Numpy? || n.mode.Pdpd?) ==>
      (r == Ok(Unknown) <==> !(IsStatic(n.arg.shape) && IsStatic(output)))
    ensures (n.mode.Numpy? || n.mode.Pdpd?) && r.Ok? && r.value.Known? ==>
      var res := ToShape(output);
      var a := ToShape(n.arg.shape);
      var start := StartAxis(n.mode, |res|, |a|);
      forall i: nat :: i in r.value.axes <==>
        i < |res| && (i < start || (i - start < |a| && res[i] != a[i - start]))
  {
    match n.mode
    case Explicit =>
      if IsStatic(n.target.shape) && n.axesMapping.producer.Constant? then
        var targetShape := ToShape(n.target.shape);
        if |targetShape| != 1 then Err(InternalCheckFailed)
        else
          var rest :- EraseReverse(Range(targetShape[0]), MappingValues(n));
          assert forall x | x in rest :: x < targetShape[0] by {
            EraseReverseKeepsBound(Range(targetShape[0]), MappingValues(n), targetShape[0]);
          }
          Ok(Known(AxisSet(rest)))
      else Ok(Unknown)
    case Bidirectional => Err(UnknownBroadcastMode)
    case _ =>
      if IsStatic(n.arg.shape) && IsStatic(output) then
        var res := ToShape(output);
        var a := ToShape(n.arg.shape);
        var axes :- AxesFrom(res, a, StartAxis(n.mode, |res|, |a|), 0);
        Ok(Known(axes))
      else Ok(Unknown)
  }

  /** Erasing by position only removes values, so a bound on them survives. */
  lemma {:induction false} EraseReverseKeepsBound(xs: seq<nat>, positions: seq<nat>, bound: nat)
    requires forall x | x in xs :: x < bound
    ensures EraseReverse(xs, positions).Ok? ==> forall x | x in EraseReverse(xs, positions).value :: x < bound
    decreases |positions|
  {
    if |positions| > 0 {
      var p := positions[|positions| - 1];
      if p < |xs| {
        var ys := EraseAt(xs, p);
        assert forall y | y in ys :: y in xs;
        EraseReverseKeepsBound(ys, positions[..|positions| - 1], bound);
      }
    }
  }

  /** The gradient rule: the output gradient summed over the broadcast axes. */
  function Adjoint(n: BroadcastNode, output: PartialShape): (r: Result<SumNode, Error>)
    ensures r.Ok? <==> BroadcastAxes(n, output).Ok? && BroadcastAxes(n, output).value.Known?
    ensures r.Ok? ==> r.value.reductionAxes == BroadcastAxes(n, output).value.axes
    ensures BroadcastAxes(n, output) == Ok(Unknown) ==> r == Err(AutodiffDynamic)
    ensures BroadcastAxes(n, output).Err? ==> r.Err? && r.error == BroadcastAxes(n, output).error
  {
    var axes :- BroadcastAxes(n, output);
    if axes.Known? then Ok(Sum(axes.axes)) else Err(AutodiffDynamic)
  }

  /** Reference evaluation of node `n` with output shape `output` on an arg
      tensor of element type `argType`: only the success flag and the output
      shape it assigns. */
  function Evaluate(n: BroadcastNode, output: PartialShape, argType: ElementType): (r: Result<EvalOutcome, Error>)
    ensures r.Ok? <==> BroadcastAxes(n, output).Ok? && IsStatic(output)
    ensures r.Ok? && r.value.success <==>
      && BroadcastAxes(n, output).Ok?
      && BroadcastAxes(n, output).value.Known?
      && IsStatic(output)
      && HasBroadcastKernel(argType)
    ensures r.Ok? && BroadcastAxes(n, output).value.Unknown? ==> r.value.outputShape.None?
    ensures r.Ok? && BroadcastAxes(n, output).value.Known? ==> r.value.outputShape == Some(ToShape(output))
  {
    var axes :- BroadcastAxes(n, output);
    if !IsStatic(output) then Err(NotStatic)
    else if axes.Unknown? then Ok(EvalOutcome(false, None))
    else Ok(EvalOutcome(HasBroadcastKernel(argType), Some(ToShape(output))))
  }
}
