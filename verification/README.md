# Broadcast and Squeeze shape inference, modelled in Dafny

This project models two shape-inference routines of the nGraph graph
compiler's op layer, together with the small partial-shape algebra they rely on:

- **BroadcastBase** (`src/ngraph/op/util/broadcast_base.cpp`). It validates a
  broadcast's inputs and infers its output in three modes: explicit axes
  mapping (`NONE`), NumPy trailing alignment and PDPD alignment at a
  configured axis. It also works out which output axes were broadcast, builds
  the gradient rule (a Sum over those axes) and reports the success flag of
  reference evaluation.
- **Squeeze** (`src/ngraph/op/fused/squeeze.cpp`). It chooses the axes to
  drop: the listed ones, or every size-1 dimension when the constant list is
  empty. It checks them, builds the order-preserving output shape and lowers
  itself to a Reshape.

A dimension is `Static(n)` or `Dynamic`. A partial shape is `DynamicRank` or
`Ranked(dims)`. A graph input is described by its element type, its partial
shape and the kind of node that produces it: `Constant(values)`,
`Concat(parts)` or `Other`. This stands in for the source's run-time
inspection of the producer node. Every routine is a total function that
returns `Ok(...)` or `Err(kind)`. A `NODE_VALIDATION_CHECK` or `NGRAPH_CHECK`
failure, or a thrown `ngraph_error`, becomes an `Err`.

Files and modules:

- `wrappers.dfy` (module `Wrappers`): `Option`, `Result` (usable with `:-`)
- `shapes.dfy` (module `Shapes`): `Dimension`, `PartialShape`, static conversion, `ShapeSize`, `Range`
- `element_types.dfy` (module `ElementTypes`): the closed element-type set and its classifications
- `graph.dfy` (module `Graph`): `Producer`, `Input`, `TypedShape`, `Error`, constant value reading
- `axes.dfy` (module `Axes`): `size_t` wrap-around, axis normalisation, erase-by-position, kept indices
- `broadcast.dfy` (module `Broadcast`): validation, broadcast axes, adjoint, evaluate
- `broadcast_properties.dfy` (module `BroadcastProperties`): lemmas about broadcast
- `squeeze.dfy` (module `Squeeze`): axes selection, inference, decomposition
- `squeeze_properties.dfy` (module `SqueezeProperties`): lemmas about squeeze

## Behaviour of the code that the model keeps

- **Unsigned `start_axis`.** `start_axis` is a `size_t` (broadcast_base.cpp:175-177
  and :233-235). The PDPD axis is an `int64_t` converted to unsigned, and the
  NumPy rank difference wraps when the target rank is below the arg rank.
  `Axes.SizeT` models this as reduction modulo 2^64. As a result, the
  `start_axis >= 0` checks never fire. With a wrapped start:
  - validation checks nothing and the output is the target
    (`NumpySmallerTargetIsNotRejected`, `PdpdNegativeAxis`);
  - every output axis counts as broadcast.
- **Reads past the end.** In PDPD mode the alignment loop can read the arg
  shape past its end. Erasing a mapping entry at or beyond the vector's
  length and reading `[0]` of an empty constant in a Concat are also
  undefined behaviour in C++. Each of these is `Err(UndefinedRead)` in the
  model (`PdpdShortArgReadsPastEnd`). The explicit-mode read of
  `arg_shape[i]` never goes past the end: the count check has already made
  the mapping's length equal the arg rank. The model's input record does not
  tie a constant's value count to its shape, so the model keeps a guard for
  this read. `ExplicitArgReadInRange` proves that the guard never fires for a
  well-formed constant, one that holds one value per element of its shape.
- **Sortedness allows repeats.** The explicit-mode check uses `std::is_sorted`,
  so repeated mapping entries pass. `get_broadcast_axes` erases by position,
  so a repeated entry removes a neighbouring axis
  (`RepeatedMappingEntryErasesNeighbour`). The complement property is proved
  only for strictly ascending mappings whose entries are below the rank
  (`ExplicitAxesAreComplement`).
- **The result dimension is `std::max`.** So an arg dimension 1 against a
  target dimension 0 yields 1 (`UnitAgainstZeroGivesOne`).
- **`evaluate` can fail before it returns.** It evaluates
  `get_output_shape(0)` as an argument, so a non-static output is an error
  even when the broadcast axes are unknown.
- **Squeeze decomposition reads the data shape.** `decompose_op` calls
  `data.get_shape()`, so decomposition fails (`NotStatic`) when the data shape
  is not static, even if the inferred output is static.

Two further consequences of the code:
- NumPy mode accepts an arg (3,1) against a target (5,3,4), because the arg's
  trailing dimension is 1, and yields (5,3,4) (`NumpyStretchesTrailingOne`).
- The explicit mapping needs only to be non-decreasing (`std::is_sorted`),
  and `start_axis >= 0` can never fail.

## Model

| member | source | states |
|---|---|---|
| Broadcast.InferBroadcast | src/ngraph/op/util/broadcast_base.cpp:48-200 | the output element type is the arg's; success requires an integral-number target type of rank compatible with 1 (and the same of the mapping in explicit mode); a non-integral target fails first; per mode, success holds exactly when the relevant checks pass, and the shape is the target-derived one except where NumPy/PDPD aligns a constant target |
| Broadcast.TargetDerivedShape | src/ngraph/op/util/broadcast_base.cpp:79-109 | a Constant target gives its values; a usable Concat (static rank-1 output with one element per part) gives one dimension per part, static exactly for Constant parts, with the part's first value; anything else gives an unknown rank |
| Broadcast.CheckExplicit | src/ngraph/op/util/broadcast_base.cpp:111-165 | nothing is checked unless all three input shapes are static; then the mapping length must equal the arg rank; with both constants the mapping must be non-decreasing and send each arg axis to an in-range target axis of exactly its size; an unsorted mapping always fails, and once the count matches it fails with the transpose error |
| Broadcast.CheckMappingFrom | src/ngraph/op/util/broadcast_base.cpp:142-162 | succeeds exactly when every remaining entry is below the target rank, has an arg axis, and selects a target dimension equal to it |
| Broadcast.StartAxis | src/ngraph/op/util/broadcast_base.cpp:175-177 | NumPy start is the rank difference when the target is not smaller, and lies beyond the target rank when it is (wrap-around); PDPD start is the configured axis when non-negative, and at least 2^63 when it is negative |
| Broadcast.AlignFrom | src/ngraph/op/util/broadcast_base.cpp:184-195 | succeeds exactly when each remaining output axis faces an arg axis and the pair is 1/1/equal; each result dimension is the pair's maximum |
| Broadcast.AlignedDims | src/ngraph/op/util/broadcast_base.cpp:168-196 | succeeds exactly when all aligned pairs exist and are legal; dimensions before the start axis keep the target's values, the rest are the pair maxima |
| Broadcast.AxesFrom | src/ngraph/op/util/broadcast_base.cpp:237-243 | fails exactly when the loop would read past the arg shape; otherwise output axis k is in the set iff k is before the start axis or its dimension differs from the arg dimension it faces |
| Broadcast.BroadcastAxes | src/ngraph/op/util/broadcast_base.cpp:202-253 | an unhandled mode is an error; explicit axes are unknown iff the target-shape input is not static or the mapping is not constant, and every known axis is below the output rank; NumPy/PDPD axes are unknown iff the arg or output is not static, and otherwise are exactly the axes before the start or differing from the arg |
| Broadcast.EraseReverseKeepsBound | src/ngraph/op/util/broadcast_base.cpp:217-222 | erasing positions from the axis list never introduces a value at or above the output rank |
| Broadcast.Adjoint | src/ngraph/op/util/broadcast_base.cpp:255-271 | the gradient is a Sum over exactly the known broadcast axes; unknown axes give the autodiff error, and errors of the axes computation propagate |
| Broadcast.Evaluate | src/ngraph/op/util/broadcast_base.cpp:288-339 | returns a flag exactly when the axes computation succeeds and the output is static; the flag is true exactly when the axes are known and the arg type is one of the thirteen kernel types; unknown axes leave the output shape unset, known axes set it to the output shape |
| Axes.SizeT | src/ngraph/op/util/broadcast_base.cpp:175-177 | the conversion to `size_t` is below 2^64, is the identity on representable values and adds 2^64 to negative ones |
| Axes.EraseReverse | src/ngraph/op/util/broadcast_base.cpp:217-222 | on success the list has lost one element per erased position; the only failure is an erase past the end |
| BroadcastProperties.EraseAtRemovesValue | src/ngraph/op/util/broadcast_base.cpp:221 | erasing one position of a repeat-free list removes exactly the value there and keeps the list repeat-free |
| BroadcastProperties.EraseReverseRemovesPositions | src/ngraph/op/util/broadcast_base.cpp:217-223 | erasing strictly ascending positions, last first, from a list that is the identity up to the largest position succeeds and removes exactly those values |
| BroadcastProperties.ExplicitAxesAreComplement | src/ngraph/op/util/broadcast_base.cpp:207-225 | for a strictly ascending mapping with entries below R, the broadcast axes are {0..R-1} minus the mapping values |
| BroadcastProperties.RepeatedMappingEntryErasesNeighbour | src/ngraph/op/util/broadcast_base.cpp:219-222 | mapping [1,1] into a rank-3 target passes validation, yet the broadcast axes are {0}, not the complement {0,2} |
| BroadcastProperties.ExplicitValidationRules | src/ngraph/op/util/broadcast_base.cpp:114-162 | with well-typed inputs, all shapes static and both values constant, validation succeeds iff the mapping length equals the arg rank, the mapping is sorted and every arg axis maps to an equal target dimension; the output is then the target |
| BroadcastProperties.MappingChecksReadInRange | src/ngraph/op/util/broadcast_base.cpp:142-162 | when the arg has an axis for every mapping entry, the per-entry checks never fail by reading the arg shape past its end |
| BroadcastProperties.ExplicitArgReadInRange | src/ngraph/op/util/broadcast_base.cpp:121-162 | for a mapping constant holding one value per element of its shape, the explicit checks never read `arg_shape[i]` past the arg rank |
| BroadcastProperties.DescendingMappingRejected | src/ngraph/op/util/broadcast_base.cpp:135-140 | with well-typed static inputs, both constant and the count check passed, any mapping that is not non-decreasing is rejected as a transpose (the sortedness error), whatever sizes it maps |
| BroadcastProperties.AlignedAxesAfterValidation | src/ngraph/op/util/broadcast_base.cpp:227-245 | after a successful NumPy/PDPD validation against a constant target, the broadcast axes are known and are the axes before the start plus those whose target dimension exceeds the arg dimension |
| BroadcastProperties.NumpyStretchesTrailingOne | src/ngraph/op/util/broadcast_base.cpp:184-195 | arg (3,1) with target (5,3,4) gives (5,3,4) with broadcast axes {0,2} |
| BroadcastProperties.NumpyKeepsMatchingDims | src/ngraph/op/util/broadcast_base.cpp:184-195 | arg (3,1) with target (5,3,1) gives (5,3,1), broadcast axes {0}, and a gradient summed over {0} |
| BroadcastProperties.NumpyRejectsMismatch | src/ngraph/op/util/broadcast_base.cpp:186-193 | arg (3,2) with target (5,3,4) fails with incompatible dimensions |
| BroadcastProperties.UnitAgainstZeroGivesOne | src/ngraph/op/util/broadcast_base.cpp:194 | arg (1) with target (0) gives (1) |
| BroadcastProperties.NumpySmallerTargetIsNotRejected | src/ngraph/op/util/broadcast_base.cpp:175-184 | a NumPy target of smaller rank than the arg is accepted unchecked and becomes the output shape |
| BroadcastProperties.PdpdNegativeAxis | src/ngraph/op/util/broadcast_base.cpp:175-184 | a negative PDPD axis makes validation check nothing, the output is the target, and all output axes are broadcast |
| BroadcastProperties.PdpdShortArgReadsPastEnd | src/ngraph/op/util/broadcast_base.cpp:184-189 | PDPD axis 0 with arg (2) and target (2,3) reads past the arg shape |
| Axes.NormalizeAxis | src/ngraph/op/fused/squeeze.cpp:116-117 | an axis normalises iff it lies in [-R, R); the result is below R and is the axis itself or the axis plus R |
| Axes.NormalizeAxes | src/ngraph/op/fused/squeeze.cpp:116-117 | a list normalises iff every entry is in range; the result has one normalised entry per given entry, in order |
| Axes.KeptIndices | src/ngraph/op/fused/squeeze.cpp:77-84 | the kept indices are strictly ascending, below the rank, and are exactly the unselected ones |
| Axes.KeepUnselectedPicksKept | src/ngraph/op/fused/squeeze.cpp:77-84 | the output dimensions are the data dimensions at the kept indices, in order |
| Axes.UnitAxes | src/ngraph/op/fused/squeeze.cpp:103-113 | the scanned axes are strictly ascending and are exactly the positions of size-1 dimensions |
| Squeeze.SqueezeAxes | src/ngraph/op/fused/squeeze.cpp:93-120 | fails on an unknown rank or non-constant axes; every selected axis is below the rank; an empty constant on static data selects exactly the size-1 positions in ascending order (and fails on non-static data); a non-empty list succeeds iff every entry is in range and yields the normalised entries |
| Squeeze.InferSqueeze | src/ngraph/op/fused/squeeze.cpp:36-86 | the element type is the data's; the output has an unknown rank exactly in the undetermined cases; otherwise success iff the axes resolve and, for static data, every selected dimension is 1; the output is the data with the selected axes removed |
| Squeeze.DecomposeSqueeze | src/ngraph/op/fused/squeeze.cpp:122-133 | fails unless the output shape is static; succeeds iff output and data are static; the Reshape targets exactly the stored output shape in the identity axis order of the data rank |
| SqueezeProperties.KeptIndicesCount | src/ngraph/op/fused/squeeze.cpp:62-84 | kept plus selected-below-rank indices number exactly the rank |
| SqueezeProperties.SqueezedRank | src/ngraph/op/fused/squeeze.cpp:62-85 | the output rank is the data rank minus the number of distinct selected axes |
| SqueezeProperties.EmptyAxesRemoveUnitDims | src/ngraph/op/fused/squeeze.cpp:103-113 | an empty constant on static data succeeds, removes exactly the size-1 dimensions and leaves no 1 |
| SqueezeProperties.EmptyAxesMatchExplicitList | src/ngraph/op/fused/squeeze.cpp:103-118 | an empty constant squeezes like the explicit list of the size-1 positions |
| SqueezeProperties.SqueezeDependsOnAxisValues | src/ngraph/op/fused/squeeze.cpp:63-75 | two non-empty axis lists with the same values give the same result, whatever the repetition or order |
| SqueezeProperties.RepeatedAxisCollapses | src/ngraph/op/fused/squeeze.cpp:63 | squeezing [a, a] equals squeezing [a] |
| SqueezeProperties.DynamicDimsPassThrough | src/ngraph/op/fused/squeeze.cpp:66-74 | with a known rank and some unknown dimension, in-range listed axes always succeed without a size-1 check, and unselected dimensions are copied in order |
| SqueezeProperties.NonUnitAxisAcceptedWhenShapeDynamic | src/ngraph/op/fused/squeeze.cpp:66-82 | data (5, ?) squeezed at axis 0 gives (?) |
| SqueezeProperties.SqueezeOneAxis | src/ngraph/op/fused/squeeze.cpp:64-84 | on static data, squeezing a size-1 axis removes just that position, and squeezing any other axis fails |
| SqueezeProperties.KeepUnselectedSingle | src/ngraph/op/fused/squeeze.cpp:77-84 | keeping all positions but one removes exactly that position |
| SqueezeProperties.KeepUnselectedPreservesSize | src/ngraph/op/fused/squeeze.cpp:129-132 | removing size-1 dimensions keeps the element count, so the Reshape is size-preserving |
| SqueezeProperties.DecomposeAgreesWithInference | src/ngraph/op/fused/squeeze.cpp:122-133 | for static data, decomposition of a successful squeeze yields a Reshape to exactly the inferred static shape in identity order, with the same element count |

## Left out

- The reference broadcast kernel (`runtime::reference::broadcast`) and host tensor buffers: `Broadcast.Evaluate` models only the success flag, the element-type dispatch and the output shape it assigns.
- `normalize_axes` (in validation_util) is not part of this model. `Axes.NormalizeAxis` assumes its rule: an axis in [-R, R) maps to itself, or to itself plus R when negative; anything else fails; nothing is de-duplicated.
- The op Constant is not part of this model. `Graph.ClampedValues` assumes that `get_shape_val` and `get_axis_vector_val` read negative values as 0. Constants carry integers only, so a constant of a floating element type is not modelled.
- The element-type classes are not part of this model. `ElementTypes.IsIntegralNumber` assumes "not real and not boolean", so the undefined, dynamic and u1 types count as integral numbers.
- Graph plumbing is not modelled: node construction, `as_type_ptr`, `shared_ptr`, building the Sum and Reshape nodes, `constructor_validate_and_infer_types`, `visit_attributes`, `clone_with_new_inputs` (an arity check) and error-message text.
- The two-input broadcast constructor used in explicit mode: the model always gives the node three inputs, and NumPy/PDPD ignore the third.
- `get_axes` on an unknown rank throws while reading the rank's length, before its own check; both are failures and are modelled as `AxesNotConstant`.
- `generate_adjoints` reading `deltas.at(0)` of an empty list is not modelled.
- Undefined behaviour (reads or erases past a vector's end) is modelled as the error `UndefinedRead`, not as whatever a particular build would do.
- The CPU layout pass (`cpu_layout.cpp`) attaches default layouts and infers nothing.
- The embedded-Python smoke test (`numpy.in.cpp`) exercises nothing in the core.
- ExtractImagePatches: its implementation is not part of this model, so its output-size formula is not stated.
- Broadcast.CheckMappingFrom: states which error kinds can occur, not which entry's kind is reported first.
- Broadcast.AlignFrom: states which error kinds can occur, not which one the first failing output axis reports.
