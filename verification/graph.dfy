/** The view of a graph that shape inference has: each input carries the
    producer's element type and partial shape, and the kind of node that
    produces it (instead of inspecting the node with `as_type_ptr`). */
module Graph {
  import opened Shapes
  import opened ElementTypes

  datatype Producer =
    | Constant(values: seq<int>)
    | Concat(parts: seq<Producer>)
    | Other

  datatype Input = Input(elementType: ElementType, shape: PartialShape, producer: Producer)

  /** A constant with a static shape holds one value per element of that
      shape, as every Constant node does. */
  predicate WellFormedConstant(i: Input) {
    i.producer.Constant? && IsStatic(i.shape) ==> |i.producer.values| == ShapeSize(ToShape(i.shape))
  }

  /** What validation assigns to an output. */
  datatype TypedShape = TypedShape(elementType: ElementType, shape: PartialShape)

  /** The reasons validation, the autodiff rule or decomposition can fail. */
  datatype Error =
    | ShapeNotIntegral        // target-shape input is not of an integral number type
    | ShapeRankNot1           // target-shape input is not a flat list
    | AxesNotIntegral         // axes-mapping input is not of an integral number type
    | AxesRankNot1            // axes-mapping input is not a flat list
    | AxesCountMismatch       // axes-mapping length differs from the arg rank
    | TransposeNotPermitted   // axes mapping is not in sorted order
    | MappingExceedsRank      // an axes-mapping entry is not below the target rank
    | MappingDimMismatch      // target[mapping[i]] differs from arg[i]
    | IncompatibleDims        // an aligned pair is neither 1 nor equal
    | UnknownBroadcastMode    // broadcast axes asked for a mode the base class does not handle
    | AutodiffDynamic         // gradient asked for while the broadcast axes are unknown
    | InternalCheckFailed     // an internal consistency check failed
    | UndefinedRead           // the source would read or erase past the end of a vector
    | NotStatic               // a concrete shape was asked of a partial one
    | AxesNotConstant         // squeeze axes asked for without a constant axes input or rank
    | AxisOutOfRange          // an axis does not normalise into [0, rank)
    | OnlySize1Removable      // squeeze selected an axis whose dimension is not 1
    | CannotDecompose         // decomposition before the output shape was resolved

  /** A constant's values read as unsigned shape or axis values; negative
      values read as 0. */
  function ClampedValues(values: seq<int>): seq<nat> {
    seq(|values|, i requires 0 <= i < |values| => if values[i] > 0 then values[i] else 0)
  }
}
