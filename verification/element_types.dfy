/** The closed set of tensor element types and the classifications the
    broadcast and squeeze routines consult. */
module ElementTypes {

  datatype ElementType =
    | Undefined | DynamicType
    | Boolean
    | Bf16 | F16 | F32 | F64
    | I8 | I16 | I32 | I64
    | U1 | U8 | U16 | U32 | U64

  predicate IsReal(et: ElementType) {
    et.Bf16? || et.F16? || et.F32? || et.F64?
  }

  /** Integral means "not real", so boolean, u1 and the undefined and dynamic
      types are integral too. */
  predicate IsIntegral(et: ElementType) {
    !IsReal(et)
  }

  /** An integral type that is not boolean: the types a shape or axis list may have. */
  predicate IsIntegralNumber(et: ElementType) {
    IsIntegral(et) && !et.Boolean?
  }

  /** The thirteen element types the reference broadcast kernel is instantiated for. */
  predicate HasBroadcastKernel(et: ElementType) {
    et in {Boolean, I8, I16, I32, I64, U8, U16, U32, U64, Bf16, F16, F32, F64}
  }
}
