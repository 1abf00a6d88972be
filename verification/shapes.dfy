/** The partial-shape algebra: a dimension is a known length or unknown, and a
    shape either has an unknown rank or a known list of dimensions. */
module Shapes {

  datatype Dimension = Static(length: nat) | Dynamic

  datatype PartialShape = DynamicRank | Ranked(dims: seq<Dimension>)

  /** The rank and every dimension are known (`PartialShape::is_static`). */
  predicate IsStatic(p: PartialShape) {
    p.Ranked? && forall i | 0 <= i < |p.dims| :: p.dims[i].Static?
  }

  /** `rank().compatible(r)`: the rank is unknown or equals `r`. */
  predicate RankCompatible(p: PartialShape, r: nat) {
    p.DynamicRank? || |p.dims| == r
  }

  /** The concrete shape of a static partial shape (`to_shape`). */
  function ToShape(p: PartialShape): (s: seq<nat>)
    requires IsStatic(p)
    ensures |s| == |p.dims|
    ensures forall i | 0 <= i < |s| :: p.dims[i] == Static(s[i])
  {
    seq(|p.dims|, i requires 0 <= i < |p.dims| => p.dims[i].length)
  }

  /** The partial shape of a concrete shape. */
  function FromShape(s: seq<nat>): (p: PartialShape)
    ensures IsStatic(p)
    ensures ToShape(p) == s
  {
    Ranked(seq(|s|, i requires 0 <= i < |s| => Static(s[i])))
  }

  lemma FromShapeOfToShape(p: PartialShape)
    requires IsStatic(p)
    ensures FromShape(ToShape(p)) == p
  {
  }

  /** Number of elements of a tensor of shape `s` (`shape_size`). */
  function ShapeSize(s: seq<nat>): nat {
    if |s| == 0 then 1 else ShapeSize(s[..|s| - 1]) * s[|s| - 1]
  }

  /** 0, 1, ..., n-1 (`std::iota`, `get_default_order`). */
  function Range(n: nat): (r: seq<nat>)
    ensures |r| == n
    ensures forall i | 0 <= i < n :: r[i] == i
  {
    seq(n, i requires 0 <= i < n => i)
  }
}
