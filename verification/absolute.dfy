/**
 * Absolutely positioned children on one axis (column, then row): the
 * dimension Loop A pre-fills before the child's own layout, and Loop G,
 * which sizes the child between its two offsets once the container's size
 * is final and anchors a child that has only a trailing offset.
 */
module AbsolutePass {
  import opened Scalars
  import opened Layouts
  import opened Styles
  import opened Engine

  /** What the two passes read of an absolutely positioned child on one axis. */
  datatype AbsChild = AbsChild(
    styleSize: Scalar,         // style.dimensions[dim[axis]]
    leadingOffset: Scalar,     // style.position[leading[axis]]
    trailingOffset: Scalar,    // style.position[trailing[axis]]
    marginLeading: Scalar,
    marginTrailing: Scalar,
    paddingAndBorder: Scalar,  // the child's own padding and border on the axis
    min: Scalar,
    max: Scalar,
    size: Scalar,              // layout.dimensions[dim[axis]]
    position: Scalar           // layout.position[leading[axis]]
  )

  /** What the two passes read of the container on the same axis. */
  datatype AbsFrame = AbsFrame(
    nodeSize: Scalar,          // layout.dimensions[dim[axis]]
    paddingAndBorder: Scalar,  // padding and border on both ends
    border: Scalar             // border on both ends
  )

  function AbsChildOf(st: Style, l: Layout, a: Axis): AbsChild
    requires Styles.Valid(st)
  {
    AbsChild(
      Dim(st.dimensions, DimOf(a)),
      Pos(st.position, Leading(a)),
      Pos(st.position, Trailing(a)),
      LeadingEdge(st.margin, a),
      TrailingEdge(st.margin, a),
      PaddingAndBorder(st, a),
      MinBound(st, a),
      MaxBound(st, a),
      Dim(l.dimensions, DimOf(a)),
      Pos(l.position, Leading(a)))
  }

  /**
   * The dimension is filled in only when the container's size is known, the
   * child's style does not set one (undefined or negative), and both of its
   * offsets on the axis are set.
   */
  predicate Fills(c: AbsChild, f: AbsFrame) {
    !IsNaN(f.nodeSize)
    && !(!IsNaN(c.styleSize) && Ge(c.styleSize, ZERO))
    && !IsNaN(c.leadingOffset) && !IsNaN(c.trailingOffset)
  }

  /** The room between the two offsets once `inset` and the child's margins are taken off the container's size. */
  function Room(c: AbsChild, nodeSize: Scalar, inset: Scalar): Scalar {
    Sub(Sub(Sub(Sub(nodeSize, inset), Add(c.marginLeading, c.marginTrailing)), c.leadingOffset), c.trailingOffset)
  }

  /** That room, bounded by the child's min and max, and never below its own padding and border. */
  function Fill(c: AbsChild, nodeSize: Scalar, inset: Scalar): (r: Scalar)
    ensures r.Num? <==> Room(c, nodeSize, inset).Num? && c.paddingAndBorder.Num?
    ensures r.Num? ==> r.v >= c.paddingAndBorder.v
    ensures (r.Num? && (Applies(c.min) ==> Room(c, nodeSize, inset).v >= c.min.v)
               && (Applies(c.max) ==> Room(c, nodeSize, inset).v <= c.max.v)
               && Room(c, nodeSize, inset).v >= c.paddingAndBorder.v)
              ==> r == Room(c, nodeSize, inset)
  {
    MaxOf(Clamp(c.min, c.max, Room(c, nodeSize, inset)), c.paddingAndBorder)
  }

  /** The child's dimension after Loop A's pre-fill, which takes the container's padding and border off. */
  function Prefill(c: AbsChild, f: AbsFrame): (r: Scalar)
    ensures !Fills(c, f) ==> r == c.size
    ensures Fills(c, f) ==> r == Fill(c, f.nodeSize, f.paddingAndBorder)
  {
    if Fills(c, f) then Fill(c, f.nodeSize, f.paddingAndBorder) else c.size
  }

  /**
   * Loop G on one axis of one child: the dimension is filled between the
   * offsets, taking only the container's border off; then a child with a
   * trailing offset and no leading one is placed so that its far edge sits
   * that offset away from the container's far edge.
   */
  function Finish(c: AbsChild, f: AbsFrame): (r: AbsChild)
    ensures r == c.(size := r.size, position := r.position)
    ensures !Fills(c, f) ==> r.size == c.size
    ensures r.position != c.position ==> !IsNaN(c.trailingOffset) && IsNaN(c.leadingOffset)
    ensures (!IsNaN(c.trailingOffset) && IsNaN(c.leadingOffset) && f.nodeSize.Num? && r.size.Num?)
              ==> r.position.Num? && r.position.v + r.size.v + c.trailingOffset.v == f.nodeSize.v
  {
    var size := if Fills(c, f) then Fill(c, f.nodeSize, f.border) else c.size;
    var position := if !IsNaN(c.trailingOffset) && IsNaN(c.leadingOffset)
                    then Sub(Sub(f.nodeSize, size), c.trailingOffset) else c.position;
    c.(size := size, position := position)
  }

  // ---------------------------------------------------------------------------
  // Properties
  // ---------------------------------------------------------------------------

  /** Within its bounds, Loop G's child spans exactly from its leading offset to its trailing offset inside the border. */
  lemma FillSpansOffsets(c: AbsChild, f: AbsFrame)
    requires Fills(c, f) && f.border.Num? && c.marginLeading.Num? && c.marginTrailing.Num? && c.paddingAndBorder.Num?
    requires var room := Room(c, f.nodeSize, f.border).v;
             (Applies(c.min) ==> room >= c.min.v) && (Applies(c.max) ==> room <= c.max.v) && room >= c.paddingAndBorder.v
    ensures var r := Finish(c, f);
            r.size.Num? && r.position == c.position &&
            c.leadingOffset.v + c.marginLeading.v + r.size.v + c.marginTrailing.v + c.trailingOffset.v + f.border.v
              == f.nodeSize.v
  {
  }

  /**
   * The pre-fill and Loop G disagree: within the bounds, Loop G's dimension
   * is larger by the container's padding, which the pre-fill subtracts and
   * Loop G does not.
   */
  lemma PrefillDiffersByPadding(c: AbsChild, f: AbsFrame)
    requires Fills(c, f) && f.border.Num? && f.paddingAndBorder.Num?
    requires c.marginLeading.Num? && c.marginTrailing.Num? && c.paddingAndBorder.Num?
    requires forall inset :: inset == f.border || inset == f.paddingAndBorder ==>
               var room := Room(c, f.nodeSize, inset).v;
               (Applies(c.min) ==> room >= c.min.v) && (Applies(c.max) ==> room <= c.max.v) && room >= c.paddingAndBorder.v
    ensures Finish(c, f).size.Num? && Prefill(c, f).Num?
    ensures Finish(c, f).size.v - Prefill(c, f).v == f.paddingAndBorder.v - f.border.v
  {
    assert Room(c, f.nodeSize, f.border).Num?;
    assert Room(c, f.nodeSize, f.paddingAndBorder).Num?;
  }

  /** Loop G never makes a child smaller than its own padding and border. */
  lemma FinishCoversPadding(c: AbsChild, f: AbsFrame)
    requires Fills(c, f)
    requires Finish(c, f).size.Num?
    ensures Finish(c, f).size.v >= c.paddingAndBorder.v
  {
  }

  /**
   * Loop G is idempotent: a child it visits twice (the self-linked
   * absolute child that broke a line) ends where one visit leaves it.
   */
  lemma FinishStable(c: AbsChild, f: AbsFrame)
    ensures Finish(Finish(c, f), f) == Finish(c, f)
  {
  }
}
