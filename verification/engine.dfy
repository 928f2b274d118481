/**
 * The pure helpers of LayoutEngine and its memoising entry point
 * `layoutNode`. Axes are CSSFlexDirection values; the engine's lookup
 * tables become functions over them.
 */
module Engine {
  import opened Scalars
  import opened Wrappers
  import opened Layouts
  import opened Styles
  import Spacings
  import opened Nodes

  type Axis = FlexDirection

  predicate IsColumn(a: Axis) {
    a == Column || a == ColumnReverse
  }

  predicate IsRow(a: Axis) {
    a == Row || a == RowReverse
  }

  /** The `leading` table: the edge where the axis starts. */
  function Leading(a: Axis): PosIndex {
    match a
    case Column => PosTop
    case ColumnReverse => PosBottom
    case Row => PosLeft
    case RowReverse => PosRight
  }

  /** The `trailing` table: the edge where the axis ends. */
  function Trailing(a: Axis): PosIndex {
    match a
    case Column => PosBottom
    case ColumnReverse => PosTop
    case Row => PosRight
    case RowReverse => PosLeft
  }

  /** The `pos` table, which repeats `leading`. */
  function PosOf(a: Axis): PosIndex {
    match a
    case Column => PosTop
    case ColumnReverse => PosBottom
    case Row => PosLeft
    case RowReverse => PosRight
  }

  /** The `dim` table. */
  function DimOf(a: Axis): DimIndex {
    if IsColumn(a) then DimHeight else DimWidth
  }

  /** The `leadingSpacing` table: row axes start at START whatever their direction. */
  function LeadingSpacing(a: Axis): Spacings.SpacingType {
    match a
    case Column => Spacings.Top
    case ColumnReverse => Spacings.Bottom
    case Row => Spacings.Start
    case RowReverse => Spacings.Start
  }

  /** The `trailingSpacing` table. */
  function TrailingSpacing(a: Axis): Spacings.SpacingType {
    match a
    case Column => Spacings.Bottom
    case ColumnReverse => Spacings.Top
    case Row => Spacings.End
    case RowReverse => Spacings.End
  }

  /** A position index used as a Spacing type: POSITION_LEFT..BOTTOM equal Spacing.LEFT..BOTTOM. */
  function SpacingAt(p: PosIndex): (t: Spacings.SpacingType)
    ensures Spacings.Index(t) == PosOrdinal(p)
  {
    match p
    case PosLeft => Spacings.Left
    case PosTop => Spacings.Top
    case PosRight => Spacings.Right
    case PosBottom => Spacings.Bottom
  }

  /** The reverse of an axis. */
  function Reverse(a: Axis): Axis {
    match a
    case Column => ColumnReverse
    case ColumnReverse => Column
    case Row => RowReverse
    case RowReverse => Row
  }

  /** The tables agree: `pos` is `leading`, leading and trailing are opposite edges of the axis's dimension, and reversing swaps them. */
  lemma TablesAgree(a: Axis)
    ensures PosOf(a) == Leading(a)
    ensures Leading(a) != Trailing(a)
    ensures Leading(Reverse(a)) == Trailing(a) && Trailing(Reverse(a)) == Leading(a)
    ensures DimOf(Reverse(a)) == DimOf(a)
    ensures IsColumn(a) <==> Leading(a) in {PosTop, PosBottom}
    ensures IsRow(a) <==> Trailing(a) in {PosLeft, PosRight}
  {
  }

  // ---------------------------------------------------------------------------
  // Spacing sums used throughout layoutNodeImpl
  // ---------------------------------------------------------------------------

  /** `s.getWithFallback(leadingSpacing[a], leading[a])`. */
  function LeadingEdge(s: Spacings.Spacing, a: Axis): Scalar
    requires Spacings.Shaped(s)
  {
    Spacings.GetWithFallback(s, LeadingSpacing(a), SpacingAt(Leading(a)))
  }

  /** `s.getWithFallback(trailingSpacing[a], trailing[a])`. */
  function TrailingEdge(s: Spacings.Spacing, a: Axis): Scalar
    requires Spacings.Shaped(s)
  {
    Spacings.GetWithFallback(s, TrailingSpacing(a), SpacingAt(Trailing(a)))
  }

  /** Leading padding plus leading border. */
  function LeadingPaddingAndBorder(st: Style, a: Axis): Scalar
    requires Styles.Valid(st)
  {
    Add(LeadingEdge(st.padding, a), LeadingEdge(st.border, a))
  }

  /** Trailing padding plus trailing border. */
  function TrailingPaddingAndBorder(st: Style, a: Axis): Scalar
    requires Styles.Valid(st)
  {
    Add(TrailingEdge(st.padding, a), TrailingEdge(st.border, a))
  }

  /** Padding and border on both ends of an axis. */
  function PaddingAndBorder(st: Style, a: Axis): Scalar
    requires Styles.Valid(st)
  {
    Add(LeadingPaddingAndBorder(st, a), TrailingPaddingAndBorder(st, a))
  }

  /** Margin on both ends of an axis. */
  function MarginAxis(st: Style, a: Axis): Scalar
    requires Styles.Valid(st)
  {
    Add(LeadingEdge(st.margin, a), TrailingEdge(st.margin, a))
  }

  /** On a fresh style every edge is zero, so the sums are zero. */
  lemma FreshStyleSums(a: Axis)
    ensures PaddingAndBorder(NewStyle(), a) == ZERO
    ensures MarginAxis(NewStyle(), a) == ZERO
  {
    var initial := Style(
      Inherit, Column, JustifyFlexStart, AlignFlexStart, AlignStretch, AlignAuto, Relative, NoWrap,
      ZERO,
      Spacings.NewSpacing(), Spacings.NewSpacing(), Spacings.NewSpacing(),
      Fill4(ZERO), Fill2(ZERO),
      UNDEFINED, UNDEFINED, UNDEFINED, UNDEFINED);
    Styles.ResetDefaults(initial);
    FreshEdges(a);
  }

  /** Both edges of a fresh Spacing are zero on every axis: no flag is set, so each falls back to a physical edge. */
  lemma FreshEdges(a: Axis)
    ensures LeadingEdge(Spacings.NewSpacing(), a) == ZERO
    ensures TrailingEdge(Spacings.NewSpacing(), a) == ZERO
  {
    Spacings.FreshUnflagged(LeadingSpacing(a));
    Spacings.FreshUnflagged(TrailingSpacing(a));
    Spacings.FreshGet(SpacingAt(Leading(a)));
    Spacings.FreshGet(SpacingAt(Trailing(a)));
  }

  // ---------------------------------------------------------------------------
  // boundAxis
  // ---------------------------------------------------------------------------

  /** A min or max bound takes part only when it is defined and non-negative. */
  predicate Applies(b: Scalar) {
    !IsNaN(b) && Ge(b, ZERO)
  }

  function MinBound(st: Style, a: Axis): Scalar {
    if IsColumn(a) then st.minHeight else st.minWidth
  }

  function MaxBound(st: Style, a: Axis): Scalar {
    if IsColumn(a) then st.maxHeight else st.maxWidth
  }

  /**
   * The clamp inside boundAxis: to the max bound first, then to the min
   * bound, so the min wins when the two conflict. A bound applies only when
   * it is a number >= 0.
   */
  function Clamp(min: Scalar, max: Scalar, value: Scalar): (r: Scalar)
    ensures value.Undef? ==> r.Undef?
    ensures r == value || r == min || r == max
    ensures value.Num? && Applies(min) ==> r.Num? && r.v >= min.v
    ensures (value.Num? && Applies(max) && !(Applies(min) && min.v > max.v)) ==> r.Num? && r.v <= max.v
    ensures (value.Num? && (Applies(min) ==> value.v >= min.v) && (Applies(max) ==> value.v <= max.v)) ==> r == value
  {
    var clamped := if Applies(max) && Gt(value, max) then max else value;
    if Applies(min) && Lt(clamped, min) then min else clamped
  }

  /** boundAxis: the clamp with the axis's bounds; column axes use the height bounds. */
  function BoundAxis(st: Style, a: Axis, value: Scalar): (r: Scalar)
    ensures value.Undef? ==> r.Undef?
    ensures r == value || r == MinBound(st, a) || r == MaxBound(st, a)
    ensures value.Num? && Applies(MinBound(st, a)) ==> r.Num? && r.v >= MinBound(st, a).v
    ensures (value.Num? && Applies(MaxBound(st, a)) && !(Applies(MinBound(st, a)) && MinBound(st, a).v > MaxBound(st, a).v))
              ==> r.Num? && r.v <= MaxBound(st, a).v
    ensures (value.Num? && (Applies(MinBound(st, a)) ==> value.v >= MinBound(st, a).v)
               && (Applies(MaxBound(st, a)) ==> value.v <= MaxBound(st, a).v)) ==> r == value
  {
    Clamp(MinBound(st, a), MaxBound(st, a), value)
  }

  /** Clamping twice is clamping once. */
  lemma BoundAxisIdempotent(st: Style, a: Axis, value: Scalar)
    ensures BoundAxis(st, a, BoundAxis(st, a, value)) == BoundAxis(st, a, value)
  {
  }

  /** boundAxis is monotone in the value. */
  lemma BoundAxisMonotone(st: Style, a: Axis, x: Scalar, y: Scalar)
    requires x.Num? && y.Num? && x.v <= y.v
    ensures BoundAxis(st, a, x).v <= BoundAxis(st, a, y).v
  {
  }

  /** With conflicting bounds every defined value is clamped to the min. */
  lemma BoundAxisMinWins(st: Style, a: Axis, value: Scalar)
    requires value.Num? && Applies(MinBound(st, a)) && Applies(MaxBound(st, a))
    requires MinBound(st, a).v > MaxBound(st, a).v
    ensures BoundAxis(st, a, value) == MinBound(st, a)
  {
  }

  /** A column axis reads only the height bounds: changing the width bounds changes nothing. */
  lemma BoundAxisColumnIgnoresWidth(st: Style, a: Axis, value: Scalar, w1: Scalar, w2: Scalar)
    requires IsColumn(a)
    ensures BoundAxis(st.(minWidth := w1, maxWidth := w2), a, value) == BoundAxis(st, a, value)
  {
  }

  // ---------------------------------------------------------------------------
  // Axes and directions
  // ---------------------------------------------------------------------------

  /** resolveAxis: RTL swaps ROW and ROW_REVERSE; nothing else changes. */
  function ResolveAxis(a: Axis, d: Direction): (r: Axis)
    ensures IsColumn(a) ==> r == a
    ensures d != Rtl ==> r == a
    ensures d == Rtl && IsRow(a) ==> r == Reverse(a)
  {
    if d == Rtl && a == Row then RowReverse
    else if d == Rtl && a == RowReverse then Row
    else a
  }

  /** resolveAxis is an involution for a fixed direction and keeps the dimension. */
  lemma ResolveAxisInvolution(a: Axis, d: Direction)
    ensures ResolveAxis(ResolveAxis(a, d), d) == a
    ensures DimOf(ResolveAxis(a, d)) == DimOf(a)
  {
  }

  /**
   * resolveDirection: INHERIT takes the parent's direction, or LTR at the
   * root (a null parent direction).
   */
  function ResolveDirection(st: Style, parent: Option<Direction>): (r: Direction)
    ensures st.direction != Inherit ==> r == st.direction
    ensures st.direction == Inherit && parent.None? ==> r == Ltr
    ensures st.direction == Inherit && parent.Some? ==> r == parent.value
  {
    if st.direction == Inherit then (if parent.None? then Ltr else parent.value) else st.direction
  }

  /** A resolved direction is never INHERIT as long as the parent's was not. */
  lemma ResolvedDirectionIsConcrete(st: Style, parent: Option<Direction>)
    requires parent != Some(Inherit)
    ensures ResolveDirection(st, parent) != Inherit
  {
  }

  /** getCrossFlexDirection: a column main axis crosses the resolved ROW; a row main axis crosses COLUMN. */
  function CrossAxis(a: Axis, d: Direction): (r: Axis)
    ensures IsColumn(a) ==> r == ResolveAxis(Row, d)
    ensures IsRow(a) ==> r == Column
  {
    if IsColumn(a) then ResolveAxis(Row, d) else Column
  }

  /** The cross axis is perpendicular to the main axis. */
  lemma CrossAxisPerpendicular(a: Axis, d: Direction)
    ensures DimOf(CrossAxis(a, d)) != DimOf(a)
    ensures IsColumn(a) <==> IsRow(CrossAxis(a, d))
  {
  }

  /** getAlignItem: the child's alignSelf unless it is AUTO, else the parent's alignItems. */
  function AlignItem(parent: Style, child: Style): (r: Align)
    ensures child.alignSelf != AlignAuto ==> r == child.alignSelf
    ensures child.alignSelf == AlignAuto ==> r == parent.alignItems
  {
    if child.alignSelf != AlignAuto then child.alignSelf else parent.alignItems
  }

  /** The result is AUTO only if both the child and the parent say AUTO. */
  lemma AlignItemAuto(parent: Style, child: Style)
    ensures AlignItem(parent, child) == AlignAuto <==> child.alignSelf == AlignAuto && parent.alignItems == AlignAuto
  {
  }

  /**
   * getRelativePosition: the leading offset if defined, otherwise the
   * negated trailing offset, otherwise 0. Always defined.
   */
  function RelativePosition(st: Style, a: Axis): (r: Scalar)
    ensures r.Num?
    ensures !IsNaN(Pos(st.position, Leading(a))) ==> r == Pos(st.position, Leading(a))
    ensures (IsNaN(Pos(st.position, Leading(a))) && !IsNaN(Pos(st.position, Trailing(a))))
              ==> r == Neg(Pos(st.position, Trailing(a)))
    ensures IsNaN(Pos(st.position, Leading(a))) && IsNaN(Pos(st.position, Trailing(a))) ==> r == ZERO
  {
    var lead := Pos(st.position, Leading(a));
    if !IsNaN(lead) then lead
    else
      var trailingPos := Pos(st.position, Trailing(a));
      if IsNaN(trailingPos) then ZERO else Neg(trailingPos)
  }

  /** With exactly one offset set, an axis and its reverse see opposite relative positions. */
  lemma RelativePositionReverse(st: Style, a: Axis)
    requires IsNaN(Pos(st.position, Leading(a))) != IsNaN(Pos(st.position, Trailing(a)))
    ensures RelativePosition(st, Reverse(a)) == Neg(RelativePosition(st, a))
  {
  }

  /** A style dimension is used only when defined and non-negative (`>= 0`). */
  predicate DimensionSet(st: Style, a: Axis) {
    !IsNaN(Dim(st.dimensions, DimOf(a))) && Ge(Dim(st.dimensions, DimOf(a)), ZERO)
  }

  /**
   * setDimensionFromStyle: a layout dimension already set by the parent is
   * kept, as is one whose style dimension is undefined or not positive;
   * otherwise the bounded style dimension, never below padding plus border.
   */
  function DimensionFromStyle(layout: Dims, st: Style, a: Axis): (r: Dims)
    requires Styles.Valid(st)
    ensures forall j :: j != DimOf(a) ==> Dim(r, j) == Dim(layout, j)
    ensures !IsNaN(Dim(layout, DimOf(a))) || !Gt(Dim(st.dimensions, DimOf(a)), ZERO) ==> r == layout
    ensures IsNaN(Dim(layout, DimOf(a))) && Gt(Dim(st.dimensions, DimOf(a)), ZERO) ==>
              && Dim(r, DimOf(a)) == MaxOf(BoundAxis(st, a, Dim(st.dimensions, DimOf(a))), PaddingAndBorder(st, a))
              && (PaddingAndBorder(st, a).Num? ==> Dim(r, DimOf(a)).Num? && Dim(r, DimOf(a)).v >= PaddingAndBorder(st, a).v)
  {
    var i := DimOf(a);
    if !IsNaN(Dim(layout, i)) then layout
    else if IsNaN(Dim(st.dimensions, i)) || Le(Dim(st.dimensions, i), ZERO) then layout
    else SetDim(layout, i, MaxOf(BoundAxis(st, a, Dim(st.dimensions, i)), PaddingAndBorder(st, a)))
  }

  /** Applying setDimensionFromStyle twice is applying it once. */
  lemma DimensionFromStyleIdempotent(layout: Dims, st: Style, a: Axis)
    requires Styles.Valid(st)
    ensures DimensionFromStyle(DimensionFromStyle(layout, st, a), st, a) == DimensionFromStyle(layout, st, a)
  {
  }

  // ---------------------------------------------------------------------------
  // The layout cache
  // ---------------------------------------------------------------------------

  /**
   * needsRelayout: the node is dirty, or one of the three cache keys is not
   * floatsEqual to the request now being made.
   */
  predicate NeedsRelayout(n: Node, parentMaxWidth: Scalar) {
    || n.state == Dirty
    || !FloatsEqual(n.lastLayout.requestedHeight, Dim(n.layout.dimensions, DimHeight))
    || !FloatsEqual(n.lastLayout.requestedWidth, Dim(n.layout.dimensions, DimWidth))
    || !FloatsEqual(n.lastLayout.parentMaxWidth, parentMaxWidth)
  }

  /** layoutNodeImpl's effect on the node's own layout, as a parameter. */
  type LayoutImpl = (Node, Scalar, Option<Direction>) -> Layout

  /**
   * layoutNode: on a cache miss, record the three keys, run the layout and
   * copy the result into the cache; on a hit, copy the cache into the
   * layout. Either way the node ends in HAS_NEW_LAYOUT.
   */
  function LayoutNode(n: Node, parentMaxWidth: Scalar, parentDirection: Option<Direction>, impl: LayoutImpl): (r: Node)
    ensures r.state == HasNewLayout
    ensures r.style == n.style && r.children == n.children && r.parent == n.parent && r.measure == n.measure
    ensures NeedsRelayout(n, parentMaxWidth) ==>
              var keyed := n.lastLayout.(requestedWidth := Dim(n.layout.dimensions, DimWidth),
                                         requestedHeight := Dim(n.layout.dimensions, DimHeight),
                                         parentMaxWidth := parentMaxWidth);
              && r.layout == impl(n.(lastLayout := keyed), parentMaxWidth, parentDirection)
              && r.lastLayout == keyed.(layout := r.layout)
    ensures !NeedsRelayout(n, parentMaxWidth) ==> r.layout == n.lastLayout.layout && r.lastLayout == n.lastLayout
  {
    if NeedsRelayout(n, parentMaxWidth) then
      var keyed := n.lastLayout.(requestedWidth := Dim(n.layout.dimensions, DimWidth),
                                 requestedHeight := Dim(n.layout.dimensions, DimHeight),
                                 parentMaxWidth := parentMaxWidth);
      var n1 := n.(lastLayout := keyed);
      var laid := n1.(layout := impl(n1, parentMaxWidth, parentDirection));
      laid.(lastLayout := CachedCopy(laid.lastLayout, laid.layout), state := HasNewLayout)
    else
      n.(layout := Copy(n.layout, n.lastLayout.layout), state := HasNewLayout)
  }

  /**
   * After a layout is seen, making the same request again (the same
   * requested dimensions, undefined ones included, and the same max width)
   * is a cache hit: the stored layout comes back and the layout function
   * is not consulted.
   */
  lemma CachedRequestIsHit(n: Node, parentMaxWidth: Scalar, dir: Option<Direction>, impl: LayoutImpl, impl2: LayoutImpl)
    ensures var first := LayoutNode(n, parentMaxWidth, dir, impl);
            var again := first.(state := UpToDate, layout := first.layout.(dimensions := n.layout.dimensions));
            && !NeedsRelayout(again, parentMaxWidth)
            && LayoutNode(again, parentMaxWidth, dir, impl2).layout == first.layout
  {
    var first := LayoutNode(n, parentMaxWidth, dir, impl);
    FloatsEqualReflexive(parentMaxWidth);
    FloatsEqualReflexive(Dim(n.layout.dimensions, DimWidth));
    FloatsEqualReflexive(Dim(n.layout.dimensions, DimHeight));
    if !NeedsRelayout(n, parentMaxWidth) {
      // The keys were already floatsEqual to the request.
      FloatsEqualSymmetric(n.lastLayout.requestedHeight, Dim(n.layout.dimensions, DimHeight));
      FloatsEqualSymmetric(n.lastLayout.requestedWidth, Dim(n.layout.dimensions, DimWidth));
    }
  }

  /** A dirty node is always laid out again, whatever its cache holds. */
  lemma DirtyIsMiss(n: Node, parentMaxWidth: Scalar, dir: Option<Direction>, impl: LayoutImpl)
    requires n.state == Dirty
    ensures LayoutNode(n, parentMaxWidth, dir, impl).lastLayout.parentMaxWidth == parentMaxWidth
    ensures LayoutNode(n, parentMaxWidth, dir, impl).lastLayout.layout == LayoutNode(n, parentMaxWidth, dir, impl).layout
  {
  }

  /** CSSNode.calculateLayout: reset the root's result, then lay it out with an undefined max width and no parent direction. */
  function CalculateLayout(n: Node, impl: LayoutImpl): (r: Node)
    ensures r.state == HasNewLayout
    ensures n.state == Dirty ==> r.layout == impl(n.(layout := ResetResult(n.layout),
                                                    lastLayout := n.lastLayout.(requestedWidth := UNDEFINED,
                                                      requestedHeight := UNDEFINED, parentMaxWidth := UNDEFINED)),
                                                  UNDEFINED, None)
  {
    LayoutNode(n.(layout := ResetResult(n.layout)), UNDEFINED, None, impl)
  }
}
