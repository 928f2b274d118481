/**
 * Loop C of layoutNodeImpl (placing one line's children along the main axis
 * and accumulating the line's main and cross extents), the container's
 * automatic size at the end of the layout, and Loop F (trailing positions
 * on reversed axes).
 *
 * A child is given by the handful of values the loop reads of it, so the
 * arithmetic can be studied apart from the style plumbing; MainChildOf
 * shows where each value comes from.
 */
module MainPass {
  import opened Scalars
  import opened Wrappers
  import opened Layouts
  import opened Styles
  import opened Engine

  /** What Loop C reads of one child. */
  datatype MainChild = MainChild(
    relative: bool,          // positionType == RELATIVE (otherwise ABSOLUTE)
    leadingOffset: Scalar,   // style.position[leading[mainAxis]]
    before: Scalar,          // layout.position[pos[mainAxis]] as the child's own layout left it
    size: Scalar,            // layout.dimensions[dim[mainAxis]]
    marginLeading: Scalar,
    marginTrailing: Scalar,
    crossExtent: Scalar      // boundAxis(child, crossAxis, cross dimension + cross margins)
  )

  /** What Loop C reads of the container. */
  datatype MainFrame = MainFrame(
    between: Scalar,         // betweenMainDim from Loop B
    borderLeading: Scalar,   // the container's leading border on the main axis
    mainDefined: bool,       // isMainDimDefined
    nodeSize: Scalar         // the container's main dimension
  )

  /** The main-axis position Loop C writes, and the trailing position when it writes one. */
  datatype Placed = Placed(position: Scalar, trailing: Option<Scalar>)

  /** The child of a Style and a Layout, on a given main and cross axis. */
  function MainChildOf(st: Style, l: Layout, main: Axis, cross: Axis): MainChild
    requires Styles.Valid(st)
  {
    var crossSize := Add(Add(Dim(l.dimensions, DimOf(cross)), LeadingEdge(st.margin, cross)), TrailingEdge(st.margin, cross));
    MainChild(
      st.positionType.Relative?,
      Pos(st.position, Leading(main)),
      Pos(l.position, PosOf(main)),
      Dim(l.dimensions, DimOf(main)),
      LeadingEdge(st.margin, main),
      TrailingEdge(st.margin, main),
      BoundAxis(st, cross, crossSize))
  }

  /** An absolutely positioned child with a leading offset ignores the flow. */
  predicate Pinned(c: MainChild) {
    !c.relative && !IsNaN(c.leadingOffset)
  }

  /** What a relative child adds to `mainDim`: the gap before it, its size and its margins. */
  function Advance(c: MainChild, between: Scalar): Scalar {
    Add(between, Add(Add(c.size, c.marginLeading), c.marginTrailing))
  }

  /** `mainDim` after Loop C has visited `cs`, starting from `start`. */
  function MainDim(cs: seq<MainChild>, between: Scalar, start: Scalar): Scalar {
    if |cs| == 0 then start
    else
      var before := MainDim(cs[..|cs| - 1], between, start);
      if cs[|cs| - 1].relative then Add(before, Advance(cs[|cs| - 1], between)) else before
  }

  /** `crossDim` after Loop C has visited `cs`: a running maxOf from 0. */
  function CrossDim(cs: seq<MainChild>): Scalar {
    if |cs| == 0 then ZERO
    else
      var before := CrossDim(cs[..|cs| - 1]);
      if cs[|cs| - 1].relative then MaxOf(before, cs[|cs| - 1].crossExtent) else before
  }

  /**
   * One child's placement once `mainDim` has reached `mainDim`. A pinned
   * child goes to its offset inside the border and margin and keeps its
   * trailing position; every other child is shifted by `mainDim`, and its
   * trailing position completes the container's size when that is defined.
   */
  function PlaceMain(c: MainChild, f: MainFrame, mainDim: Scalar): (p: Placed)
    ensures Pinned(c) ==> p.position == Add(Add(c.leadingOffset, f.borderLeading), c.marginLeading)
    ensures !Pinned(c) ==> p.position == Add(c.before, mainDim)
    ensures p.trailing.Some? <==> !Pinned(c) && f.mainDefined
    ensures (p.trailing.Some? && p.position.Num? && c.size.Num? && f.nodeSize.Num?)
              ==> p.trailing.value.Num? && p.position.v + c.size.v + p.trailing.value.v == f.nodeSize.v
  {
    if Pinned(c) then
      Placed(Add(Add(c.leadingOffset, f.borderLeading), c.marginLeading), None)
    else
      var position := Add(c.before, mainDim);
      Placed(position, if f.mainDefined then Some(TrailingOffset(f.nodeSize, c.size, position)) else None)
  }

  /**
   * Loop C over one line: the children are placed in order while `mainDim`
   * and `crossDim` accumulate. The result agrees with MainDim, CrossDim and
   * PlaceMain child by child.
   */
  method PositionLine(cs: seq<MainChild>, f: MainFrame, start: Scalar)
    returns (placed: seq<Placed>, mainDim: Scalar, crossDim: Scalar)
    ensures |placed| == |cs|
    ensures forall k :: 0 <= k < |cs| ==> placed[k] == PlaceMain(cs[k], f, MainDim(cs[..k], f.between, start))
    ensures mainDim == MainDim(cs, f.between, start)
    ensures crossDim == CrossDim(cs)
  {
    placed := [];
    mainDim := start;
    crossDim := ZERO;
    var i := 0;
    while i < |cs|
      invariant 0 <= i <= |cs|
      invariant |placed| == i
      invariant forall k :: 0 <= k < i ==> placed[k] == PlaceMain(cs[k], f, MainDim(cs[..k], f.between, start))
      invariant mainDim == MainDim(cs[..i], f.between, start)
      invariant crossDim == CrossDim(cs[..i])
    {
      StepDims(cs, i, f.between, start);
      PlacedGrows(cs, f, start, placed, i);
      placed := placed + [PlaceMain(cs[i], f, mainDim)];
      if cs[i].relative {
        mainDim := Add(mainDim, Advance(cs[i], f.between));
        crossDim := MaxOf(crossDim, cs[i].crossExtent);
      }
      i := i + 1;
    }
    assert cs[..|cs|] == cs;
  }

  /** Appending child `i`'s placement keeps every earlier placement and adds the right one. */
  lemma PlacedGrows(cs: seq<MainChild>, f: MainFrame, start: Scalar, placed: seq<Placed>, i: nat)
    requires i < |cs| && |placed| == i
    requires forall k :: 0 <= k < i ==> placed[k] == PlaceMain(cs[k], f, MainDim(cs[..k], f.between, start))
    ensures var next := placed + [PlaceMain(cs[i], f, MainDim(cs[..i], f.between, start))];
            forall k :: 0 <= k < i + 1 ==> next[k] == PlaceMain(cs[k], f, MainDim(cs[..k], f.between, start))
  {
  }

  /** Visiting child `i` extends both running extents by that child alone. */
  lemma StepDims(cs: seq<MainChild>, i: nat, between: Scalar, start: Scalar)
    requires i < |cs|
    ensures MainDim(cs[..i + 1], between, start)
              == if cs[i].relative then Add(MainDim(cs[..i], between, start), Advance(cs[i], between))
                 else MainDim(cs[..i], between, start)
    ensures CrossDim(cs[..i + 1])
              == if cs[i].relative then MaxOf(CrossDim(cs[..i]), cs[i].crossExtent) else CrossDim(cs[..i])
  {
    assert cs[..i + 1][..i] == cs[..i];
  }

  // ---------------------------------------------------------------------------
  // Properties of Loop C
  // ---------------------------------------------------------------------------

  /** The relative children of a line, in order. */
  function InFlow(cs: seq<MainChild>): (r: seq<MainChild>)
    ensures |r| <= |cs|
    ensures forall k :: 0 <= k < |r| ==> r[k].relative && r[k] in cs
    ensures forall c :: c in cs && c.relative ==> c in r
  {
    if |cs| == 0 then []
    else InFlow(cs[..|cs| - 1]) + (if cs[|cs| - 1].relative then [cs[|cs| - 1]] else [])
  }

  /** Absolutely positioned children take no room: the line's extents are those of its relative children alone. */
  lemma {:induction false} OutOfFlowTakesNoRoom(cs: seq<MainChild>, between: Scalar, start: Scalar)
    ensures MainDim(cs, between, start) == MainDim(InFlow(cs), between, start)
    ensures CrossDim(cs) == CrossDim(InFlow(cs))
  {
    if |cs| > 0 {
      var init, last := cs[..|cs| - 1], cs[|cs| - 1];
      OutOfFlowTakesNoRoom(init, between, start);
      if last.relative {
        var r := InFlow(init) + [last];
        assert InFlow(cs) == r;
        assert r[..|r| - 1] == InFlow(init);
      } else {
        assert InFlow(cs) == InFlow(init);
      }
    }
  }

  /** Every relative child's advance is defined and non-negative. */
  predicate Forward(cs: seq<MainChild>, between: Scalar) {
    forall k :: 0 <= k < |cs| && cs[k].relative ==> Advance(cs[k], between).Num? && Advance(cs[k], between).v >= 0.0
  }

  /** With forward advances, `mainDim` only grows along the line. */
  lemma {:induction false} MainDimGrows(cs: seq<MainChild>, between: Scalar, start: Scalar, j: nat, k: nat)
    requires j <= k <= |cs|
    requires Forward(cs, between)
    requires MainDim(cs[..j], between, start).Num?
    ensures MainDim(cs[..k], between, start).Num?
    ensures MainDim(cs[..k], between, start).v >= MainDim(cs[..j], between, start).v
  {
    if k > j {
      MainDimGrows(cs, between, start, j, k - 1);
      assert cs[..k][..k - 1] == cs[..k - 1];
    }
  }

  /**
   * Relative children never overlap: with forward advances, a later relative
   * child is shifted at least as far as an earlier one plus that child's
   * gap, size and margins.
   */
  lemma {:induction false} RelativeChildrenDoNotOverlap(cs: seq<MainChild>, f: MainFrame, start: Scalar, j: nat, k: nat)
    requires j < k < |cs|
    requires cs[j].relative && cs[k].relative
    requires Forward(cs, f.between)
    requires start.Num? && cs[j].before.Num? && cs[k].before.Num?
    ensures var pj := PlaceMain(cs[j], f, MainDim(cs[..j], f.between, start)).position;
            var pk := PlaceMain(cs[k], f, MainDim(cs[..k], f.between, start)).position;
            pj.Num? && pk.Num? &&
            pk.v - cs[k].before.v >= pj.v - cs[j].before.v + Advance(cs[j], f.between).v
  {
    MainDimGrows(cs, f.between, start, 0, j);
    assert cs[..0] == [];
    assert cs[..j + 1][..j] == cs[..j];
    MainDimGrows(cs, f.between, start, j + 1, k);
  }

  /** A line's cross extent is the largest bounded cross extent among its relative children, and at least 0. */
  lemma {:induction false} CrossDimIsMax(cs: seq<MainChild>)
    requires forall k :: 0 <= k < |cs| && cs[k].relative ==> cs[k].crossExtent.Num?
    ensures CrossDim(cs).Num? && CrossDim(cs).v >= 0.0
    ensures forall k :: 0 <= k < |cs| && cs[k].relative ==> CrossDim(cs).v >= cs[k].crossExtent.v
    ensures CrossDim(cs) == ZERO || exists k :: 0 <= k < |cs| && cs[k].relative && CrossDim(cs) == cs[k].crossExtent
  {
    if |cs| > 0 {
      var init := cs[..|cs| - 1];
      CrossDimIsMax(init);
      assert forall k :: 0 <= k < |init| ==> init[k] == cs[k];
    }
  }

  // ---------------------------------------------------------------------------
  // The container's automatic size, and Loop F
  // ---------------------------------------------------------------------------

  /**
   * `maxOf(boundAxis(node, axis, content), paddingAndBorder)`: the size the
   * container takes on an axis it was not given, used for
   * containerCrossAxis and for both axes at the end of the layout. It
   * never goes below the padding and border, and it is the content itself
   * when the content is within the bounds and covers the padding and border.
   */
  function AutoSize(min: Scalar, max: Scalar, content: Scalar, paddingAndBorder: Scalar): (r: Scalar)
    ensures r.Num? <==> content.Num? && paddingAndBorder.Num?
    ensures r.Num? ==> r.v >= paddingAndBorder.v
    ensures r.Num? && Applies(min) ==> r.v >= min.v
    ensures r.Num? && Applies(max) && !(Applies(min) && min.v > max.v) && max.v >= paddingAndBorder.v ==> r.v <= max.v
    ensures (content.Num? && paddingAndBorder.Num? && content.v >= paddingAndBorder.v
               && (Applies(min) ==> content.v >= min.v) && (Applies(max) ==> content.v <= max.v)) ==> r == content
  {
    MaxOf(Clamp(min, max, content), paddingAndBorder)
  }

  /**
   * AutoSize with a node's own bounds on an axis is the expression the
   * engine writes: for containerCrossAxis the content is the line's crossDim
   * plus the container's padding and border; at the end of the layout it is
   * the widest line plus the trailing padding and border on the main axis,
   * and the lines' total plus both paddings and borders on the cross axis.
   */
  lemma AutoSizeIsBoundAxis(st: Style, a: Axis, content: Scalar, paddingAndBorder: Scalar)
    ensures AutoSize(MinBound(st, a), MaxBound(st, a), content, paddingAndBorder)
              == MaxOf(BoundAxis(st, a, content), paddingAndBorder)
  {
  }

  /** Loop F runs for an axis only when it is reversed and the container's size on it was computed. */
  predicate NeedsTrailing(a: Axis, defined: bool) {
    !defined && (a == RowReverse || a == ColumnReverse)
  }

  /**
   * `node dimension - child dimension - child position`: the distance from
   * the child's far edge to the container's far edge, so that position,
   * size and trailing position add up to the container's size.
   */
  function TrailingOffset(nodeSize: Scalar, childSize: Scalar, position: Scalar): (r: Scalar)
    ensures r.Num? <==> nodeSize.Num? && childSize.Num? && position.Num?
    ensures r.Num? ==> position.v + childSize.v + r.v == nodeSize.v
  {
    Sub(Sub(nodeSize, childSize), position)
  }

  /** A child that sits further along keeps less room behind it: the trailing offset mirrors the position. */
  lemma TrailingMirrors(nodeSize: Scalar, childSize: Scalar, p: Scalar, q: Scalar)
    requires nodeSize.Num? && childSize.Num? && p.Num? && q.Num?
    ensures TrailingOffset(nodeSize, childSize, p).v - TrailingOffset(nodeSize, childSize, q).v == q.v - p.v
  {
  }

  /** Loop F on one axis of one child: the trailing slot is rewritten only when the axis needs it. */
  function TrailingPass(l: Layout, nodeSize: Scalar, a: Axis, defined: bool): (r: Layout)
    ensures r.dimensions == l.dimensions && r.direction == l.direction
    ensures forall p :: p != Trailing(a) ==> Pos(r.position, p) == Pos(l.position, p)
    ensures !NeedsTrailing(a, defined) ==> r == l
    ensures (NeedsTrailing(a, defined) && nodeSize.Num? && Dim(l.dimensions, DimOf(a)).Num? && Pos(l.position, PosOf(a)).Num?)
              ==> var t := Pos(r.position, Trailing(a));
                  t.Num? && Pos(l.position, PosOf(a)).v + Dim(l.dimensions, DimOf(a)).v + t.v == nodeSize.v
  {
    if NeedsTrailing(a, defined) then
      l.(position := SetPos(l.position, Trailing(a),
                            TrailingOffset(nodeSize, Dim(l.dimensions, DimOf(a)), Pos(l.position, PosOf(a)))))
    else l
  }
}
