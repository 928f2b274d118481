/**
 * The cross axis: Loop D (placing and stretching each child of a line by
 * its align item) and Loop E (distributing several lines by alignContent
 * when the container's cross size is known).
 */
module CrossPass {
  import opened Scalars
  import opened Wrappers
  import opened Layouts
  import opened Styles
  import opened Engine
  import MainPass

  /** What Loop D reads of one child. */
  datatype CrossChild = CrossChild(
    relative: bool,            // positionType == RELATIVE (otherwise ABSOLUTE)
    leadingOffset: Scalar,     // style.position[leading[crossAxis]]
    before: Scalar,            // layout.position[pos[crossAxis]] before Loop D
    size: Scalar,              // layout.dimensions[dim[crossAxis]], NaN if not yet known
    marginLeading: Scalar,
    marginTrailing: Scalar,
    paddingAndBorder: Scalar,  // the child's own padding and border on the cross axis
    min: Scalar,               // the child's cross-axis bounds
    max: Scalar,
    align: Align               // getAlignItem(node, child)
  )

  /** What Loop D reads of the container. */
  datatype CrossFrame = CrossFrame(
    container: Scalar,               // containerCrossAxis
    paddingAndBorder: Scalar,        // paddingAndBorderAxisCross
    leadingPaddingAndBorder: Scalar, // leadingPaddingAndBorderCross
    borderLeading: Scalar,           // the container's leading border on the cross axis
    linesCrossDim: Scalar,           // the cross extent of the lines before this one
    crossDefined: bool,              // isCrossDimDefined
    nodeSize: Scalar                 // the container's cross dimension
  )

  /** The cross-axis position and dimension Loop D leaves, and the trailing position when it writes one. */
  datatype CrossPlaced = CrossPlaced(position: Scalar, size: Scalar, trailing: Option<Scalar>)

  function CrossChildOf(parent: Style, st: Style, l: Layout, cross: Axis): CrossChild
    requires Styles.Valid(st)
  {
    CrossChild(
      st.positionType.Relative?,
      Pos(st.position, Leading(cross)),
      Pos(l.position, PosOf(cross)),
      Dim(l.dimensions, DimOf(cross)),
      LeadingEdge(st.margin, cross),
      TrailingEdge(st.margin, cross),
      PaddingAndBorder(st, cross),
      MinBound(st, cross),
      MaxBound(st, cross),
      AlignItem(parent, st))
  }

  predicate Pinned(c: CrossChild) {
    !c.relative && !IsNaN(c.leadingOffset)
  }

  /** The child's dimension plus both its margins. */
  function Outer(c: CrossChild): Scalar {
    Add(Add(c.size, c.marginLeading), c.marginTrailing)
  }

  function Margins(c: CrossChild): Scalar {
    Add(c.marginLeading, c.marginTrailing)
  }

  /** The room inside the container's padding and border. */
  function Inner(f: CrossFrame): Scalar {
    Sub(f.container, f.paddingAndBorder)
  }

  /**
   * The stretched dimension: the room inside the container less the
   * child's margins, bounded by the child's min and max, and never below the
   * child's own padding and border. Loop A pre-fills with the same formula.
   */
  function Stretched(c: CrossChild, container: Scalar, paddingAndBorder: Scalar): (r: Scalar)
    ensures r.Num? <==> container.Num? && paddingAndBorder.Num? && Margins(c).Num? && c.paddingAndBorder.Num?
    ensures r.Num? ==> r.v >= c.paddingAndBorder.v
    ensures (r.Num? && (Applies(c.min) ==> container.v - paddingAndBorder.v - Margins(c).v >= c.min.v)
               && (Applies(c.max) ==> container.v - paddingAndBorder.v - Margins(c).v <= c.max.v)
               && container.v - paddingAndBorder.v - Margins(c).v >= c.paddingAndBorder.v)
              ==> r.v + Margins(c).v == container.v - paddingAndBorder.v
  {
    MaxOf(Clamp(c.min, c.max, Sub(Sub(container, paddingAndBorder), Margins(c))), c.paddingAndBorder)
  }

  /** The free room on the cross axis beside a child that is not stretched. */
  function Remaining(c: CrossChild, f: CrossFrame): Scalar {
    Sub(Inner(f), Outer(c))
  }

  /** `leadingCrossDim` and the child's dimension after the align-item step. */
  datatype Aligned = Aligned(lead: Scalar, size: Scalar)

  function AlignStep(c: CrossChild, f: CrossFrame): Aligned {
    var lead := f.leadingPaddingAndBorder;
    if !c.relative || c.align.AlignFlexStart? then Aligned(lead, c.size)
    else if c.align.AlignStretch? then
      Aligned(lead, if IsNaN(c.size) then Stretched(c, f.container, f.paddingAndBorder) else c.size)
    else if c.align.AlignCenter? then Aligned(Add(lead, Div(Remaining(c, f), Num(2.0))), c.size)
    else Aligned(Add(lead, Remaining(c, f)), c.size)    // FLEX_END, and AUTO when the parent says AUTO too
  }

  /**
   * Loop D on one child. A pinned child goes to its offset inside the
   * container's border and its own margin. Every other child is shifted
   * past the earlier lines and the container's leading padding and border,
   * plus the share of free room its align item gives it; only a relative
   * STRETCH child whose dimension is still unknown gets a new dimension.
   */
  function PlaceCross(c: CrossChild, f: CrossFrame): (p: CrossPlaced)
    ensures Pinned(c) ==> p == CrossPlaced(Add(Add(c.leadingOffset, f.borderLeading), c.marginLeading), c.size, None)
    ensures p.size != c.size ==> c.relative && c.align.AlignStretch? && IsNaN(c.size)
    ensures p.trailing.Some? <==> !Pinned(c) && f.crossDefined
    ensures (p.trailing.Some? && p.position.Num? && p.size.Num? && f.nodeSize.Num?)
              ==> p.trailing.value.Num? && p.position.v + p.size.v + p.trailing.value.v == f.nodeSize.v
  {
    if Pinned(c) then
      CrossPlaced(Add(Add(c.leadingOffset, f.borderLeading), c.marginLeading), c.size, None)
    else
      var a := AlignStep(c, f);
      var position := Add(c.before, Add(f.linesCrossDim, a.lead));
      CrossPlaced(position, a.size,
                  if f.crossDefined then Some(MainPass.TrailingOffset(f.nodeSize, a.size, position)) else None)
  }

  /** How far Loop D moved a child that is not pinned beyond the line's leading edge. */
  function Shift(c: CrossChild, f: CrossFrame, p: CrossPlaced): real
    requires p.position.Num? && c.before.Num? && f.linesCrossDim.Num? && f.leadingPaddingAndBorder.Num?
  {
    p.position.v - c.before.v - f.linesCrossDim.v - f.leadingPaddingAndBorder.v
  }

  predicate Defined(c: CrossChild, f: CrossFrame) {
    c.before.Num? && c.size.Num? && c.marginLeading.Num? && c.marginTrailing.Num?
    && f.container.Num? && f.paddingAndBorder.Num? && f.leadingPaddingAndBorder.Num? && f.linesCrossDim.Num?
  }

  // ---------------------------------------------------------------------------
  // Properties of Loop D
  // ---------------------------------------------------------------------------

  /** FLEX_START, an absolutely positioned child without an offset, and a STRETCH child sit at the leading edge. */
  lemma AtLeadingEdge(c: CrossChild, f: CrossFrame)
    requires Defined(c, f) && !Pinned(c)
    requires !c.relative || c.align.AlignFlexStart? || c.align.AlignStretch?
    ensures PlaceCross(c, f).position.Num?
    ensures Shift(c, f, PlaceCross(c, f)) == 0.0
  {
  }

  /** CENTER leaves equal room before and after the child inside the container's padding and border. */
  lemma CenterIsBalanced(c: CrossChild, f: CrossFrame)
    requires Defined(c, f) && c.relative && c.align.AlignCenter?
    ensures var p := PlaceCross(c, f);
            p.position.Num? && p.size == c.size &&
            Shift(c, f, p) == Inner(f).v - Outer(c).v - Shift(c, f, p)
  {
  }

  /** FLEX_END (and AUTO, which the engine treats alike) puts the child's trailing margin flush with the inner edge. */
  lemma EndIsFlush(c: CrossChild, f: CrossFrame)
    requires Defined(c, f) && c.relative && (c.align.AlignFlexEnd? || c.align.AlignAuto?)
    ensures var p := PlaceCross(c, f);
            p.position.Num? && p.size == c.size &&
            Shift(c, f, p) + Outer(c).v == Inner(f).v
  {
  }

  /**
   * A STRETCH child whose dimension is unknown fills the room inside the
   * container with its margins, unless its bounds or its own padding and
   * border say otherwise; it never ends below its padding and border.
   */
  lemma StretchFills(c: CrossChild, f: CrossFrame)
    requires c.relative && c.align.AlignStretch? && IsNaN(c.size)
    requires f.container.Num? && f.paddingAndBorder.Num? && Margins(c).Num? && c.paddingAndBorder.Num?
    ensures var s := PlaceCross(c, f).size;
            s.Num? && s.v >= c.paddingAndBorder.v
    ensures var room := f.container.v - f.paddingAndBorder.v - Margins(c).v;
            ((Applies(c.min) ==> room >= c.min.v) && (Applies(c.max) ==> room <= c.max.v) && room >= c.paddingAndBorder.v)
              ==> PlaceCross(c, f).size == Num(room)
  {
  }

  /** Stretching never overrides a dimension that is already known. */
  lemma StretchKeepsKnownSize(c: CrossChild, f: CrossFrame)
    requires !IsNaN(c.size)
    ensures PlaceCross(c, f).size == c.size
  {
  }

  // ---------------------------------------------------------------------------
  // Loop E
  // ---------------------------------------------------------------------------

  /** What Loop E reads of one child. */
  datatype LineChild = LineChild(
    relative: bool,
    lineIndex: int,
    size: Scalar,           // layout.dimensions[dim[crossAxis]]
    marginLeading: Scalar,
    marginTrailing: Scalar,
    align: Align,           // getAlignItem(node, child)
    position: Scalar        // layout.position[pos[crossAxis]] before Loop E
  )

  /** The contribution of a relative child to its line's height, when its dimension is known. */
  function Extent(c: LineChild): Scalar {
    Add(c.size, Add(c.marginLeading, c.marginTrailing))
  }

  /** The scan for one line: where it ends and its height (before crossDimLead). */
  datatype Scan = Scan(end: nat, height: Scalar)

  /**
   * The first inner loop of Loop E from index `ii`: absolutely positioned
   * children are skipped, the scan stops at the first relative child of
   * another line, and the height is the running maxOf of the known extents.
   */
  function ScanLine(cs: seq<LineChild>, line: int, ii: nat, height: Scalar): (r: Scan)
    requires ii <= |cs|
    ensures ii <= r.end <= |cs|
    ensures forall k :: ii <= k < r.end && cs[k].relative ==> cs[k].lineIndex == line
    ensures r.end == |cs| || (cs[r.end].relative && cs[r.end].lineIndex != line)
    decreases |cs| - ii
  {
    if ii == |cs| then Scan(ii, height)
    else if !cs[ii].relative then ScanLine(cs, line, ii + 1, height)
    else if cs[ii].lineIndex != line then Scan(ii, height)
    else ScanLine(cs, line, ii + 1, if IsNaN(cs[ii].size) then height else MaxOf(height, Extent(cs[ii])))
  }

  /** The relative children in [from, to) whose dimension is known all have defined extents. */
  predicate Measurable(cs: seq<LineChild>, from: nat, to: nat)
    requires from <= to <= |cs|
  {
    forall k :: from <= k < to && cs[k].relative && !IsNaN(cs[k].size) ==> Extent(cs[k]).Num?
  }

  /** The line height covers every measured child of the line, and is one of them or the starting value. */
  lemma {:induction false} ScanLineIsMax(cs: seq<LineChild>, line: int, ii: nat, height: Scalar)
    requires ii <= |cs| && height.Num?
    requires Measurable(cs, ii, ScanLine(cs, line, ii, height).end)
    ensures var r := ScanLine(cs, line, ii, height);
            r.height.Num? && r.height.v >= height.v
    ensures var r := ScanLine(cs, line, ii, height);
            forall k :: ii <= k < r.end && cs[k].relative && !IsNaN(cs[k].size) ==> r.height.v >= Extent(cs[k]).v
    ensures var r := ScanLine(cs, line, ii, height);
            r.height == height || exists k :: ii <= k < r.end && cs[k].relative && r.height == Extent(cs[k])
    decreases |cs| - ii
  {
    if ii < |cs| && (!cs[ii].relative || cs[ii].lineIndex == line) {
      var next := if !cs[ii].relative || IsNaN(cs[ii].size) then height else MaxOf(height, Extent(cs[ii]));
      ScanLineIsMax(cs, line, ii + 1, next);
    }
  }

  /** The leading offset and the per-line extra height that alignContent gives. */
  datatype ContentLead = ContentLead(lead: Scalar, perLine: Scalar)

  /**
   * alignContent over `count` (> 1) lines in a container whose inner cross
   * size is `inner`: FLEX_END moves every line by the free room, CENTER by
   * half of it, and STRETCH grows each line by an equal share, but only
   * when the lines leave room over.
   */
  function AlignContent(align: Align, inner: Scalar, linesCrossDim: Scalar, count: nat): (r: ContentLead)
    requires count > 1
    ensures r.perLine != ZERO ==> align.AlignStretch? && Gt(inner, linesCrossDim)
    ensures r.lead != ZERO ==> align.AlignFlexEnd? || align.AlignCenter?
    ensures (align.AlignStretch? && Gt(inner, linesCrossDim))
              ==> r.perLine.Num? && r.perLine.v > 0.0 && r.perLine.v * count as real == inner.v - linesCrossDim.v
    ensures (align.AlignCenter? && inner.Num? && linesCrossDim.Num?)
              ==> r.lead.Num? && 2.0 * r.lead.v == inner.v - linesCrossDim.v
    ensures (align.AlignFlexEnd? && inner.Num? && linesCrossDim.Num?)
              ==> r.lead.Num? && r.lead.v + linesCrossDim.v == inner.v
  {
    var remaining := Sub(inner, linesCrossDim);
    if align.AlignFlexEnd? then ContentLead(remaining, ZERO)
    else if align.AlignCenter? then ContentLead(Div(remaining, Num(2.0)), ZERO)
    else if align.AlignStretch? && Gt(inner, linesCrossDim) then ContentLead(ZERO, Div(remaining, Num(count as real)))
    else ContentLead(ZERO, ZERO)
  }

  /** One line of Loop E: the children in [start, end) and the band [lead, lead + height). */
  datatype Band = Band(start: nat, end: nat, lead: Scalar, height: Scalar)

  /**
   * The outer loop of Loop E from line `i` of `count`: each line is scanned
   * from where the previous one ended, grown by `perLine`, and starts where
   * the previous band ends.
   */
  function Bands(cs: seq<LineChild>, count: nat, i: nat, start: nat, lead: Scalar, perLine: Scalar): (r: seq<Band>)
    requires i <= count && start <= |cs|
    ensures |r| == count - i
    ensures forall b :: 0 <= b < |r| ==> r[b].start <= r[b].end <= |cs|
    ensures |r| > 0 ==> r[0].start == start && r[0].lead == lead
    ensures forall b :: 0 <= b < |r| - 1 ==> r[b + 1].start == r[b].end && r[b + 1].lead == Add(r[b].lead, r[b].height)
    decreases count - i
  {
    if i == count then []
    else
      var s := ScanLine(cs, i, start, ZERO);
      var band := Band(start, s.end, lead, Add(s.height, perLine));
      [band] + Bands(cs, count, i + 1, s.end, Add(lead, band.height), perLine)
  }

  /** Where the second inner loop of Loop E puts a child of a band; AUTO and absolute children stay put. */
  function PlaceInBand(c: LineChild, band: Band): (r: Scalar)
    ensures (!c.relative || c.align.AlignAuto?) ==> r == c.position
  {
    if !c.relative then c.position
    else match c.align
      case AlignFlexStart => Add(band.lead, c.marginLeading)
      case AlignStretch => Add(band.lead, c.marginLeading)
      case AlignFlexEnd => Sub(Sub(Add(band.lead, band.height), c.marginTrailing), c.size)
      case AlignCenter => Add(band.lead, Div(Sub(band.height, c.size), Num(2.0)))
      case AlignAuto => c.position
  }

  /**
   * A child's margin box lies inside its band whenever the band is at least
   * as tall as the child's extent: FLEX_START and STRETCH at the top,
   * FLEX_END at the bottom, CENTER with the child's box in the middle.
   */
  lemma PlacedInsideBand(c: LineChild, band: Band)
    requires c.relative && !c.align.AlignAuto?
    requires band.lead.Num? && band.height.Num? && c.size.Num? && c.marginLeading.Num? && c.marginTrailing.Num?
    requires c.marginLeading.v >= 0.0 && c.marginTrailing.v >= 0.0
    requires band.height.v >= Extent(c).v
    ensures var p := PlaceInBand(c, band);
            p.Num? && band.lead.v <= p.v && p.v + c.size.v <= band.lead.v + band.height.v
    ensures c.align.AlignCenter? ==>
              PlaceInBand(c, band).v - band.lead.v == band.lead.v + band.height.v - (PlaceInBand(c, band).v + c.size.v)
    ensures c.align.AlignFlexEnd? ==>
              PlaceInBand(c, band).v + c.size.v + c.marginTrailing.v == band.lead.v + band.height.v
  {
  }

  /** The sum of the scanned heights of a run of bands, without the per-line share. */
  function SumHeights(bands: seq<Band>): Scalar {
    if |bands| == 0 then ZERO else Add(bands[0].height, SumHeights(bands[1..]))
  }

  /** The lead after the last band: where Loop E's `currentLead` ends. */
  function EndLead(bands: seq<Band>, lead: Scalar): Scalar {
    if |bands| == 0 then lead else EndLead(bands[1..], Add(bands[0].lead, bands[0].height))
  }

  /** The bands tile the cross axis: the last one ends at the first one's lead plus all the heights. */
  lemma BandsTile(cs: seq<LineChild>, count: nat, i: nat, start: nat, lead: Scalar, perLine: Scalar)
    requires i <= count && start <= |cs| && lead.Num?
    requires SumHeights(Bands(cs, count, i, start, lead, perLine)).Num?
    ensures EndLead(Bands(cs, count, i, start, lead, perLine), lead)
              == Add(lead, SumHeights(Bands(cs, count, i, start, lead, perLine)))
  {
    ChainTiles(Bands(cs, count, i, start, lead, perLine), lead);
  }

  /** Bands that each start at the previous one's lead plus height tile from the first lead. */
  lemma {:induction false} ChainTiles(r: seq<Band>, lead: Scalar)
    requires lead.Num? && SumHeights(r).Num?
    requires |r| > 0 ==> r[0].lead == lead
    requires forall b :: 0 <= b < |r| - 1 ==> r[b + 1].lead == Add(r[b].lead, r[b].height)
    ensures EndLead(r, lead) == Add(lead, SumHeights(r))
  {
    if |r| > 0 {
      var rest := r[1..];
      assert SumHeights(r) == Add(r[0].height, SumHeights(rest));
      assert forall b :: 0 <= b < |rest| - 1 ==> rest[b + 1].lead == Add(rest[b].lead, rest[b].height) by {
        forall b | 0 <= b < |rest| - 1 ensures rest[b + 1].lead == Add(rest[b].lead, rest[b].height) {
          assert rest[b + 1] == r[b + 2] && rest[b] == r[b + 1];
        }
      }
      assert |rest| > 0 ==> rest[0].lead == Add(lead, r[0].height);
      ChainTiles(rest, Add(lead, r[0].height));
      TileStep(r, lead);
    }
  }

  /** One band more: if the bands after the first tile from its end, all of them tile from its lead. */
  lemma TileStep(r: seq<Band>, lead: Scalar)
    requires |r| > 0 && r[0].lead == lead && lead.Num? && r[0].height.Num? && SumHeights(r[1..]).Num?
    requires EndLead(r[1..], Add(lead, r[0].height)) == Add(Add(lead, r[0].height), SumHeights(r[1..]))
    ensures EndLead(r, lead) == Add(lead, SumHeights(r))
  {
  }

  /**
   * Under STRETCH with room over, the per-line shares add up to the free
   * room: `count` bands grown by `perLine` are exactly the lines' height
   * plus the room the container has left over.
   */
  lemma StretchSharesFillRoom(inner: Scalar, linesCrossDim: Scalar, count: nat)
    requires count > 1 && Gt(inner, linesCrossDim)
    ensures var r := AlignContent(AlignStretch, inner, linesCrossDim, count);
            r.lead == ZERO && linesCrossDim.v + r.perLine.v * count as real == inner.v
  {
  }
}
