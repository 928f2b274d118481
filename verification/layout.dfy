/**
 * CSSLayout and CachedCSSLayout: the result record the engine writes, and
 * the cached copy together with the three inputs that produced it.
 */
module Layouts {
  import opened Scalars

  /** CSSDirection. */
  datatype Direction = Inherit | Ltr | Rtl

  /** The position-array indices POSITION_LEFT .. POSITION_BOTTOM. */
  datatype PosIndex = PosLeft | PosTop | PosRight | PosBottom

  /** The dimension-array indices DIMENSION_WIDTH, DIMENSION_HEIGHT. */
  datatype DimIndex = DimWidth | DimHeight

  function PosOrdinal(p: PosIndex): nat {
    match p
    case PosLeft => 0
    case PosTop => 1
    case PosRight => 2
    case PosBottom => 3
  }

  function DimOrdinal(d: DimIndex): nat {
    match d
    case DimWidth => 0
    case DimHeight => 1
  }

  /** A four-slot float array indexed by PosIndex. */
  datatype Box4 = Box4(left: Scalar, top: Scalar, right: Scalar, bottom: Scalar)

  /** A two-slot float array indexed by DimIndex. */
  datatype Dims = Dims(width: Scalar, height: Scalar)

  function Fill4(x: Scalar): (b: Box4)
    ensures forall p :: Pos(b, p) == x
  {
    Box4(x, x, x, x)
  }

  function Fill2(x: Scalar): (d: Dims)
    ensures forall i :: Dim(d, i) == x
  {
    Dims(x, x)
  }

  function Pos(b: Box4, p: PosIndex): Scalar {
    match p
    case PosLeft => b.left
    case PosTop => b.top
    case PosRight => b.right
    case PosBottom => b.bottom
  }

  /** `position[p] = x`: one slot replaced, the others kept. */
  function SetPos(b: Box4, p: PosIndex, x: Scalar): (r: Box4)
    ensures Pos(r, p) == x
    ensures forall q :: q != p ==> Pos(r, q) == Pos(b, q)
  {
    match p
    case PosLeft => b.(left := x)
    case PosTop => b.(top := x)
    case PosRight => b.(right := x)
    case PosBottom => b.(bottom := x)
  }

  function Dim(d: Dims, i: DimIndex): Scalar {
    match i
    case DimWidth => d.width
    case DimHeight => d.height
  }

  /** `dimensions[i] = x`: one slot replaced, the other kept. */
  function SetDim(d: Dims, i: DimIndex, x: Scalar): (r: Dims)
    ensures Dim(r, i) == x
    ensures forall j :: j != i ==> Dim(r, j) == Dim(d, j)
  {
    match i
    case DimWidth => d.(width := x)
    case DimHeight => d.(height := x)
  }

  /** CSSLayout. */
  datatype Layout = Layout(position: Box4, dimensions: Dims, direction: Direction)

  /** A freshly constructed CSSLayout: zero-filled arrays (FloatArray default) and LTR. */
  function NewLayout(): (l: Layout)
    ensures forall p :: Pos(l.position, p) == ZERO
    ensures forall i :: Dim(l.dimensions, i) == ZERO
    ensures l.direction == Ltr
  {
    Layout(Fill4(ZERO), Fill2(ZERO), Ltr)
  }

  /** CSSLayout.resetResult: positions zero, dimensions undefined, direction LTR. */
  function ResetResult(l: Layout): (r: Layout)
    ensures forall p :: Pos(r.position, p) == ZERO
    ensures forall i :: Dim(r.dimensions, i) == UNDEFINED
    ensures r.direction == Ltr
  {
    Layout(Fill4(ZERO), Fill2(UNDEFINED), Ltr)
  }

  /** CSSLayout.copy: the six array slots and the direction, one by one. */
  function Copy(l: Layout, src: Layout): (r: Layout)
    ensures r == src
  {
    var position := SetPos(SetPos(SetPos(SetPos(l.position,
      PosLeft, Pos(src.position, PosLeft)),
      PosTop, Pos(src.position, PosTop)),
      PosRight, Pos(src.position, PosRight)),
      PosBottom, Pos(src.position, PosBottom));
    var dimensions := SetDim(SetDim(l.dimensions,
      DimWidth, Dim(src.dimensions, DimWidth)),
      DimHeight, Dim(src.dimensions, DimHeight));
    Layout(position, dimensions, src.direction)
  }

  /** CachedCSSLayout: an inherited CSSLayout plus the three request keys. */
  datatype CachedLayout = CachedLayout(
    layout: Layout,
    requestedWidth: Scalar,
    requestedHeight: Scalar,
    parentMaxWidth: Scalar
  )

  /** A fresh cache: inherited dimensions start at 0 while the request keys start undefined. */
  function NewCachedLayout(): (c: CachedLayout)
    ensures c.layout == NewLayout()
    ensures Dim(c.layout.dimensions, DimWidth) == ZERO && Dim(c.layout.dimensions, DimHeight) == ZERO
    ensures c.requestedWidth == UNDEFINED && c.requestedHeight == UNDEFINED && c.parentMaxWidth == UNDEFINED
  {
    CachedLayout(NewLayout(), UNDEFINED, UNDEFINED, UNDEFINED)
  }

  /** The inherited `copy` on a cache: the layout part changes, the request keys do not. */
  function CachedCopy(c: CachedLayout, src: Layout): (r: CachedLayout)
    ensures r.layout == src
    ensures r.requestedWidth == c.requestedWidth && r.requestedHeight == c.requestedHeight
    ensures r.parentMaxWidth == c.parentMaxWidth
  {
    c.(layout := Copy(c.layout, src))
  }

  /** The inherited `resetResult` on a cache: the request keys survive. */
  function CachedResetResult(c: CachedLayout): (r: CachedLayout)
    ensures r.layout == ResetResult(c.layout)
    ensures r.requestedWidth == c.requestedWidth && r.requestedHeight == c.requestedHeight
    ensures r.parentMaxWidth == c.parentMaxWidth
  {
    c.(layout := ResetResult(c.layout))
  }

  // ---------------------------------------------------------------------------
  // Properties
  // ---------------------------------------------------------------------------

  /** The companion index constants. */
  lemma IndexConstants()
    ensures PosOrdinal(PosLeft) == 0 && PosOrdinal(PosTop) == 1
    ensures PosOrdinal(PosRight) == 2 && PosOrdinal(PosBottom) == 3
    ensures DimOrdinal(DimWidth) == 0 && DimOrdinal(DimHeight) == 1
  {
  }

  /** A fresh layout and a reset one differ exactly in the dimensions: 0 versus undefined. */
  lemma FreshVersusReset(l: Layout)
    ensures ResetResult(l).position == NewLayout().position
    ensures ResetResult(l).direction == NewLayout().direction
    ensures ResetResult(l).dimensions != NewLayout().dimensions
  {
  }

  /** copy and resetResult are each idempotent. */
  lemma CopyAndResetIdempotent(l: Layout, src: Layout)
    ensures Copy(Copy(l, src), src) == Copy(l, src)
    ensures ResetResult(ResetResult(l)) == ResetResult(l)
  {
  }

  /** Copying into a cache and back restores the layout, whatever the cache held. */
  lemma CacheRoundTrip(c: CachedLayout, l: Layout, other: Layout)
    ensures Copy(other, CachedCopy(c, l).layout) == l
  {
  }
}
