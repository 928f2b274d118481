/**
 * CSSStyle and the style enums. The enum fields are nullable in Kotlin;
 * here they always hold a value (see README, Left out).
 */
module Styles {
  import opened Scalars
  import opened Layouts
  import Spacings

  /** CSSFlexDirection, in ordinal order (the order the engine's lookup tables assume). */
  datatype FlexDirection = Column | ColumnReverse | Row | RowReverse

  /** CSSJustify. */
  datatype Justify = JustifyFlexStart | JustifyCenter | JustifyFlexEnd | SpaceBetween | SpaceAround

  /** CSSAlign. */
  datatype Align = AlignAuto | AlignFlexStart | AlignCenter | AlignFlexEnd | AlignStretch

  /** CSSPositionType. */
  datatype PositionType = Relative | Absolute

  /** CSSWrap. */
  datatype WrapMode = NoWrap | Wrap

  datatype Style = Style(
    direction: Direction,
    flexDirection: FlexDirection,
    justifyContent: Justify,
    alignContent: Align,
    alignItems: Align,
    alignSelf: Align,
    positionType: PositionType,
    flexWrap: WrapMode,
    flex: Scalar,
    margin: Spacings.Spacing,
    padding: Spacings.Spacing,
    border: Spacings.Spacing,
    position: Box4,
    dimensions: Dims,
    minWidth: Scalar,
    minHeight: Scalar,
    maxWidth: Scalar,
    maxHeight: Scalar
  )

  /** Every Spacing of the style keeps its representation invariant. */
  predicate Valid(s: Style) {
    Spacings.Valid(s.margin) && Spacings.Valid(s.padding) && Spacings.Valid(s.border)
  }

  /** CSSStyle.reset; the resulting state does not depend on the state before. */
  function Reset(s: Style): (r: Style)
    ensures Valid(r)
    ensures r.flex == ZERO
    ensures forall p :: Pos(r.position, p) == UNDEFINED
    ensures forall i :: Dim(r.dimensions, i) == UNDEFINED
    ensures forall t :: Spacings.Get(r.margin, t) == Spacings.Get(Spacings.NewSpacing(), t)
    ensures forall t :: Spacings.Get(r.padding, t) == Spacings.Get(Spacings.NewSpacing(), t)
    ensures forall t :: Spacings.Get(r.border, t) == Spacings.Get(Spacings.NewSpacing(), t)
  {
    Style(
      Inherit, Column, JustifyFlexStart, AlignFlexStart, AlignStretch, AlignAuto, Relative, NoWrap,
      ZERO,
      Spacings.Reset(s.margin), Spacings.Reset(s.padding), Spacings.Reset(s.border),
      Fill4(UNDEFINED), Fill2(UNDEFINED),
      UNDEFINED, UNDEFINED, UNDEFINED, UNDEFINED)
  }

  /**
   * The constructor: field initialisers (flex 0, zero-filled arrays, fresh
   * spacings) followed by `init { reset() }`.
   */
  function NewStyle(): Style {
    var initial := Style(
      Inherit, Column, JustifyFlexStart, AlignFlexStart, AlignStretch, AlignAuto, Relative, NoWrap,
      ZERO,
      Spacings.NewSpacing(), Spacings.NewSpacing(), Spacings.NewSpacing(),
      Fill4(ZERO), Fill2(ZERO),
      UNDEFINED, UNDEFINED, UNDEFINED, UNDEFINED);
    Reset(initial)
  }

  // ---------------------------------------------------------------------------
  // Properties
  // ---------------------------------------------------------------------------

  /** The defaults after construction or reset. */
  lemma ResetDefaults(s: Style)
    ensures var r := Reset(s);
            && r.direction == Inherit && r.flexDirection == Column
            && r.justifyContent == JustifyFlexStart && r.alignContent == AlignFlexStart
            && r.alignItems == AlignStretch && r.alignSelf == AlignAuto
            && r.positionType == Relative && r.flexWrap == NoWrap
    ensures Reset(s).flex == ZERO && Reset(s).flex != UNDEFINED
    ensures var r := Reset(s);
            r.minWidth == UNDEFINED && r.minHeight == UNDEFINED && r.maxWidth == UNDEFINED && r.maxHeight == UNDEFINED
    ensures var r := Reset(s);
            && r.margin == Spacings.NewSpacing() && r.padding == Spacings.NewSpacing()
            && r.border == Spacings.NewSpacing()
  {
  }

  /** reset is idempotent, forgets the prior state, and the constructed state equals the reset state. */
  lemma ResetIdempotent(s: Style, t: Style)
    ensures Reset(Reset(s)) == Reset(s)
    ensures Reset(s) == Reset(t)
    ensures NewStyle() == Reset(s)
  {
  }
}
