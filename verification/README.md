# A Dafny model of the yoga-kmp2 layout core and the kansha SVG helpers

This project models two pieces of a Kotlin code base and proves properties
of the model.

**yoga-kmp2** is a Kotlin port of Facebook's css-layout flexbox engine.
- `Scalars`: the float world. A value is `Undef` (the NaN that stands for
  "undefined") or a real. The module covers `floatsEqual`, `isUndefined`,
  raw IEEE comparisons and `maxOf`.
- `Spacings`: the nine-slot `Spacing` record, with its flag bits, its
  fallback chain (`get`), `getWithFallback`, `set`, `setDefault` and `reset`.
- `Layouts` and `Styles`: `CSSLayout`, `CachedCSSLayout` and `CSSStyle`.
- `Nodes`: `CSSNode` as an arena of node records, addressed by id. It holds
  the dirty-state machine (`dirty`, `markHasNewLayout`, `markLayoutSeen`),
  the child list operations, the guarded style setters, `reset` and
  `measure`. A call that throws returns the arena it leaves behind together
  with a failure status.
- `Engine`: the axis tables and helpers of `LayoutEngine` (`boundAxis`,
  `resolveAxis`, `resolveDirection`, `getCrossFlexDirection`,
  `getAlignItem`, `getRelativePosition`, `setDimensionFromStyle`), and the
  layout cache (`needsRelayout`, `layoutNode`, `calculateLayout`).
- `Lines`: the per-line main-axis arithmetic of `layoutNodeImpl`:
  - Loop A classifies the children and breaks the lines;
  - Loop B shares the flex space or spends the free space by
    justifyContent.
- `MainPass`: Loop C (main-axis positions and the line's extents), the
  container's automatic sizes, and Loop F (trailing positions on reversed
  axes).
- `CrossPass`: Loop D (cross-axis alignment and stretching) and Loop E
  (alignContent over several lines).
- `AbsolutePass`: the sizing of absolutely positioned children, both the
  pre-fill in Loop A and Loop G.

Each loop is modelled on the values it reads of a child and of the
container. The `...Of` functions show where each value comes from.

**kansha-core** renders a tree of elements to SVG.
- `Xml`: `buildXMLString` and Kotlin `Int.toString()`. Each renderer is
  paired with a reader (`ReadXml`, `ParseInt`) and a round-trip lemma.
- `Builders`: `svg`, `border` and `rect`.
- `Elements`: `Element`, with its two parallel child lists and its
  forwarding setters.
- `Images`: `ImageType`, the PNG, GIF and JPEG header readers, and the
  guards of `resolveImageSrc`. Bytes are Kotlin's signed bytes, and Kotlin's
  32-bit `or` and `shl` are written out.

In these places the code behaves differently from the usual flexbox
algorithm, and the model follows the code:
- Flex redistribution makes a single removal pass and recomputes the share
  once (`Lines.RemovalPass`, `Lines.Distribute`). It does not iterate to
  convergence.
- `isUndefined` compares with `==` against NaN, so it never holds
  (`Scalars.IsUndefinedNeverHolds`). As a result `Spacing.set` raises the
  flag of a slot even when it is set to UNDEFINED
  (`Spacings.SetUndefinedRaisesFlag`).
- `calculateLayout` passes no parent direction, rather than LTR. An
  INHERIT root then resolves to LTR anyway (`Engine.ResolveDirection`).
- When a line breaks, the non-flexible count is decremented whatever kind
  of child caused the break (`Lines.CountLine`, `Lines.BreakUndercounts`).
- Two divisions can divide a non-zero amount by zero:
  - SPACE_AROUND over a line with no counted children;
  - the flex share once every flexible child is clamped.

  The infinity this produces is an error result here (`Lines.JustifySpread`,
  `Lines.SecondShare`). A 0/0 gives `Undef`, as the NaN does in Kotlin.

Layout is a pure function of the node and its two arguments. Two runs on
the same input therefore give the same result by construction.

## Model

| member | source | states |
|---|---|---|
| Scalars.MaxOf | yoga-kmp2/src/com/facebook/csslayout/LayoutEngine.kt:113-116 | Kotlin `maxOf` on floats: undefined when either argument is; otherwise the larger of the two |
| Scalars.FloatsEqualNaN | yoga-kmp2/src/com/facebook/csslayout/FloatUtil.kt:19-21 | when either argument is NaN, floatsEqual holds iff both are |
| Scalars.FloatsEqualDefined | yoga-kmp2/src/com/facebook/csslayout/FloatUtil.kt:14-22 | for two defined values, floatsEqual holds iff their difference lies strictly between -0.00001 and 0.00001 |
| Scalars.FloatsEqualSymmetric | yoga-kmp2/src/com/facebook/csslayout/FloatUtil.kt:18-23 | floatsEqual is symmetric |
| Scalars.FloatsEqualReflexive | yoga-kmp2/src/com/facebook/csslayout/FloatUtil.kt:18-23 | floatsEqual is reflexive for every value, NaN included, where `==` is not |
| Scalars.FloatsEqualNotTransitive | yoga-kmp2/src/com/facebook/csslayout/FloatUtil.kt:22 | there are a, b, c with a ≈ b and b ≈ c but not a ≈ c |
| Scalars.IsNaNExactlyUndefined | yoga-kmp2/src/com/facebook/csslayout/FloatUtil.kt:16 | isNaN holds exactly for UNDEFINED |
| Scalars.IsUndefinedNeverHolds | yoga-kmp2/src/com/facebook/csslayout/CSSConstants.kt:14-16 | isUndefined, comparing with `==` against NaN, is false for every value, UNDEFINED included |
| Scalars.IsUndefinedDisagreesWithIsNaN | yoga-kmp2/src/com/facebook/csslayout/CSSConstants.kt:15 | on UNDEFINED, isNaN and floatsEqual(UNDEFINED, UNDEFINED) hold while isUndefined does not |
| Scalars.FloatsEqualShift | yoga-kmp2/src/com/facebook/csslayout/FloatUtil.kt:22 | floatsEqual on defined values is unchanged by adding the same amount to both sides |
| Spacings.NewSpacing | yoga-kmp2/src/com/facebook/csslayout/Spacing.kt:17-21 | a fresh Spacing satisfies the invariant: the alias bit agrees with the ALL/VERTICAL/HORIZONTAL flags |
| Spacings.Reset | yoga-kmp2/src/com/facebook/csslayout/Spacing.kt:115-120 | after reset the state is that of a fresh Spacing whatever came before: every raw slot undefined, no flags, no default array |
| Spacings.GetWithFallback | yoga-kmp2/src/com/facebook/csslayout/Spacing.kt:127-132 | a flagged slot gives what `get` gives for it; an unflagged one gives `get` of the fallback type |
| Spacings.UpdateFlags | yoga-kmp2/src/com/facebook/csslayout/Spacing.kt:36-40 | only the flag of the set type changes: cleared when isUndefined(value), raised otherwise |
| Spacings.Set | yoga-kmp2/src/com/facebook/csslayout/Spacing.kt:32-48 | reports a change iff the stored value is not floatsEqual to the new one; no change leaves everything as it was; a change stores the value, raises its flag and keeps the invariant; other slots, other flags and the defaults are untouched |
| Spacings.SetDefault | yoga-kmp2/src/com/facebook/csslayout/Spacing.kt:58-67 | the default array exists afterwards, created as 0 except START/END undefined; the change report follows floatsEqual on the previous default; slots, flags and the alias bit are untouched |
| Spacings.FlagsDistinct | yoga-kmp2/src/com/facebook/csslayout/Spacing.kt:181-191 | two types share a flag bit iff they are the same type |
| Spacings.FreshGet | yoga-kmp2/src/com/facebook/csslayout/Spacing.kt:74-82 | with no flags and no default array, `get` is 0 for every type but START and END, which are undefined |
| Spacings.SetKeepsValid | yoga-kmp2/src/com/facebook/csslayout/Spacing.kt:42-43 | `set` keeps the alias bit equal to "ALL, VERTICAL or HORIZONTAL is flagged" |
| Spacings.SetUndefinedRaisesFlag | yoga-kmp2/src/com/facebook/csslayout/Spacing.kt:36-40 | setting UNDEFINED over a defined value reports a change and raises the flag, so `get` then returns UNDEFINED |
| Spacings.SetUndefinedOnFreshSlotIsNoop | yoga-kmp2/src/com/facebook/csslayout/Spacing.kt:33 | setting UNDEFINED into a slot that holds UNDEFINED reports no change |
| Spacings.GetFlagged | yoga-kmp2/src/com/facebook/csslayout/Spacing.kt:84-86 | a flagged slot's `get` is its stored value |
| Spacings.GetIsChain | yoga-kmp2/src/com/facebook/csslayout/Spacing.kt:74-98 | under the invariant, `get` with its two shortcuts equals the plain chain: the slot, then VERTICAL for TOP/BOTTOM and HORIZONTAL for every other type, then ALL, then the default |
| Spacings.SetThenGet | yoga-kmp2/src/com/facebook/csslayout/Spacing.kt:32-86 | after a reported change `get` returns the new value; after no change on a flagged slot it returns a value floatsEqual to it |
| Spacings.SetOtherFlaggedUnchanged | yoga-kmp2/src/com/facebook/csslayout/Spacing.kt:32-48 | setting one type leaves `get` of another flagged type unchanged |
| Spacings.GetWithFallbackSpec | yoga-kmp2/src/com/facebook/csslayout/Spacing.kt:127-132 | getWithFallback is the stored value when the slot is flagged and the fallback type's chain otherwise |
| Spacings.SetDefaultKeepsFlagged | yoga-kmp2/src/com/facebook/csslayout/Spacing.kt:58-86 | setDefault keeps the invariant and never changes what a flagged slot resolves to |
| Spacings.ResetForgets | yoga-kmp2/src/com/facebook/csslayout/Spacing.kt:115-120 | reset is idempotent and `get` after reset equals `get` on a fresh Spacing |
| Layouts.Fill4 | yoga-kmp2/src/com/facebook/csslayout/CSSLayout.kt:23 | `position.fill(x)`: every slot holds x |
| Layouts.SetPos | yoga-kmp2/src/com/facebook/csslayout/CSSLayout.kt:29-36 | one array assignment: the slot holds the value, the other three are kept |
| Layouts.SetDim | yoga-kmp2/src/com/facebook/csslayout/CSSLayout.kt:37-40 | one array assignment: the slot holds the value, the other is kept |
| Layouts.NewLayout | yoga-kmp2/src/com/facebook/csslayout/CSSLayout.kt:15-17 | a fresh layout has all positions 0, both dimensions 0 and direction LTR |
| Layouts.ResetResult | yoga-kmp2/src/com/facebook/csslayout/CSSLayout.kt:22-26 | positions 0, dimensions undefined, direction LTR |
| Layouts.Copy | yoga-kmp2/src/com/facebook/csslayout/CSSLayout.kt:28-42 | after the six slot assignments and the direction, the layout equals the source |
| Layouts.NewCachedLayout | yoga-kmp2/src/com/facebook/csslayout/CachedCSSLayout.kt:16-19 | a fresh cache has 0 dimensions and undefined requestedWidth, requestedHeight and parentMaxWidth |
| Layouts.CachedCopy | yoga-kmp2/src/com/facebook/csslayout/CachedCSSLayout.kt:16-20 | the inherited copy replaces the layout part and keeps the three request keys |
| Layouts.CachedResetResult | yoga-kmp2/src/com/facebook/csslayout/CachedCSSLayout.kt:16-20 | the inherited resetResult keeps the three request keys |
| Layouts.IndexConstants | yoga-kmp2/src/com/facebook/csslayout/CSSLayout.kt:55-61 | LEFT=0, TOP=1, RIGHT=2, BOTTOM=3, WIDTH=0, HEIGHT=1 |
| Layouts.FreshVersusReset | yoga-kmp2/src/com/facebook/csslayout/CSSLayout.kt:15-26 | a fresh and a reset layout agree on positions and direction and differ on the dimensions |
| Layouts.CopyAndResetIdempotent | yoga-kmp2/src/com/facebook/csslayout/CSSLayout.kt:22-42 | copy and resetResult are each idempotent |
| Layouts.CacheRoundTrip | yoga-kmp2/src/com/facebook/csslayout/CSSLayout.kt:28-42 | copying a layout into the cache and back restores it |
| Styles.Reset | yoga-kmp2/src/com/facebook/csslayout/CSSStyle.kt:42-66 | the spacings keep their invariant and resolve as fresh ones; flex is 0; every position and dimension slot is undefined |
| Styles.ResetDefaults | yoga-kmp2/src/com/facebook/csslayout/CSSStyle.kt:42-65 | the enum defaults INHERIT, COLUMN, FLEX_START, FLEX_START, STRETCH, AUTO, RELATIVE, NOWRAP; flex 0 (not undefined); min/max bounds undefined; spacings fresh |
| Styles.ResetIdempotent | yoga-kmp2/src/com/facebook/csslayout/CSSStyle.kt:38-40 | reset is idempotent and forgets the prior state, and the constructed style equals the reset style |
| Nodes.NewNode | yoga-kmp2/src/com/facebook/csslayout/CSSNode.kt:46-68 | a new node is DIRTY with no children and no child list allocated, no parent, no measure function, lineIndex 0 and a style whose spacings keep their invariant |
| Nodes.Create | yoga-kmp2/src/com/facebook/csslayout/CSSNode.kt:46-68 | allocating a node adds one fresh record to the arena and changes no other node |
| Nodes.MarkDirty | yoga-kmp2/src/com/facebook/csslayout/CSSNode.kt:145-155 | a no-op on a DIRTY node; fails on HAS_NEW_LAYOUT; otherwise marks DIRTY and recurses into the parent; it only ever turns UP_TO_DATE nodes DIRTY, and it fails only when some node held HAS_NEW_LAYOUT |
| Nodes.DirtyKeepsUpClosed | yoga-kmp2/src/com/facebook/csslayout/CSSNode.kt:145-155 | a successful dirty() keeps "a dirty node's parent is dirty" true across the arena |
| Nodes.DirtyChainClosed | yoga-kmp2/src/com/facebook/csslayout/CSSNode.kt:150-154 | every node the call itself dirtied has a dirty parent afterwards |
| Nodes.UpClosedAncestors | yoga-kmp2/src/com/facebook/csslayout/CSSNode.kt:152-154 | in such an arena every ancestor of a dirty node is dirty: dirtiness propagates to the root |
| Nodes.MarkHasNewLayout | yoga-kmp2/src/com/facebook/csslayout/CSSNode.kt:158-160 | unconditionally sets HAS_NEW_LAYOUT and changes nothing else |
| Nodes.MarkLayoutSeen | yoga-kmp2/src/com/facebook/csslayout/CSSNode.kt:167-171 | fails, changing nothing, exactly when the node is not in HAS_NEW_LAYOUT; otherwise moves it to UP_TO_DATE |
| Nodes.SeenThenDirty | yoga-kmp2/src/com/facebook/csslayout/CSSNode.kt:145-171 | after markLayoutSeen a root can be dirtied again without error |
| Nodes.Insert | yoga-kmp2/src/com/facebook/csslayout/CSSNode.kt:84 | `ArrayList.add(i, c)`: c at i, earlier elements kept, later ones shifted up by one |
| Nodes.RemoveAt | yoga-kmp2/src/com/facebook/csslayout/CSSNode.kt:90 | `ArrayList.removeAt(i)`: earlier elements kept, later ones shifted down by one |
| Nodes.AddChildAt | yoga-kmp2/src/com/facebook/csslayout/CSSNode.kt:77-87 | a child with a parent fails before any change; otherwise the child list is allocated, a bad index then fails, and a good one inserts the child at i and links it to the parent; beyond that only layout states change (UP_TO_DATE to DIRTY), and the insertion stays even when the following dirty() fails |
| Nodes.RemoveChildAt | yoga-kmp2/src/com/facebook/csslayout/CSSNode.kt:89-94 | a node whose child list was never allocated fails with a null dereference, and a bad index fails, both before any change; otherwise the i-th child is removed and unlinked, later children shift down, only layout states change beyond that, and the removed id is returned iff dirty() succeeded |
| Nodes.DirtyKeepsWellFormed | yoga-kmp2/src/com/facebook/csslayout/CSSNode.kt:145-155 | dirty() keeps the arena's parent and child links consistent |
| Nodes.AddChildKeepsWellFormed | yoga-kmp2/src/com/facebook/csslayout/CSSNode.kt:77-87 | addChildAt keeps the links consistent: every child names its parent, every parent lists its child once |
| Nodes.RemoveChildKeepsWellFormed | yoga-kmp2/src/com/facebook/csslayout/CSSNode.kt:89-94 | removeChildAt keeps the links consistent |
| Nodes.Restyle | yoga-kmp2/src/com/facebook/csslayout/CSSNode.kt:211-404 | the common shape of the setters: without a change nothing happens; a change is stored and dirties the node, and the stored value survives a dirty() failure; beyond the stored value only layout states change, from UP_TO_DATE to DIRTY |
| Nodes.SetDirection | yoga-kmp2/src/com/facebook/csslayout/CSSNode.kt:211-216 | stores and dirties only when the new direction differs by identity; beyond the stored value only layout states change, UP_TO_DATE nodes becoming DIRTY |
| Nodes.SetFlexDirection | yoga-kmp2/src/com/facebook/csslayout/CSSNode.kt:218-228 | stores and dirties only when the new flexDirection differs by identity; beyond the stored value only layout states change, UP_TO_DATE nodes becoming DIRTY |
| Nodes.SetJustifyContent | yoga-kmp2/src/com/facebook/csslayout/CSSNode.kt:230-240 | stores and dirties only when justifyContent differs by identity; beyond the stored value only layout states change, UP_TO_DATE nodes becoming DIRTY |
| Nodes.SetAlignItems | yoga-kmp2/src/com/facebook/csslayout/CSSNode.kt:242-252 | stores and dirties only when alignItems differs by identity; beyond the stored value only layout states change, UP_TO_DATE nodes becoming DIRTY |
| Nodes.SetAlignSelf | yoga-kmp2/src/com/facebook/csslayout/CSSNode.kt:254-264 | stores and dirties only when alignSelf differs by identity; beyond the stored value only layout states change, UP_TO_DATE nodes becoming DIRTY |
| Nodes.SetPositionType | yoga-kmp2/src/com/facebook/csslayout/CSSNode.kt:272-277 | stores and dirties only when positionType differs by identity; beyond the stored value only layout states change, UP_TO_DATE nodes becoming DIRTY |
| Nodes.SetWrap | yoga-kmp2/src/com/facebook/csslayout/CSSNode.kt:279-284 | stores and dirties only when flexWrap differs by identity; beyond the stored value only layout states change, UP_TO_DATE nodes becoming DIRTY |
| Nodes.SetFlex | yoga-kmp2/src/com/facebook/csslayout/CSSNode.kt:286-296 | stores and dirties only when the new flex is not floatsEqual to the old; beyond the stored value only layout states change, UP_TO_DATE nodes becoming DIRTY |
| Nodes.SetPosition | yoga-kmp2/src/com/facebook/csslayout/CSSNode.kt:334-380 | the four position setters: one slot changes, and only when not floatsEqual to the old value; beyond the stored value only layout states change, UP_TO_DATE nodes becoming DIRTY |
| Nodes.SetStyleDimension | yoga-kmp2/src/com/facebook/csslayout/CSSNode.kt:382-404 | styleWidth/styleHeight: one slot changes, and only when not floatsEqual to the old value; beyond the stored value only layout states change, UP_TO_DATE nodes becoming DIRTY |
| Nodes.WithSpacing | yoga-kmp2/src/com/facebook/csslayout/CSSNode.kt:298-332 | a spacing setter writes one of margin, padding, border and keeps the other two |
| Nodes.SetSpacing | yoga-kmp2/src/com/facebook/csslayout/CSSNode.kt:304-332 | setMargin/setPadding/setBorder dirty exactly when Spacing.set reports a change; beyond the stored value only layout states change, UP_TO_DATE nodes becoming DIRTY |
| Nodes.SetDefaultPadding | yoga-kmp2/src/com/facebook/csslayout/CSSNode.kt:424-429 | the new default array is stored even without a change; only a change dirties, and beyond the padding only layout states change |
| Nodes.SetMeasureFunction | yoga-kmp2/src/com/facebook/csslayout/CSSNode.kt:103-108 | stores and dirties only when the function differs by reference; beyond the function only layout states change |
| Nodes.SetSameValueIsNoop | yoga-kmp2/src/com/facebook/csslayout/CSSNode.kt:218-228 | writing back the value a setter already holds changes nothing and cannot fail |
| Nodes.SetFlexWithinEpsilon | yoga-kmp2/src/com/facebook/csslayout/CSSNode.kt:286-296 | a flex within epsilon of the old one is not a change |
| Nodes.DirtyMarksAncestors | yoga-kmp2/src/com/facebook/csslayout/CSSNode.kt:145-155 | in an arena where dirtiness is closed upwards, a completed dirty() leaves the node and every ancestor DIRTY |
| Nodes.RestyleDirtiesAncestors | yoga-kmp2/src/com/facebook/csslayout/CSSNode.kt:211-404 | a completed setter change leaves every ancestor of the node DIRTY |
| Nodes.Attach | yoga-kmp2/src/com/facebook/csslayout/CSSNode.kt:79-85 | the writes of addChildAt before dirty(): p's child list, allocated and with c inserted, and c's parent; no other node |
| Nodes.Detach | yoga-kmp2/src/com/facebook/csslayout/CSSNode.kt:90-91 | the writes of removeChildAt before dirty(): p's child list and the removed child's parent; no other node |
| Nodes.Reset | yoga-kmp2/src/com/facebook/csslayout/CSSNode.kt:434-441 | fails, changing nothing, iff the node has a parent or children; otherwise the style is the default style, the layout is reset, lineIndex is 0, the node is DIRTY, and no other node changes |
| Nodes.Measure | yoga-kmp2/src/com/facebook/csslayout/CSSNode.kt:114-122 | fails iff no measure function is set; otherwise the callback receives an output whose width and height are undefined |
| Nodes.MeasureClearsOutput | yoga-kmp2/src/com/facebook/csslayout/CSSNode.kt:118-119 | a callback that writes nothing returns both fields undefined |
| Engine.TablesAgree | yoga-kmp2/src/com/facebook/csslayout/LayoutEngine.kt:26-52 | the `pos` table repeats `leading`; leading and trailing are distinct edges that a reversed axis swaps; `dim` does not change under reversal; column axes start at top or bottom and row axes end at left or right |
| Engine.SpacingAt | yoga-kmp2/src/com/facebook/csslayout/LayoutEngine.kt:111-114 | a position index passed as a Spacing type names the slot with the same number |
| Engine.FreshStyleSums | yoga-kmp2/src/com/facebook/csslayout/LayoutEngine.kt:111-114 | on a fresh style the padding-plus-border and margin sums of every axis are zero |
| Engine.Clamp | yoga-kmp2/src/com/facebook/csslayout/LayoutEngine.kt:84-93 | the result is the value or one of the bounds; it is at least an applying min; at most an applying max unless the min conflicts; the value itself when within both |
| Engine.BoundAxis | yoga-kmp2/src/com/facebook/csslayout/LayoutEngine.kt:68-94 | the same, with the height bounds on column axes and the width bounds on row axes |
| Engine.BoundAxisIdempotent | yoga-kmp2/src/com/facebook/csslayout/LayoutEngine.kt:68-94 | bounding twice is bounding once |
| Engine.BoundAxisMonotone | yoga-kmp2/src/com/facebook/csslayout/LayoutEngine.kt:84-93 | boundAxis is monotone in the value |
| Engine.BoundAxisMinWins | yoga-kmp2/src/com/facebook/csslayout/LayoutEngine.kt:86-91 | when min > max, every defined value ends at the min |
| Engine.BoundAxisColumnIgnoresWidth | yoga-kmp2/src/com/facebook/csslayout/LayoutEngine.kt:72-76 | a column axis does not read the width bounds |
| Engine.ResolveAxis | yoga-kmp2/src/com/facebook/csslayout/LayoutEngine.kt:129-142 | RTL swaps ROW and ROW_REVERSE; column axes and other directions are unchanged |
| Engine.ResolveAxisInvolution | yoga-kmp2/src/com/facebook/csslayout/LayoutEngine.kt:129-142 | resolving twice with the same direction is the identity, and the dimension is kept |
| Engine.ResolveDirection | yoga-kmp2/src/com/facebook/csslayout/LayoutEngine.kt:144-151 | INHERIT takes the parent's direction, or LTR without one; any other direction is kept |
| Engine.ResolvedDirectionIsConcrete | yoga-kmp2/src/com/facebook/csslayout/LayoutEngine.kt:144-151 | unless the parent's direction is INHERIT, the resolved direction is never INHERIT |
| Engine.CrossAxis | yoga-kmp2/src/com/facebook/csslayout/LayoutEngine.kt:157-168 | a column-family main axis crosses the direction-resolved ROW; a row-family one crosses COLUMN |
| Engine.CrossAxisPerpendicular | yoga-kmp2/src/com/facebook/csslayout/LayoutEngine.kt:157-168 | the cross axis uses the other dimension |
| Engine.AlignItem | yoga-kmp2/src/com/facebook/csslayout/LayoutEngine.kt:170-175 | the child's alignSelf unless it is AUTO, else the parent's alignItems |
| Engine.AlignItemAuto | yoga-kmp2/src/com/facebook/csslayout/LayoutEngine.kt:170-175 | the result is AUTO iff both the child's alignSelf and the parent's alignItems are AUTO |
| Engine.RelativePosition | yoga-kmp2/src/com/facebook/csslayout/LayoutEngine.kt:119-127 | always defined: the leading offset if set, else the negated trailing offset if set, else 0 |
| Engine.RelativePositionReverse | yoga-kmp2/src/com/facebook/csslayout/LayoutEngine.kt:119-127 | with exactly one offset set, an axis and its reverse see opposite values |
| Engine.DimensionFromStyle | yoga-kmp2/src/com/facebook/csslayout/LayoutEngine.kt:96-117 | only the axis's dimension can change; it is kept when already defined or when the style dimension is undefined or <= 0; otherwise it becomes max(boundAxis(style dimension), padding + border) and so is at least padding + border |
| Engine.DimensionFromStyleIdempotent | yoga-kmp2/src/com/facebook/csslayout/LayoutEngine.kt:96-117 | applying it twice is applying it once |
| Engine.LayoutNode | yoga-kmp2/src/com/facebook/csslayout/LayoutEngine.kt:181-210 | the node ends in HAS_NEW_LAYOUT with style and links untouched; on a miss (needsRelayout: dirty, or a key not floatsEqual to the request) the three keys are recorded, the layout is recomputed and copied into the cache; on a hit the cached layout is copied back |
| Engine.CachedRequestIsHit | yoga-kmp2/src/com/facebook/csslayout/LayoutEngine.kt:181-207 | after a layout is seen, the same request again is a hit and returns the stored layout without consulting the layout function |
| Engine.DirtyIsMiss | yoga-kmp2/src/com/facebook/csslayout/LayoutEngine.kt:198-204 | a dirty node is always laid out again and the cache then holds the new layout and the new max width |
| Engine.CalculateLayout | yoga-kmp2/src/com/facebook/csslayout/CSSNode.kt:127-130 | the root ends in HAS_NEW_LAYOUT; a dirty root is laid out from a reset layout with an undefined max width, no parent direction and the reset dimensions as its new cache keys |
| Lines.KindOf | yoga-kmp2/src/com/facebook/csslayout/LayoutEngine.kt:546-622 | a child is out of flow iff it is absolute, and flexible iff the main dimension is defined and the child is relative with a positive flex |
| Lines.TotalNonNegative | yoga-kmp2/src/com/facebook/csslayout/LayoutEngine.kt:544-693 | mainContentDim over defined non-negative contributions is defined and non-negative |
| Lines.LineEnd | yoga-kmp2/src/com/facebook/csslayout/LayoutEngine.kt:447-696 | the scan never closes a line before its first child; every child after the first that it keeps fits within definedMainDim; it stops early only when wrapping is on and the next child overflows; without wrapping it runs to the last child |
| Lines.Segment | yoga-kmp2/src/com/facebook/csslayout/LayoutEngine.kt:406-988 | the line ends are strictly increasing, the last one is the child count, and there are none exactly when no child is left |
| Lines.SegmentPartitions | yoga-kmp2/src/com/facebook/csslayout/LayoutEngine.kt:406-988 | the lines tile the children: every line is non-empty, every child after a line's first fits, and every line but the last ends because the next child overflows |
| Lines.NoWrapOneLine | yoga-kmp2/src/com/facebook/csslayout/LayoutEngine.kt:625-632 | without flexWrap all children form a single line |
| Lines.UndefinedLimitOneLine | yoga-kmp2/src/com/facebook/csslayout/LayoutEngine.kt:625-632 | with an undefined main dimension all children form a single line even under WRAP |
| Lines.Count | yoga-kmp2/src/com/facebook/csslayout/LayoutEngine.kt:419-421 | a count over a range never exceeds the range's length |
| Lines.CountLine | yoga-kmp2/src/com/facebook/csslayout/LayoutEngine.kt:548-631 | the counters of a closed line: a breaking flexible child is counted as flexible, and the break decrements the non-flexible count whatever the breaking child was |
| Lines.FlexMembers | yoga-kmp2/src/com/facebook/csslayout/LayoutEngine.kt:548-562 | the flex list of a line holds only flexible children of the line, and a flexible breaking child is its last entry |
| Lines.Members | yoga-kmp2/src/com/facebook/csslayout/LayoutEngine.kt:548-562 | the flexible children of a range, in order, as many as Count says |
| Lines.BreakUndercounts | yoga-kmp2/src/com/facebook/csslayout/LayoutEngine.kt:625-632 | a fixed child of width 20 then an absolute child, with a limit of 10, make two lines, the first of which holds one fixed child but counts none |
| Lines.Remaining | yoga-kmp2/src/com/facebook/csslayout/LayoutEngine.kt:708-714 | with a defined main dimension the remaining space is definedMainDim minus the content; without one it is 0 for non-negative content and the content's magnitude for negative content |
| Lines.ItemOf | yoga-kmp2/src/com/facebook/csslayout/LayoutEngine.kt:728-739 | a flexible child's item keeps its positive flex factor |
| Lines.ItemOfAgrees | yoga-kmp2/src/com/facebook/csslayout/LayoutEngine.kt:728-739 | an item's bound is the child's boundAxis on the main axis and its padding and border are the child's |
| Lines.LineItems | yoga-kmp2/src/com/facebook/csslayout/LayoutEngine.kt:727-747 | one item per flexible child of the line, in flex-list order, each with a positive flex |
| Lines.SumFlexPositive | yoga-kmp2/src/com/facebook/csslayout/LayoutEngine.kt:551 | a line with flexible children has a positive totalFlexible |
| Lines.FreeFlexBounds | yoga-kmp2/src/com/facebook/csslayout/LayoutEngine.kt:741-744 | the flex left after the removal pass lies between 0 and the total, and is 0 exactly when every child is clamped |
| Lines.RemovalPass | yoga-kmp2/src/com/facebook/csslayout/LayoutEngine.kt:727-747 | the removal pass takes off the flex of exactly the clamped children, and changes nothing when none is clamped |
| Lines.FirstShare | yoga-kmp2/src/com/facebook/csslayout/LayoutEngine.kt:720 | the first share times totalFlexible is the remaining space, and it is undefined only when that space is |
| Lines.SecondShare | yoga-kmp2/src/com/facebook/csslayout/LayoutEngine.kt:749-756 | the recomputed share is never negative; it is a NaN when the space is or when 0/0 arises; an infinity (all flex removed, space left over) is the only error |
| Lines.Sizes | yoga-kmp2/src/com/facebook/csslayout/LayoutEngine.kt:758-773 | every flexible child's main size is its base size at the share, bounded by its min and max |
| Lines.Distribute | yoga-kmp2/src/com/facebook/csslayout/LayoutEngine.kt:719-800 | fails exactly when every child is clamped and positive space is left; otherwise the share is never negative and every child gets its bounded base size at that share |
| Lines.SizesSum | yoga-kmp2/src/com/facebook/csslayout/LayoutEngine.kt:758-773 | unclamped sizes add up to share times total flex plus their padding and border |
| Lines.DistributeConserves | yoga-kmp2/src/com/facebook/csslayout/LayoutEngine.kt:719-800 | with no bound interfering and space left, the flexible children fill the remaining space exactly: their sizes add up to it plus their padding and border |
| Lines.SizesProportional | yoga-kmp2/src/com/facebook/csslayout/LayoutEngine.kt:758-773 | two unclamped flexible children receive flex space in proportion to their flex factors |
| Lines.UnclampedSize | yoga-kmp2/src/com/facebook/csslayout/LayoutEngine.kt:758-773 | an unclamped child's size is share times flex plus its padding and border |
| Lines.OverflowGivesNoFlexSpace | yoga-kmp2/src/com/facebook/csslayout/LayoutEngine.kt:752-756 | when fixed children overflow, the share is floored at 0 and an unclamped flexible child shrinks to its padding and border |
| Lines.ClampedAllFloorsShare | yoga-kmp2/src/com/facebook/csslayout/LayoutEngine.kt:741-756 | a single child whose min exceeds the room is clamped, the second division gives a negative infinity and the share is floored to 0, so the child takes its min |
| Lines.JustifySpread | yoga-kmp2/src/com/facebook/csslayout/LayoutEngine.kt:804-823 | the offsets for each justifyContent value: FLEX_START none, CENTER half the space before, FLEX_END all of it before, SPACE_BETWEEN the non-negative space split over n - 1 gaps, SPACE_AROUND a gap of space/n and half a gap before; SPACE_AROUND over no children with non-zero space is the only error |
| Lines.JustifyPlacesLine | yoga-kmp2/src/com/facebook/csslayout/LayoutEngine.kt:804-823 | where each mode leaves the free space: all at the end, all at the start, equal at both ends, flush at both ends, or half a gap at each end |
| Lines.AbsoluteOnlyLineSpaceAround | yoga-kmp2/src/com/facebook/csslayout/LayoutEngine.kt:818-821 | a line of absolute children only, justified SPACE_AROUND, divides a non-zero space by zero |
| MainPass.PlaceMain | yoga-kmp2/src/com/facebook/csslayout/LayoutEngine.kt:835-865 | a pinned absolute child goes to its offset plus the leading border and margin and gets no trailing position; any other child is shifted by mainDim, and its trailing position, written when the main dimension is defined, makes position, size and trailing add up to the container's size |
| MainPass.PositionLine | yoga-kmp2/src/com/facebook/csslayout/LayoutEngine.kt:826-888 | Loop C places every child of the line by PlaceMain at the mainDim its predecessors reached, and returns the final mainDim and crossDim |
| MainPass.InFlow | yoga-kmp2/src/com/facebook/csslayout/LayoutEngine.kt:857-885 | the relative children of the line, every one of them and nothing else |
| MainPass.OutOfFlowTakesNoRoom | yoga-kmp2/src/com/facebook/csslayout/LayoutEngine.kt:857-885 | absolute children change neither mainDim nor crossDim |
| MainPass.MainDimGrows | yoga-kmp2/src/com/facebook/csslayout/LayoutEngine.kt:867-871 | with non-negative advances mainDim never decreases along the line |
| MainPass.RelativeChildrenDoNotOverlap | yoga-kmp2/src/com/facebook/csslayout/LayoutEngine.kt:851-871 | a later relative child is shifted at least as far as an earlier one plus that child's gap, size and margins |
| MainPass.CrossDimIsMax | yoga-kmp2/src/com/facebook/csslayout/LayoutEngine.kt:874-883 | crossDim is at least 0, covers every relative child's bounded cross extent, and is one of them or 0 |
| MainPass.AutoSize | yoga-kmp2/src/com/facebook/csslayout/LayoutEngine.kt:890-898 | containerCrossAxis and the final automatic sizes are never below padding and border, respect the min, respect the max when it can, and are the content itself when that is within all bounds |
| MainPass.AutoSizeIsBoundAxis | yoga-kmp2/src/com/facebook/csslayout/LayoutEngine.kt:1098-1138 | AutoSize with a node's own bounds is maxOf(boundAxis(content), padding and border) |
| MainPass.TrailingOffset | yoga-kmp2/src/com/facebook/csslayout/LayoutEngine.kt:1141-1158 | the trailing position makes position, size and trailing add up to the container's size |
| MainPass.TrailingMirrors | yoga-kmp2/src/com/facebook/csslayout/LayoutEngine.kt:1141-1158 | moving a child forward by d reduces its trailing position by d |
| MainPass.TrailingPass | yoga-kmp2/src/com/facebook/csslayout/LayoutEngine.kt:1094-1158 | Loop F rewrites only the trailing slot, and only on a reversed axis whose size was computed, so that position, size and trailing add up to the container's size |
| CrossPass.Stretched | yoga-kmp2/src/com/facebook/csslayout/LayoutEngine.kt:459-484 | the stretched dimension is never below the child's padding and border, and within its bounds it fills the container's inner room with the child's margins |
| CrossPass.PlaceCross | yoga-kmp2/src/com/facebook/csslayout/LayoutEngine.kt:901-983 | a pinned absolute child goes to its offset plus border and margin; only a relative STRETCH child with an unknown dimension gets a new one; the trailing position, written when the cross dimension is defined, completes the container's size |
| CrossPass.AtLeadingEdge | yoga-kmp2/src/com/facebook/csslayout/LayoutEngine.kt:919-975 | FLEX_START, STRETCH and unpinned absolute children sit at the line's leading edge inside padding and border |
| CrossPass.CenterIsBalanced | yoga-kmp2/src/com/facebook/csslayout/LayoutEngine.kt:954-966 | CENTER leaves equal room on both sides of the child |
| CrossPass.EndIsFlush | yoga-kmp2/src/com/facebook/csslayout/LayoutEngine.kt:954-966 | FLEX_END (and AUTO, which falls into the same branch) puts the child's trailing margin against the inner edge |
| CrossPass.StretchFills | yoga-kmp2/src/com/facebook/csslayout/LayoutEngine.kt:929-952 | a STRETCH child with an unknown dimension ends at least at its padding and border, and within its bounds exactly fills the inner room less its margins |
| CrossPass.StretchKeepsKnownSize | yoga-kmp2/src/com/facebook/csslayout/LayoutEngine.kt:929-932 | stretching never overrides a known dimension |
| CrossPass.ScanLine | yoga-kmp2/src/com/facebook/csslayout/LayoutEngine.kt:1031-1055 | the scan ends at the first relative child of another line (or the end), having passed only children of the line or absolute ones |
| CrossPass.ScanLineIsMax | yoga-kmp2/src/com/facebook/csslayout/LayoutEngine.kt:1031-1055 | the line height covers every measured relative child of the line and is one of their extents or the start value |
| CrossPass.AlignContent | yoga-kmp2/src/com/facebook/csslayout/LayoutEngine.kt:1005-1022 | FLEX_END moves the lines by the whole free room, CENTER by half, STRETCH grows each line by an equal positive share only when room is left; nothing else moves or grows |
| CrossPass.Bands | yoga-kmp2/src/com/facebook/csslayout/LayoutEngine.kt:1024-1091 | one band per line, each starting where the previous one ended, both in children and in cross position |
| CrossPass.PlaceInBand | yoga-kmp2/src/com/facebook/csslayout/LayoutEngine.kt:1058-1088 | absolute and AUTO children are not moved by Loop E |
| CrossPass.PlacedInsideBand | yoga-kmp2/src/com/facebook/csslayout/LayoutEngine.kt:1064-1085 | in a band at least as tall as the child, the child's box stays in the band; CENTER leaves equal room above and below, FLEX_END puts the trailing margin on the band's end |
| CrossPass.BandsTile | yoga-kmp2/src/com/facebook/csslayout/LayoutEngine.kt:1024-1091 | the last band ends at the first lead plus all the line heights |
| CrossPass.StretchSharesFillRoom | yoga-kmp2/src/com/facebook/csslayout/LayoutEngine.kt:1018-1021 | under STRETCH the per-line shares add up to exactly the free room |
| AbsolutePass.Fill | yoga-kmp2/src/com/facebook/csslayout/LayoutEngine.kt:1166-1199 | the filled dimension is never below the child's padding and border and, within its bounds, is exactly the room between the offsets |
| AbsolutePass.Prefill | yoga-kmp2/src/com/facebook/csslayout/LayoutEngine.kt:497-541 | Loop A fills the dimension only when the container's size is known, the child sets none and both offsets are set; otherwise it is unchanged |
| AbsolutePass.Finish | yoga-kmp2/src/com/facebook/csslayout/LayoutEngine.kt:1161-1219 | Loop G changes only the child's dimension and position; it moves only a child with a trailing and no leading offset, placing it so that position, size and offset add up to the container's size |
| AbsolutePass.FillSpansOffsets | yoga-kmp2/src/com/facebook/csslayout/LayoutEngine.kt:1171-1199 | within its bounds the child spans from its leading offset to its trailing offset inside the container's border |
| AbsolutePass.PrefillDiffersByPadding | yoga-kmp2/src/com/facebook/csslayout/LayoutEngine.kt:497-541 | the Loop A pre-fill is smaller than the Loop G fill by the container's padding, which only Loop A subtracts |
| AbsolutePass.FinishCoversPadding | yoga-kmp2/src/com/facebook/csslayout/LayoutEngine.kt:1171-1199 | Loop G never makes a child smaller than its padding and border |
| AbsolutePass.FinishStable | yoga-kmp2/src/com/facebook/csslayout/LayoutEngine.kt:1161-1219 | running Loop G twice on a child is running it once, so the self-linked absolute child it visits twice ends where one visit leaves it |
| Xml.BuildXml | kansha-core/src/com/sumygg/kansha/utils.kt:6-17 | the output opens with `<`, the tag and a space, written even when there are no attributes |
| Xml.BuildXmlRoundTrip | kansha-core/src/com/sumygg/kansha/utils.kt:6-17 | the output reads back to exactly the tag, the attributes in order and the children or their absence, whenever names contain no delimiter and values no double quote |
| Xml.UnescapedValuesCollide | kansha-core/src/com/sumygg/kansha/utils.kt:11 | values are not escaped, so one attribute holding quotes renders exactly like two attributes |
| Xml.EmptyAttrsKeepSpace | kansha-core/src/com/sumygg/kansha/utils.kt:12-16 | an empty attribute map still leaves the space after the tag name, in both the open and the self-closing form |
| Xml.NatToString | kansha-core/src/com/sumygg/kansha/builder/svg.kt:18-20 | decimal digits, most significant first, with no leading zero |
| Xml.IntToString | kansha-core/src/com/sumygg/kansha/builder/svg.kt:18-20 | digits with at most a leading minus sign |
| Xml.NatToStringRoundTrip | kansha-core/src/com/sumygg/kansha/builder/svg.kt:18-20 | the digits' value is the number |
| Xml.IntToStringRoundTrip | kansha-core/src/com/sumygg/kansha/builder/svg.kt:18-20 | every Int reads back from its decimal form |
| Xml.IntToStringIsPlain | kansha-core/src/com/sumygg/kansha/builder/border.kt:16-21 | a rendered Int is always a value that needs no escaping |
| Builders.Keys | kansha-core/src/com/sumygg/kansha/builder/border.kt:16-21 | the attribute names, in order |
| Builders.Svg | kansha-core/src/com/sumygg/kansha/builder/svg.kt:13-23 | reads back as an `svg` element with the namespace, width, height and viewBox attributes in that order and the content as its children |
| Builders.SvgReadsBack | kansha-core/src/com/sumygg/kansha/builder/svg.kt:13-23 | width and height parse back to the given numbers and the viewBox is `0 0` followed by those same two attribute values |
| Builders.Border | kansha-core/src/com/sumygg/kansha/builder/border.kt:6-24 | with a colour free of double quotes, reads back as one self-closing `rect` with the box, the stroke colour and the stroke width |
| Builders.BorderReadsBack | kansha-core/src/com/sumygg/kansha/builder/border.kt:6-24 | the attributes are x, y, width, height, stroke, stroke-width in that order, with no fill; the numbers parse back and the stroke is the element's colour |
| Builders.BoxReadsBack | kansha-core/src/com/sumygg/kansha/builder/border.kt:16-19 | the four box attributes parse back to left, top, width and height |
| Builders.KeysAppend | kansha-core/src/com/sumygg/kansha/builder/border.kt:16-21 | the names of two attribute lists joined are the two name lists joined |
| Builders.Overlay | kansha-core/src/com/sumygg/kansha/builder/rect.kt:19-34 | nothing without debug; with debug, a self-closing `rect` with the box, a transparent fill and a one-unit #ff5757 stroke |
| Builders.Shape | kansha-core/src/com/sumygg/kansha/builder/rect.kt:36-55 | an opaque element gives the border itself; a translucent one gives a `g` carrying the formatted opacity around the border |
| Builders.Rect | kansha-core/src/com/sumygg/kansha/builder/rect.kt:6-56 | the shape followed by the debug outline, so without debug just the shape |
| Builders.RectIgnoresId | kansha-core/src/com/sumygg/kansha/builder/rect.kt:8 | the output does not depend on the id |
| Builders.WrappedIffTranslucent | kansha-core/src/com/sumygg/kansha/builder/rect.kt:47-55 | the shape reads back as a `g` exactly when the opacity is below 1 |
| Builders.OverlayMatchesBorder | kansha-core/src/com/sumygg/kansha/builder/rect.kt:19-44 | the debug outline draws the same box as the border, with fill, stroke and stroke-width after it |
| Elements.NewElement | kansha-core/src/com/sumygg/kansha/elements/Element.kt:6-27 | a new element has no children, a 1-wide black border, full opacity and no background |
| Elements.Add | kansha-core/src/com/sumygg/kansha/elements/Element.kt:42-45 | the child always joins the element's own list; the CSSNode is attached at the end of the node's child list when it had no parent, and otherwise the attach fails with the node arena untouched; after an attach only layout states change beyond the new links, and a completed one leaves the node DIRTY |
| Elements.AddKeepsParallel | kansha-core/src/com/sumygg/kansha/elements/Element.kt:42-45 | add keeps the element list and the CSSNode child list parallel exactly when the child's node had no parent |
| Elements.AddGivesChildren | kansha-core/src/com/sumygg/kansha/elements/Element.kt:42-50 | after add the element has children and the last one is the added element, even when the attach failed |
| Elements.HasChildren | kansha-core/src/com/sumygg/kansha/elements/Element.kt:50 | true iff the element's own list is non-empty |
| Elements.SetWidth | kansha-core/src/com/sumygg/kansha/elements/Element.kt:14-18 | sets the CSSNode's style width to the value as a float through the node's guarded setter, leaving the element arena alone |
| Elements.SetHeight | kansha-core/src/com/sumygg/kansha/elements/Element.kt:19-23 | the same for the style height |
| Elements.SetFlexOf | kansha-core/src/com/sumygg/kansha/elements/Element.kt:28-32 | forwards to the CSSNode's flex setter |
| Elements.SetFlexDirectionOf | kansha-core/src/com/sumygg/kansha/elements/Element.kt:33-37 | forwards to the CSSNode's flexDirection setter |
| Elements.SetWidthTwice | kansha-core/src/com/sumygg/kansha/elements/Element.kt:14-18 | setting the same width twice: the second call changes nothing and cannot fail |
| Images.Unsigned | kansha-core/src/com/sumygg/kansha/handler/image.kt:63 | `and 0xFF` gives the value in 0..255 congruent to the byte modulo 256, the byte itself when non-negative |
| Images.Find | kansha-core/src/com/sumygg/kansha/handler/image.kt:13-15 | the first entry with the mime type, and none exactly when no entry carries it |
| Images.FromMimeType | kansha-core/src/com/sumygg/kansha/handler/image.kt:3-17 | a found type carries the mime type; nothing is found exactly when no type carries it |
| Images.FromMimeTypeRoundTrip | kansha-core/src/com/sumygg/kansha/handler/image.kt:3-17 | every type is found again from its own mime type |
| Images.AllowedTypes | kansha-core/src/com/sumygg/kansha/handler/image.kt:76 | a type is allowed exactly when it is neither AVIF nor WebP |
| Images.ParsePng | kansha-core/src/com/sumygg/kansha/handler/image.kt:61-67 | succeeds exactly on arrays of at least 23 bytes, else reads past the end; width and height are in 0..255 |
| Images.PngReadsOneByteOfIhdr | kansha-core/src/com/sumygg/kansha/handler/image.kt:61-67 | width and height are the second-lowest byte of the big-endian IHDR fields at bytes 16-19 and 20-23 |
| Images.PngNarrowImage | kansha-core/src/com/sumygg/kansha/handler/image.kt:63 | a PNG whose IHDR width is 100 reads as width 0 |
| Images.ParsePngIhdr | kansha-core/src/com/sumygg/kansha/handler/image.kt:61-67 | the corrected reader: succeeds exactly on arrays of at least 24 bytes and reads both 32-bit fields whole |
| Images.PngIhdrRefines | kansha-core/src/com/sumygg/kansha/handler/image.kt:61-67 | the bytes parsePNG reads are the second-lowest bytes of what the corrected reader returns |
| Images.ParseGif | kansha-core/src/com/sumygg/kansha/handler/image.kt:50-59 | succeeds exactly on arrays of at least 10 bytes, else reads past the end |
| Images.GifFieldClosedForm | kansha-core/src/com/sumygg/kansha/handler/image.kt:51-52 | a negative low byte is sign-extended and covers the high byte, so the field is that byte; otherwise it is the low byte plus 256 times the signed high byte |
| Images.ByteWord | kansha-core/src/com/sumygg/kansha/handler/image.kt:51 | Kotlin's 32-bit `or` of a byte and a byte shifted left by 8 has that closed form |
| Images.GifAgreesBelow0x80 | kansha-core/src/com/sumygg/kansha/handler/image.kt:50-59 | when no size byte has its top bit set, both fields are the little-endian 16-bit values |
| Images.GifWideImage | kansha-core/src/com/sumygg/kansha/handler/image.kt:51 | a GIF 200 pixels wide reads as width -56 |
| Images.ParseGifUnsigned | kansha-core/src/com/sumygg/kansha/handler/image.kt:50-59 | the corrected reader: succeeds on arrays of at least 10 bytes with both fields in 0..65535 |
| Images.GifUnsignedRefines | kansha-core/src/com/sumygg/kansha/handler/image.kt:50-59 | the corrected reader agrees with parseGIF wherever no size byte has its top bit set |
| Images.SofMarkers | kansha-core/src/com/sumygg/kansha/handler/image.kt:35 | the three signed marker bytes are exactly the unsigned values 0xC0 to 0xC2 |
| Images.ScanJpeg | kansha-core/src/com/sumygg/kansha/handler/image.kt:25-48 | a successful scan returns the array and a width and height in 0..255 |
| Images.ParseJpegLoop | kansha-core/src/com/sumygg/kansha/handler/image.kt:25-48 | the loop returns what the recursive scan from offset 4 returns |
| Images.JpegSizeFromSof | kansha-core/src/com/sumygg/kansha/handler/image.kt:29-41 | a success stopped at a start-of-frame marker past the start: height is the byte 4 past it and width the byte 6 past it |
| Images.JpegWithoutSofFails | kansha-core/src/com/sumygg/kansha/handler/image.kt:29-47 | without a start-of-frame byte the scan always fails |
| Images.JpegLengthTooLarge | kansha-core/src/com/sumygg/kansha/handler/image.kt:31-33 | a segment length larger than the array is `Invalid JPEG data` |
| Images.ResolveImageSrc | kansha-core/src/com/sumygg/kansha/handler/image.kt:105-130 | never yields an image; a missing or blank source is "not provided", a source with neither prefix "not an absolute URL", and an http source reads past the end of an empty array |
| Images.PrefixedNotBlank | kansha-core/src/com/sumygg/kansha/handler/image.kt:106-113 | a source with an accepted prefix is never blank |
| Images.DataUriOutcome | kansha-core/src/com/sumygg/kansha/handler/image.kt:115-129 | a data URI fails in parseDataUri when the pattern does not match, and otherwise reads past the end of an empty array |

## Left out

- The simple-stacking fast path of Loop A (`isSimpleStackMain`,
  `isSimpleStackCross`, LayoutEngine.kt:428-439 and 639-690) is not
  modelled. It positions a prefix of the line early, and Loops C and D then
  start after that prefix. Here Loops C and D place every child of the line.
  That differs in result in one case: the main dimension is undefined,
  `justifyContent` is FLEX_END, SPACE_BETWEEN or SPACE_AROUND, and the
  content is negative (negative margins). The remaining space is then
  positive (LayoutEngine.kt:710-714), but the stacked prefix is placed
  without the leading space or the gaps (LayoutEngine.kt:659-667), which
  Loop C adds only from the first non-stacked child (LayoutEngine.kt:832-834).
  `MainPass.PositionLine` gives every child of the line both.
- The recursion of `layoutNodeImpl` over the tree is not modelled as one
  function. It is split instead:
  - `Engine.LayoutNode` takes the per-node layout (`LayoutImpl`) as a
    parameter;
  - the loops are modelled on the values they read;
  - the `maxWidth` handed to each recursive call (LayoutEngine.kt:586-607
    and 777-794) is not modelled.
- The leaf-measurement branch of `layoutNodeImpl`, which computes the
  width offered to the measure callback, is not modelled. `Nodes.Measure`
  models only the callback call itself, and the callback is a parameter.
- The intrusive lists `nextFlexChild` and `nextAbsoluteChild` are
  sequences of indices. The `alreadyComputedNextLayout` flag is not
  modelled, since it only skips a repeated recursive call.
- Float arithmetic is exact over the reals. Rounding, infinities and
  signed zero are not modelled. A division that would give an infinity is
  an error result, and every other NaN is `Undef`.
- Nullable enum settings in `CSSStyle` are not modelled: the style
  setters take non-null values. A Spacing type given as an out-of-range
  `Int` is not modelled either, because the type is an enumeration here.
- Float and Int formatting for the opacity attribute in `rect` is not
  modelled: the formatter is a parameter. `Int.toString()` is modelled.
- Elements.SetWidth, Elements.SetHeight: the getters (`styleWidth.toInt()`)
  are left out, because Float-to-Int conversion is not modelled.
- Images.ResolveImageSrc: `parseDataUri` and its regular expression are a
  parameter (`dataUriMatches`). The two empty branches that follow it have
  no effect.
- Kotlin's 32-bit `Int` range is not enforced outside the GIF reader,
  where `or` and `shl` are computed on 32-bit two's complement.
  Arithmetic on positions and sizes is unbounded.
- `toString` and `toStringWithIndentation` of `CSSNode` and `CSSLayout`
  are not modelled, because they are float rendering.
- `text.kt`, `View.kt`, `Image.kt`, `Text.kt` and `kansha.kt` are not part
  of this model. They are rendering glue and depend on members that
  `Element` does not declare.
- Lines.FlexMembers: the line-breaking flexible child ends up both in the
  flex list of the line it broke and at the start of the next line. The
  model includes it in both lists, but does not model the layout pass that
  runs on it twice.
- An absolute child that breaks a line, and is the last absolute child
  linked so far, is linked to itself when the next line starts
  (LayoutEngine.kt:453 and 491-492), so Loop G visits it twice
  (LayoutEngine.kt:1216-1218). The lists are not modelled as links, so the
  second visit is not modelled; `AbsolutePass.FinishStable` shows that it
  changes nothing.

## Findings

| source | as written | input that shows it | evidently intended | confidence | as-written member | corrected member |
|---|---|---|---|---|---|---|
| kansha-core/src/com/sumygg/kansha/handler/image.kt:61-67 | width and height are the single bytes 18 and 22 | a PNG whose IHDR width field (bytes 16-19) holds 100, with byte 19 = 100, reads as width 0 | width and height are the big-endian 32-bit IHDR fields at bytes 16-19 and 20-23 (section 11.2.2 of the PNG specification) | not executed | Images.PngNarrowImage | Images.ParsePngIhdr |
| kansha-core/src/com/sumygg/kansha/handler/image.kt:50-59 | each byte is sign-extended to Int before the `or` | a GIF 200 pixels wide (byte 6 = 0xC8, byte 7 = 0) reads as width -56 | the Logical Screen Width and Height are unsigned little-endian 16-bit numbers (section 18 of GIF89a) | not executed | Images.GifWideImage | Images.ParseGifUnsigned |
