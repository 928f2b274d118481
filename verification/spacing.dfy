/**
 * Spacing: nine margin/padding/border slots, a bitmask of explicitly set
 * slots, a cached "some alias is set" bit and a lazily created array of
 * defaults. `Get` resolves edge -> VERTICAL/HORIZONTAL -> ALL -> default.
 */
module Spacings {
  import opened Scalars
  import opened Wrappers

  /** The companion constants LEFT = 0 .. ALL = 8. */
  datatype SpacingType = Left | Top | Right | Bottom | Vertical | Horizontal | Start | End | All

  const SLOTS: nat := 9

  function Index(t: SpacingType): (i: nat)
    ensures i < SLOTS
  {
    match t
    case Left => 0
    case Top => 1
    case Right => 2
    case Bottom => 3
    case Vertical => 4
    case Horizontal => 5
    case Start => 6
    case End => 7
    case All => 8
  }

  /** sFlagsMap: one bit per slot, bit i for slot i. */
  function FlagOf(t: SpacingType): bv32 {
    match t
    case Left => 1
    case Top => 2
    case Right => 4
    case Bottom => 8
    case Vertical => 16
    case Horizontal => 32
    case Start => 64
    case End => 128
    case All => 256
  }

  datatype Spacing = Spacing(
    spacing: seq<Scalar>,           // mSpacing
    defaults: Option<seq<Scalar>>,  // mDefaultSpacing, null until setDefault
    valueFlags: bv32,               // mValueFlags
    hasAliasesSet: bool             // mHasAliasesSet
  )

  /** Structural shape: nine slots, and nine defaults once created. */
  predicate Shaped(s: Spacing) {
    |s.spacing| == SLOTS && (s.defaults.Some? ==> |s.defaults.value| == SLOTS)
  }

  /** True iff slot `t`'s flag is raised. */
  predicate Flagged(flags: bv32, t: SpacingType) {
    flags & FlagOf(t) != 0
  }

  /** The alias bit the class caches, computed from the flags. */
  predicate AliasFlagged(flags: bv32) {
    Flagged(flags, All) || Flagged(flags, Vertical) || Flagged(flags, Horizontal)
  }

  /** Representation invariant: the cached alias bit agrees with the flags. */
  predicate Valid(s: Spacing) {
    Shaped(s) && (s.hasAliasesSet <==> AliasFlagged(s.valueFlags))
  }

  /** newFullSpacingArray: every slot undefined. */
  function FullSpacingArray(): (a: seq<Scalar>)
    ensures |a| == SLOTS
  {
    seq(SLOTS, _ => UNDEFINED)
  }

  /** newSpacingResultArray(0f): zero everywhere except START and END. */
  function SpacingResultArray(): (a: seq<Scalar>)
    ensures |a| == SLOTS
  {
    seq(SLOTS, i => if i == Index(Start) || i == Index(End) then UNDEFINED else ZERO)
  }

  /** A freshly constructed Spacing; `reset` restores exactly this state. */
  function NewSpacing(): (s: Spacing)
    ensures Valid(s)
  {
    Spacing(FullSpacingArray(), None, 0, false)
  }

  /** Spacing.reset: the state does not depend on what was there before. */
  function Reset(s: Spacing): (r: Spacing)
    ensures r == NewSpacing()
    ensures Valid(r) && r.valueFlags == 0 && r.defaults.None?
    ensures forall t :: GetRaw(r, t) == UNDEFINED
  {
    Spacing(FullSpacingArray(), None, 0, false)
  }

  /** Spacing.getRaw. */
  function GetRaw(s: Spacing, t: SpacingType): Scalar
    requires Shaped(s)
  {
    s.spacing[Index(t)]
  }

  /** The value `get` falls back to when nothing is flagged for `t`. */
  function DefaultValue(s: Spacing, t: SpacingType): Scalar
    requires Shaped(s)
  {
    if s.defaults.Some? then s.defaults.value[Index(t)]
    else if t == Start || t == End then UNDEFINED
    else ZERO
  }

  /** The axis-pair alias consulted second: VERTICAL for TOP/BOTTOM, HORIZONTAL for every other type. */
  function SecondType(t: SpacingType): SpacingType {
    if t == Top || t == Bottom then Vertical else Horizontal
  }

  /** Spacing.get, with its two shortcuts (no flags at all, no alias set). */
  function Get(s: Spacing, t: SpacingType): Scalar
    requires Shaped(s)
  {
    var defaultValue := DefaultValue(s, t);
    if s.valueFlags == 0 then defaultValue
    else if Flagged(s.valueFlags, t) then s.spacing[Index(t)]
    else if s.hasAliasesSet && Flagged(s.valueFlags, SecondType(t)) then s.spacing[Index(SecondType(t))]
    else if s.hasAliasesSet && Flagged(s.valueFlags, All) then s.spacing[Index(All)]
    else defaultValue
  }

  /**
   * Reference definition of the fallback chain, without the shortcuts:
   * the slot itself, then its axis pair, then ALL, then the default.
   */
  function Chain(s: Spacing, t: SpacingType): Scalar
    requires Shaped(s)
  {
    if Flagged(s.valueFlags, t) then GetRaw(s, t)
    else if Flagged(s.valueFlags, SecondType(t)) then GetRaw(s, SecondType(t))
    else if Flagged(s.valueFlags, All) then GetRaw(s, All)
    else DefaultValue(s, t)
  }

  /** Spacing.getWithFallback. */
  function GetWithFallback(s: Spacing, t: SpacingType, fallback: SpacingType): (r: Scalar)
    requires Shaped(s)
    ensures Flagged(s.valueFlags, t) ==> r == Get(s, t)
    ensures !Flagged(s.valueFlags, t) ==> r == Get(s, fallback)
  {
    if Flagged(s.valueFlags, t) then s.spacing[Index(t)] else Get(s, fallback)
  }

  /** Result of a mutating call that reports whether anything changed. */
  datatype Update = Update(spacing: Spacing, changed: bool)

  /** Raising one slot's bit leaves every other slot's bit as it was. */
  lemma RaiseFlag(flags: bv32, t: SpacingType, u: SpacingType)
    ensures Flagged(flags | FlagOf(t), u) <==> u == t || Flagged(flags, u)
  {
    FlagsDistinct(t, u);
    RaiseMask(flags, FlagOf(t), FlagOf(u));
  }

  /** Clearing one slot's bit leaves every other slot's bit as it was. */
  lemma ClearFlag(flags: bv32, t: SpacingType, u: SpacingType)
    ensures Flagged(flags & !FlagOf(t), u) <==> u != t && Flagged(flags, u)
  {
    if t == u {
      ClearSameMask(flags, FlagOf(t));
    } else {
      FlagsDistinct(t, u);
      ClearOtherMask(flags, FlagOf(t), FlagOf(u));
    }
  }

  // The two bit identities behind RaiseFlag and ClearFlag, stated on plain
  // masks so that the solver need not case-split on the slot types.
  lemma RaiseMask(flags: bv32, a: bv32, b: bv32)
    ensures ((flags | a) & b != 0) == (a & b != 0 || flags & b != 0)
  {
  }

  lemma ClearSameMask(flags: bv32, a: bv32)
    ensures (flags & !a) & a == 0
  {
  }

  lemma ClearOtherMask(flags: bv32, a: bv32, b: bv32)
    requires a & b == 0
    ensures ((flags & !a) & b != 0) == (flags & b != 0)
  {
  }

  /** The flag update inside Spacing.set: clear the bit for an undefined value, raise it otherwise. */
  function UpdateFlags(flags: bv32, t: SpacingType, value: Scalar): (r: bv32)
    ensures forall u :: Flagged(r, u) <==> if u == t then !IsUndefined(value) else Flagged(flags, u)
  {
    if IsUndefined(value) then
      // Dead: isUndefined compares with `==` against NaN and is never true.
      flags & !FlagOf(t)
    else
      assert forall u :: Flagged(flags | FlagOf(t), u) <==> u == t || Flagged(flags, u) by {
        forall u ensures Flagged(flags | FlagOf(t), u) <==> u == t || Flagged(flags, u) {
          RaiseFlag(flags, t, u);
        }
      }
      flags | FlagOf(t)
  }

  /** Spacing.set. */
  function Set(s: Spacing, t: SpacingType, value: Scalar): (r: Update)
    requires Shaped(s)
    ensures Shaped(r.spacing)
    ensures r.changed <==> !FloatsEqual(GetRaw(s, t), value)
    ensures !r.changed ==> r.spacing == s
    ensures r.changed ==> Valid(r.spacing)
    ensures r.changed ==> GetRaw(r.spacing, t) == value && Flagged(r.spacing.valueFlags, t)
    ensures forall u :: u != t ==> GetRaw(r.spacing, u) == GetRaw(s, u)
    ensures forall u :: u != t ==> (Flagged(r.spacing.valueFlags, u) <==> Flagged(s.valueFlags, u))
    ensures r.spacing.defaults == s.defaults
  {
    if !FloatsEqual(s.spacing[Index(t)], value) then
      var flags := UpdateFlags(s.valueFlags, t, value);
      StoreKeepsOthers(s, t, value);
      StoreFlags(s.valueFlags, t, value);
      Update(Spacing(s.spacing[Index(t) := value], s.defaults, flags, AliasFlagged(flags)), true)
    else
      Update(s, false)
  }

  /** Storing a value raises its slot's flag, since isUndefined never holds, and leaves the other flags alone. */
  lemma StoreFlags(flags: bv32, t: SpacingType, value: Scalar)
    ensures Flagged(UpdateFlags(flags, t, value), t)
    ensures forall u :: u != t ==> (Flagged(UpdateFlags(flags, t, value), u) <==> Flagged(flags, u))
  {
    IsUndefinedNeverHolds(value);
  }

  /** Writing one slot leaves the raw value of every other slot as it was. */
  lemma StoreKeepsOthers(s: Spacing, t: SpacingType, value: Scalar)
    requires Shaped(s)
    ensures forall u :: u != t ==> s.spacing[Index(t) := value][Index(u)] == GetRaw(s, u)
  {
    forall u | u != t ensures s.spacing[Index(t) := value][Index(u)] == GetRaw(s, u) {
      IndexInjective(u, t);
    }
  }

  /** Spacing.setDefault: creates the default array on first use, even when it then reports no change. */
  function SetDefault(s: Spacing, t: SpacingType, value: Scalar): (r: Update)
    requires Shaped(s)
    ensures Shaped(r.spacing) && r.spacing.defaults.Some?
    ensures r.spacing.spacing == s.spacing && r.spacing.valueFlags == s.valueFlags
    ensures r.spacing.hasAliasesSet == s.hasAliasesSet
    ensures var before := if s.defaults.Some? then s.defaults.value[Index(t)] else SpacingResultArray()[Index(t)];
            && (r.changed <==> !FloatsEqual(before, value))
            && r.spacing.defaults.value[Index(t)] == (if r.changed then value else before)
    ensures forall u :: u != t ==>
              r.spacing.defaults.value[Index(u)] ==
              (if s.defaults.Some? then s.defaults.value[Index(u)] else SpacingResultArray()[Index(u)])
  {
    var d := if s.defaults.Some? then s.defaults.value else SpacingResultArray();
    if !FloatsEqual(d[Index(t)], value) then
      Update(s.(defaults := Some(d[Index(t) := value])), true)
    else
      Update(s.(defaults := Some(d)), false)
  }

  // ---------------------------------------------------------------------------
  // Properties
  // ---------------------------------------------------------------------------

  lemma IndexInjective(t: SpacingType, u: SpacingType)
    ensures Index(t) == Index(u) <==> t == u
  {
  }

  /** Distinct slots own distinct flag bits. */
  lemma FlagsDistinct(t: SpacingType, u: SpacingType)
    ensures FlagOf(t) & FlagOf(u) != 0 <==> t == u
  {
  }

  /** A fresh Spacing has no flag raised. */
  lemma FreshUnflagged(t: SpacingType)
    ensures !Flagged(NewSpacing().valueFlags, t)
  {
  }

  /** With no flags and no defaults, `get` is 0 except for START and END, which are undefined. */
  lemma FreshGet(t: SpacingType)
    ensures Get(NewSpacing(), t) == (if t == Start || t == End then UNDEFINED else ZERO)
  {
  }

  /** Set keeps the representation invariant. */
  lemma SetKeepsValid(s: Spacing, t: SpacingType, value: Scalar)
    requires Valid(s)
    ensures Valid(Set(s, t, value).spacing)
  {
  }

  /** A successful set raises the flag even for UNDEFINED, since isUndefined is never true. */
  lemma SetUndefinedRaisesFlag(s: Spacing, t: SpacingType)
    requires Shaped(s) && GetRaw(s, t).Num?
    ensures Set(s, t, UNDEFINED).changed
    ensures Flagged(Set(s, t, UNDEFINED).spacing.valueFlags, t)
    ensures Get(Set(s, t, UNDEFINED).spacing, t) == UNDEFINED
  {
  }

  /** Setting UNDEFINED into a slot that still holds the sentinel is a no-op: the flag stays down. */
  lemma SetUndefinedOnFreshSlotIsNoop(t: SpacingType)
    ensures !Set(NewSpacing(), t, UNDEFINED).changed
    ensures Get(Set(NewSpacing(), t, UNDEFINED).spacing, t) == Get(NewSpacing(), t)
  {
  }

  /** A flagged slot reads back its stored value. */
  lemma GetFlagged(s: Spacing, t: SpacingType)
    requires Shaped(s) && Flagged(s.valueFlags, t)
    ensures Get(s, t) == GetRaw(s, t)
  {
  }

  /** Under the invariant, `get` with its shortcuts equals the plain fallback chain. */
  lemma GetIsChain(s: Spacing, t: SpacingType)
    requires Valid(s)
    ensures Get(s, t) == Chain(s, t)
  {
    if s.valueFlags == 0 {
      assert !Flagged(s.valueFlags, t);
      assert !Flagged(s.valueFlags, SecondType(t));
      assert !Flagged(s.valueFlags, All);
    }
  }

  /** Set followed by get: a reported change is visible through `get`. */
  lemma SetThenGet(s: Spacing, t: SpacingType, value: Scalar)
    requires Valid(s)
    ensures var r := Set(s, t, value);
            r.changed ==> Get(r.spacing, t) == value
    ensures var r := Set(s, t, value);
            !r.changed && Flagged(s.valueFlags, t) ==> FloatsEqual(Get(r.spacing, t), value)
  {
  }

  /** Setting one edge leaves the resolved value of an unrelated, flagged edge alone. */
  lemma SetOtherFlaggedUnchanged(s: Spacing, t: SpacingType, u: SpacingType, value: Scalar)
    requires Valid(s) && u != t && Flagged(s.valueFlags, u)
    ensures Get(Set(s, t, value).spacing, u) == Get(s, u)
  {
  }

  /** getWithFallback: the explicit value when the slot is set, else `get(fallback)`. */
  lemma GetWithFallbackSpec(s: Spacing, t: SpacingType, fallback: SpacingType)
    requires Valid(s)
    ensures GetWithFallback(s, t, fallback) ==
            (if Flagged(s.valueFlags, t) then GetRaw(s, t) else Chain(s, fallback))
  {
    GetIsChain(s, fallback);
  }

  /** setDefault never changes what an explicitly flagged slot resolves to. */
  lemma SetDefaultKeepsFlagged(s: Spacing, t: SpacingType, u: SpacingType, value: Scalar)
    requires Valid(s) && Flagged(s.valueFlags, u)
    ensures Valid(SetDefault(s, t, value).spacing)
    ensures Get(SetDefault(s, t, value).spacing, u) == Get(s, u)
  {
  }

  /** Reset is idempotent and forgets every explicit value. */
  lemma ResetForgets(s: Spacing, t: SpacingType)
    ensures Reset(Reset(s)) == Reset(s)
    ensures Get(Reset(s), t) == Get(NewSpacing(), t)
  {
  }
}
