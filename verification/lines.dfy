/**
 * The per-line main-axis arithmetic of layoutNodeImpl: Loop A's
 * classification of children and wrap segmentation, and Loop B's flex
 * distribution and justify offsets. Each child is given by its style and
 * by the layout dimensions its own (recursive) layout produced.
 */
module Lines {
  import opened Scalars
  import opened Wrappers
  import opened Layouts
  import opened Styles
  import opened Engine

  /** A child as Loop A sees it after its recursive layout. */
  datatype Child = Child(style: Style, size: Dims)

  predicate ValidChildren(cs: seq<Child>) {
    forall k :: 0 <= k < |cs| ==> Styles.Valid(cs[k].style)
  }

  /** The three kinds of children Loop A distinguishes. */
  datatype Kind = Flexible | Fixed | OutOfFlow  // OutOfFlow: absolutely positioned

  /**
   * A child is flexible only when the container's main dimension is
   * defined and the child is relative with a positive flex.
   */
  function KindOf(mainDefined: bool, st: Style): (k: Kind)
    ensures k.OutOfFlow? <==> st.positionType.Absolute?
    ensures k.Flexible? <==> mainDefined && st.positionType.Relative? && Gt(st.flex, ZERO)
  {
    if mainDefined && st.positionType.Relative? && Gt(st.flex, ZERO) then Flexible
    else if st.positionType.Relative? then Fixed
    else OutOfFlow
  }

  /**
   * nextContentDim: a flexible child counts its padding, border and margin
   * (its smallest possible size), a fixed child its laid-out size plus
   * margin, an absolute child nothing.
   */
  function Contribution(mainDefined: bool, c: Child, main: Axis): Scalar
    requires Styles.Valid(c.style)
  {
    match KindOf(mainDefined, c.style)
    case Flexible => Add(PaddingAndBorder(c.style, main), MarginAxis(c.style, main))
    case Fixed => Add(Dim(c.size, DimOf(main)), MarginAxis(c.style, main))
    case OutOfFlow => ZERO
  }

  function Contributions(mainDefined: bool, cs: seq<Child>, main: Axis): (r: seq<Scalar>)
    requires ValidChildren(cs)
    ensures |r| == |cs|
    ensures forall k :: 0 <= k < |cs| ==> r[k] == Contribution(mainDefined, cs[k], main)
  {
    seq(|cs|, k requires 0 <= k < |cs| => Contribution(mainDefined, cs[k], main))
  }

  /** The running sum `mainContentDim` over `s[a..b]`, accumulated left to right. */
  function Total(s: seq<Scalar>, a: nat, b: nat): Scalar
    requires a <= b <= |s|
    decreases b - a
  {
    if a == b then ZERO else Add(Total(s, a, b - 1), s[b - 1])
  }

  /** A sum of defined, non-negative terms is defined and non-negative. */
  lemma {:induction false} TotalNonNegative(s: seq<Scalar>, a: nat, b: nat)
    requires a <= b <= |s|
    requires forall k :: a <= k < b ==> s[k].Num? && s[k].v >= 0.0
    ensures Total(s, a, b).Num? && Total(s, a, b).v >= 0.0
    decreases b - a
  {
    if a < b {
      TotalNonNegative(s, a, b - 1);
    }
  }

  // ---------------------------------------------------------------------------
  // Wrap segmentation
  // ---------------------------------------------------------------------------

  /**
   * Loop A's scan from index `i` of the line that starts at `start`, with
   * `acc` the content accumulated so far. A child that is not first on its
   * line breaks the line when wrapping is on and the content plus its own
   * contribution exceeds the limit. `wrap` stands for "flexWrap is WRAP and
   * the main dimension is defined"; `limit` is definedMainDim.
   */
  function LineEnd(contrib: seq<Scalar>, start: nat, i: nat, acc: Scalar, wrap: bool, limit: Scalar): (e: nat)
    requires start <= i <= |contrib| && acc == Total(contrib, start, i)
    ensures i <= e <= |contrib|
    ensures i == start && start < |contrib| ==> start < e
    ensures forall m :: i < m <= e && m != start + 1 ==> !(wrap && Gt(Total(contrib, start, m), limit))
    ensures e < |contrib| ==> e != start && wrap && Gt(Total(contrib, start, e + 1), limit)
    ensures !wrap ==> e == |contrib|
    decreases |contrib| - i
  {
    if i == |contrib| then i
    else if wrap && Gt(Add(acc, contrib[i]), limit) && i != start then i
    else LineEnd(contrib, start, i + 1, Add(acc, contrib[i]), wrap, limit)
  }

  /** The endLine of every line, in order, for the lines from `start` on. */
  function Segment(contrib: seq<Scalar>, wrap: bool, limit: Scalar, start: nat): (ends: seq<nat>)
    requires start <= |contrib|
    ensures start == |contrib| <==> ends == []
    ensures ends != [] ==> ends[|ends| - 1] == |contrib|
    ensures forall k :: 0 <= k < |ends| ==> start < ends[k] <= |contrib|
    ensures forall j, k :: 0 <= j < k < |ends| ==> ends[j] < ends[k]
    decreases |contrib| - start
  {
    if start == |contrib| then []
    else
      var e := LineEnd(contrib, start, start, ZERO, wrap, limit);
      [e] + Segment(contrib, wrap, limit, e)
  }

  /** The start of line `k` of a segmentation beginning at `first`: `first`, or the end of the line before. */
  function LineStart(ends: seq<nat>, first: nat, k: nat): nat
    requires k < |ends|
  {
    if k == 0 then first else ends[k - 1]
  }

  /**
   * `ends` partitions `contrib[first..]` as Loop A does: every line is
   * non-empty, every child after the first on a line fits, and a line ends
   * early only because the next child overflows.
   */
  predicate Partition(contrib: seq<Scalar>, wrap: bool, limit: Scalar, first: nat, ends: seq<nat>)
    requires forall k :: 0 <= k < |ends| ==> first < ends[k] <= |contrib|
  {
    && (forall k :: 0 <= k < |ends| ==> LineStart(ends, first, k) < ends[k])
    && (forall k, m :: 0 <= k < |ends| && LineStart(ends, first, k) + 1 < m <= ends[k] ==>
          !(wrap && Gt(Total(contrib, LineStart(ends, first, k), m), limit)))
    && (forall k :: 0 <= k < |ends| && ends[k] < |contrib| ==>
          wrap && Gt(Total(contrib, LineStart(ends, first, k), ends[k] + 1), limit))
  }

  /** Lines are contiguous, cover all children, and each one is as Loop A closes it. */
  lemma {:induction false} SegmentPartitions(contrib: seq<Scalar>, wrap: bool, limit: Scalar, start: nat)
    requires start <= |contrib|
    ensures Partition(contrib, wrap, limit, start, Segment(contrib, wrap, limit, start))
    decreases |contrib| - start
  {
    if start < |contrib| {
      var e := LineEnd(contrib, start, start, ZERO, wrap, limit);
      SegmentPartitions(contrib, wrap, limit, e);
      PartitionCons(contrib, wrap, limit, start, e, Segment(contrib, wrap, limit, e));
    }
  }

  /** A first line closed by LineEnd, followed by a partition of the rest, is a partition. */
  lemma PartitionCons(contrib: seq<Scalar>, wrap: bool, limit: Scalar, start: nat, e: nat, rest: seq<nat>)
    requires start < |contrib| && e == LineEnd(contrib, start, start, ZERO, wrap, limit)
    requires forall k :: 0 <= k < |rest| ==> e < rest[k] <= |contrib|
    requires Partition(contrib, wrap, limit, e, rest)
    ensures forall k :: 0 <= k < |[e] + rest| ==> start < ([e] + rest)[k] <= |contrib|
    ensures Partition(contrib, wrap, limit, start, [e] + rest)
  {
    var ends := [e] + rest;
    forall k | 1 <= k < |ends|
      ensures ends[k] == rest[k - 1] && LineStart(ends, start, k) == LineStart(rest, e, k - 1)
    {
    }
  }

  /** Without wrapping (or without a defined main dimension) all children form one line. */
  lemma NoWrapOneLine(contrib: seq<Scalar>, limit: Scalar)
    requires |contrib| > 0
    ensures Segment(contrib, false, limit, 0) == [|contrib|]
  {
  }

  /** An undefined limit (no main dimension) never breaks a line either. */
  lemma UndefinedLimitOneLine(contrib: seq<Scalar>)
    requires |contrib| > 0
    ensures Segment(contrib, true, UNDEFINED, 0) == [|contrib|]
  {
    var e := LineEnd(contrib, 0, 0, ZERO, true, UNDEFINED);
    assert e == |contrib|;
  }

  // ---------------------------------------------------------------------------
  // Per-line counts
  // ---------------------------------------------------------------------------

  function KindsOf(mainDefined: bool, cs: seq<Child>): (r: seq<Kind>)
    ensures |r| == |cs|
    ensures forall k :: 0 <= k < |cs| ==> r[k] == KindOf(mainDefined, cs[k].style)
  {
    seq(|cs|, k requires 0 <= k < |cs| => KindOf(mainDefined, cs[k].style))
  }

  function Count(kinds: seq<Kind>, kind: Kind, a: nat, b: nat): (n: nat)
    requires a <= b <= |kinds|
    ensures n <= b - a
    decreases b - a
  {
    if a == b then 0 else Count(kinds, kind, a, b - 1) + (if kinds[b - 1] == kind then 1 else 0)
  }

  /** What Loop A has counted when the line [start, end) is closed. */
  datatype LineCounts = LineCounts(flexible: int, nonFlexible: int)

  /**
   * Loop A's counters for a line. The child that breaks the line has
   * already been classified when the break is detected: a flexible one has
   * been counted (and linked into the flex list), a fixed one has been
   * counted as non-flexible, and the break then decrements the
   * non-flexible count whatever the breaking child was.
   */
  function CountLine(kinds: seq<Kind>, start: nat, end: nat): (r: LineCounts)
    requires start <= end <= |kinds|
    ensures end == |kinds| ==> r == LineCounts(Count(kinds, Flexible, start, end), Count(kinds, Fixed, start, end))
    ensures end < |kinds| && kinds[end] == Fixed ==> r.nonFlexible == Count(kinds, Fixed, start, end)
    ensures end < |kinds| && kinds[end] != Fixed ==> r.nonFlexible == Count(kinds, Fixed, start, end) - 1
    ensures end < |kinds| ==> r.flexible == Count(kinds, Flexible, start, end + 1)
  {
    if end == |kinds| then LineCounts(Count(kinds, Flexible, start, end), Count(kinds, Fixed, start, end))
    else
      var brk := kinds[end];
      LineCounts(Count(kinds, Flexible, start, end) + (if brk == Flexible then 1 else 0),
                 Count(kinds, Fixed, start, end) + (if brk == Fixed then 1 else 0) - 1)
  }

  /** The indices Loop B lays out as flexible for the line [start, end): the breaking child included. */
  function FlexMembers(kinds: seq<Kind>, start: nat, end: nat): (r: seq<nat>)
    requires start <= end <= |kinds|
    ensures forall k :: 0 <= k < |r| ==> start <= r[k] <= end && r[k] < |kinds| && kinds[r[k]] == Flexible
    ensures end < |kinds| && kinds[end] == Flexible ==> |r| > 0 && r[|r| - 1] == end
    decreases end - start
  {
    var upto := if end < |kinds| then end + 1 else end;
    Members(kinds, start, upto)
  }

  function Members(kinds: seq<Kind>, a: nat, b: nat): (r: seq<nat>)
    requires a <= b <= |kinds|
    ensures |r| == Count(kinds, Flexible, a, b)
    ensures forall k :: 0 <= k < |r| ==> a <= r[k] < b && kinds[r[k]] == Flexible
    ensures b > a && kinds[b - 1] == Flexible ==> |r| > 0 && r[|r| - 1] == b - 1
    decreases b - a
  {
    if a == b then [] else Members(kinds, a, b - 1) + (if kinds[b - 1] == Flexible then [b - 1] else [])
  }

  /**
   * The line-breaking quirk: when the breaking child is flexible or
   * absolute, the decrement removes a child that was never counted, so the
   * line's non-flexible count is one short. A fixed child of width 20 and
   * an absolute child, with a limit of 10, give a first line holding one
   * fixed child and counted as holding none.
   */
  lemma BreakUndercounts()
    ensures var kinds := [Fixed, OutOfFlow];
            var contrib := [Num(20.0), ZERO];
            && Segment(contrib, true, Num(10.0), 0) == [1, 2]
            && Count(kinds, Fixed, 0, 1) == 1
            && CountLine(kinds, 0, 1).nonFlexible == 0
  {
    var contrib := [Num(20.0), ZERO];
    assert Total(contrib, 0, 2) == Num(20.0);
    var e := LineEnd(contrib, 0, 0, ZERO, true, Num(10.0));
    assert e == 1;
    assert LineEnd(contrib, 1, 1, ZERO, true, Num(10.0)) == 2;
  }

  // ---------------------------------------------------------------------------
  // Remaining space, flex distribution and justification
  // ---------------------------------------------------------------------------

  /**
   * remainingMainDim: the defined main size less the content, or, without
   * a main size, max(content, 0) - content.
   */
  function Remaining(mainDefined: bool, definedMainDim: Scalar, content: Scalar): (r: Scalar)
    ensures !mainDefined && content.Num? && content.v >= 0.0 ==> r == ZERO
    ensures !mainDefined && content.Num? && content.v < 0.0 ==> r == Num(-content.v)
    ensures mainDefined && definedMainDim.Num? && content.Num? ==> r == Num(definedMainDim.v - content.v)
    ensures content.Undef? ==> r.Undef?
  {
    if mainDefined then Sub(definedMainDim, content) else Sub(MaxOf(content, ZERO), content)
  }

  /**
   * What Loop B reads of a flexible child: its flex factor (positive, or
   * the child would not be flexible), its padding and border on the main
   * axis, and its main-axis bounds.
   */
  datatype Item = Item(flex: real, paddingAndBorder: Scalar, min: Scalar, max: Scalar)

  predicate FlexItems(items: seq<Item>) {
    forall k :: 0 <= k < |items| ==> items[k].flex > 0.0
  }

  /** boundAxis for an item. */
  function Bound(it: Item, v: Scalar): Scalar {
    Clamp(it.min, it.max, v)
  }

  function ItemOf(st: Style, main: Axis): (it: Item)
    requires Styles.Valid(st) && Gt(st.flex, ZERO)
    ensures it.flex > 0.0 && Num(it.flex) == st.flex
  {
    Item(st.flex.v, PaddingAndBorder(st, main), MinBound(st, main), MaxBound(st, main))
  }

  /** An item's bound is the child's boundAxis on the main axis, and its padding and border are the child's. */
  lemma ItemOfAgrees(st: Style, main: Axis, v: Scalar)
    requires Styles.Valid(st) && Gt(st.flex, ZERO)
    ensures Bound(ItemOf(st, main), v) == BoundAxis(st, main, v)
    ensures ItemOf(st, main).paddingAndBorder == PaddingAndBorder(st, main)
  {
  }

  /** The flexible children of a line (by index), as Loop B reads them, in order. */
  function LineItems(cs: seq<Child>, members: seq<nat>, main: Axis): (r: seq<Item>)
    requires ValidChildren(cs)
    requires forall k :: 0 <= k < |members| ==> members[k] < |cs| && Gt(cs[members[k]].style.flex, ZERO)
    ensures |r| == |members| && FlexItems(r)
    ensures forall k :: 0 <= k < |members| ==> r[k] == ItemOf(cs[members[k]].style, main)
  {
    seq(|members|, k requires 0 <= k < |members| => ItemOf(cs[members[k]].style, main))
  }

  /** totalFlexible: the line's flex factors added up. */
  function SumFlex(items: seq<Item>): real {
    if |items| == 0 then 0.0 else items[0].flex + SumFlex(items[1..])
  }

  lemma {:induction false} SumFlexPositive(items: seq<Item>)
    requires FlexItems(items) && |items| > 0
    ensures SumFlex(items) > 0.0
    decreases |items|
  {
    if |items| > 1 {
      SumFlexPositive(items[1..]);
    }
  }

  /** baseMainDim for a share: share * flex plus the child's own padding and border. */
  function BaseSize(it: Item, share: Scalar): Scalar {
    Add(Mul(share, Num(it.flex)), it.paddingAndBorder)
  }

  /** Whether boundAxis moves a child's base size (a raw `!=`, so an undefined base counts as moved). */
  predicate Clamped(it: Item, share: Scalar) {
    RawNe(BaseSize(it, share), Bound(it, BaseSize(it, share)))
  }

  /** The flex factors of the children a share leaves unclamped, added up. */
  function FreeFlex(items: seq<Item>, share: Scalar): real {
    if |items| == 0 then 0.0
    else (if Clamped(items[0], share) then 0.0 else items[0].flex) + FreeFlex(items[1..], share)
  }

  /** The unclamped flex lies between 0 and the total, and is 0 exactly when every child is clamped. */
  lemma {:induction false} FreeFlexBounds(items: seq<Item>, share: Scalar)
    requires FlexItems(items)
    ensures 0.0 <= FreeFlex(items, share) <= SumFlex(items)
    ensures FreeFlex(items, share) == 0.0 <==> forall k :: 0 <= k < |items| ==> Clamped(items[k], share)
    decreases |items|
  {
    if |items| > 0 {
      FreeFlexBounds(items[1..], share);
      assert forall k :: 1 <= k < |items| ==> items[1..][k - 1] == items[k];
    }
  }

  /** Loop B's removal pass state: remaining space and total flex still to share. */
  datatype Pool = Pool(remaining: Scalar, total: real)

  /**
   * The single removal pass: every child whose bound changes its base
   * size gives up its bounded size from the remaining space and its flex
   * from the total. The share is not recomputed during the pass.
   */
  function RemovalPass(items: seq<Item>, share: Scalar, pool: Pool): (r: Pool)
    ensures r.total == pool.total - SumFlex(items) + FreeFlex(items, share)
    ensures (forall k :: 0 <= k < |items| ==> !Clamped(items[k], share)) ==> r == pool
    decreases |items|
  {
    if |items| == 0 then pool
    else
      var it := items[0];
      var base := BaseSize(it, share);
      var bound := Bound(it, base);
      var next := if RawNe(base, bound) then Pool(Sub(pool.remaining, bound), pool.total - it.flex) else pool;
      RemovalPass(items[1..], share, next)
  }

  datatype LayoutError = DivisionByZero

  /** The first share: the remaining space over the line's total flex (positive, so never a division by zero). */
  function FirstShare(items: seq<Item>, remaining: Scalar): (r: Scalar)
    requires FlexItems(items) && |items| > 0
    ensures remaining.Undef? <==> r.Undef?
    ensures remaining.Num? ==> r.v * SumFlex(items) == remaining.v
  {
    SumFlexPositive(items);
    Div(remaining, Num(SumFlex(items)))
  }

  /**
   * flexibleMainDim after the removal pass, floored at 0. When every child
   * was clamped the total is 0 and IEEE division gives a NaN (0/0), which
   * the floor keeps, or an infinity: a negative one is floored at 0, and a
   * positive one cannot be represented and is an error here.
   */
  function SecondShare(pool: Pool): (r: Result<Scalar, LayoutError>)
    ensures r.Err? <==> pool.total == 0.0 && pool.remaining.Num? && pool.remaining.v > 0.0
    ensures r.Ok? ==> r.value.Undef? || r.value.v >= 0.0
    ensures r.Ok? && r.value.Undef? <==> pool.remaining.Undef? || (pool.total == 0.0 && pool.remaining == ZERO)
    ensures pool.total != 0.0 && pool.remaining.Num? ==>
              r.Ok? && r.value.v * pool.total == (if pool.remaining.v / pool.total < 0.0 then 0.0 else pool.remaining.v)
  {
    if pool.remaining.Undef? then Ok(UNDEFINED)
    else if pool.total != 0.0 then
      var q := pool.remaining.v / pool.total;
      Ok(if q < 0.0 then ZERO else Num(q))
    else if pool.remaining.v < 0.0 then Ok(ZERO)
    else if pool.remaining.v == 0.0 then Ok(UNDEFINED)
    else Err(DivisionByZero)
  }

  /** Each flexible child's main size at a share: its base size, bounded. */
  function Sizes(items: seq<Item>, share: Scalar): (r: seq<Scalar>)
    ensures |r| == |items|
    ensures forall k :: 0 <= k < |items| ==> r[k] == Bound(items[k], BaseSize(items[k], share))
  {
    if |items| == 0 then [] else [Bound(items[0], BaseSize(items[0], share))] + Sizes(items[1..], share)
  }

  /** Loop B's outcome for the flexible children: the final share and each child's main size. */
  datatype Distribution = Distribution(share: Scalar, sizes: seq<Scalar>)

  /**
   * Loop B with flexible children: the share is the remaining space over
   * the total flex, recomputed once after the removal pass and floored at
   * 0; each child's main size is its bounded base size at that share.
   */
  function Distribute(items: seq<Item>, remaining: Scalar): (r: Result<Distribution, LayoutError>)
    requires FlexItems(items) && |items| > 0
    ensures r.Err? <==>
              && (forall k :: 0 <= k < |items| ==> Clamped(items[k], FirstShare(items, remaining)))
              && RemovalPass(items, FirstShare(items, remaining), Pool(remaining, SumFlex(items))).remaining.Num?
              && RemovalPass(items, FirstShare(items, remaining), Pool(remaining, SumFlex(items))).remaining.v > 0.0
    ensures r.Ok? ==> r.value.share.Undef? || r.value.share.v >= 0.0
    ensures r.Ok? ==> |r.value.sizes| == |items|
    ensures r.Ok? ==> forall k :: 0 <= k < |items| ==>
              r.value.sizes[k] == Bound(items[k], BaseSize(items[k], r.value.share))
  {
    var share0 := FirstShare(items, remaining);
    var pool := RemovalPass(items, share0, Pool(remaining, SumFlex(items)));
    FreeFlexBounds(items, share0);
    var share :- SecondShare(pool);
    Ok(Distribution(share, Sizes(items, share)))
  }

  /** Sum of the padding and border of a line's flexible children. */
  function SumPaddingAndBorder(items: seq<Item>): Scalar {
    if |items| == 0 then ZERO else Add(items[0].paddingAndBorder, SumPaddingAndBorder(items[1..]))
  }

  function SumSizes(s: seq<Scalar>): Scalar {
    if |s| == 0 then ZERO else Add(s[0], SumSizes(s[1..]))
  }

  /** Unclamped sizes add up to share * total flex plus the padding and border. */
  lemma {:induction false} SizesSum(items: seq<Item>, share: Scalar)
    requires share.Num?
    requires forall k :: 0 <= k < |items| ==> items[k].paddingAndBorder.Num? && !Clamped(items[k], share)
    ensures SumPaddingAndBorder(items).Num?
    ensures SumSizes(Sizes(items, share)) == Num(share.v * SumFlex(items) + SumPaddingAndBorder(items).v)
    decreases |items|
  {
    if |items| > 0 {
      var rest := items[1..];
      SizesSum(rest, share);
      assert Sizes(items, share)[1..] == Sizes(rest, share);
      assert Sizes(items, share)[0] == BaseSize(items[0], share);
      assert share.v * SumFlex(items) == share.v * items[0].flex + share.v * SumFlex(rest);
    }
  }

  /**
   * When no bound interferes and the content fits, the flexible children
   * exactly fill the remaining space: their sizes add up to the remaining
   * space plus their own padding and border.
   */
  lemma {:induction false} DistributeConserves(items: seq<Item>, remaining: Scalar)
    requires FlexItems(items) && |items| > 0
    requires remaining.Num? && remaining.v >= 0.0
    requires forall k :: 0 <= k < |items| ==> items[k].paddingAndBorder.Num?
    requires forall k :: 0 <= k < |items| ==> !Clamped(items[k], FirstShare(items, remaining))
    ensures Distribute(items, remaining).Ok?
    ensures Distribute(items, remaining).value.share == FirstShare(items, remaining)
    ensures SumSizes(Distribute(items, remaining).value.sizes) == Add(remaining, SumPaddingAndBorder(items))
  {
    var share0 := FirstShare(items, remaining);
    UnclampedDistribution(items, remaining);
    SizesSum(items, share0);
  }

  /** With no child clamped, the removal pass changes nothing and the second share equals the first. */
  lemma UnclampedDistribution(items: seq<Item>, remaining: Scalar)
    requires FlexItems(items) && |items| > 0
    requires remaining.Num? && remaining.v >= 0.0
    requires forall k :: 0 <= k < |items| ==> !Clamped(items[k], FirstShare(items, remaining))
    ensures Distribute(items, remaining) == Ok(Distribution(FirstShare(items, remaining), Sizes(items, FirstShare(items, remaining))))
  {
    var share0 := FirstShare(items, remaining);
    var pool := Pool(remaining, SumFlex(items));
    assert RemovalPass(items, share0, pool) == pool;
    SumFlexPositive(items);
    assert remaining.v / SumFlex(items) >= 0.0;
    assert SecondShare(pool) == Ok(share0);
  }

  /**
   * Two unclamped flexible children receive flex space in proportion to
   * their flex factors, whatever the share (Distribute sizes its children
   * with Sizes at its final share).
   */
  lemma {:induction false} SizesProportional(items: seq<Item>, share: Scalar, i: nat, j: nat)
    requires i < |items| && j < |items| && share.Num?
    requires items[i].paddingAndBorder.Num? && items[j].paddingAndBorder.Num?
    requires !Clamped(items[i], share) && !Clamped(items[j], share)
    ensures Sizes(items, share)[i].Num? && Sizes(items, share)[j].Num?
    ensures Proportional(Sizes(items, share)[i].v - items[i].paddingAndBorder.v, items[i].flex,
                         Sizes(items, share)[j].v - items[j].paddingAndBorder.v, items[j].flex)
  {
    PairProportional(items[i], items[j], share, Sizes(items, share)[i], Sizes(items, share)[j]);
  }

  lemma PairProportional(a: Item, b: Item, share: Scalar, sa: Scalar, sb: Scalar)
    requires share.Num? && a.paddingAndBorder.Num? && b.paddingAndBorder.Num?
    requires !Clamped(a, share) && !Clamped(b, share)
    requires sa == Bound(a, BaseSize(a, share)) && sb == Bound(b, BaseSize(b, share))
    ensures sa.Num? && sb.Num?
    ensures Proportional(sa.v - a.paddingAndBorder.v, a.flex, sb.v - b.paddingAndBorder.v, b.flex)
  {
    UnclampedSize(a, share, sa);
    UnclampedSize(b, share, sb);
    CrossMultiply(sa.v - a.paddingAndBorder.v, sb.v - b.paddingAndBorder.v, share.v, a.flex, b.flex);
  }

  /** An unclamped child's size is exactly share * flex plus its padding and border. */
  lemma UnclampedSize(it: Item, share: Scalar, size: Scalar)
    requires share.Num? && it.paddingAndBorder.Num? && !Clamped(it, share)
    requires size == Bound(it, BaseSize(it, share))
    ensures size.Num? && size.v - it.paddingAndBorder.v == share.v * it.flex
  {
  }

  /** `a : fa == b : fb`, written without division. */
  predicate Proportional(a: real, fa: real, b: real, fb: real) {
    a * fb == b * fa
  }

  lemma CrossMultiply(a: real, b: real, share: real, fi: real, fj: real)
    requires a == share * fi && b == share * fj
    ensures Proportional(a, fi, b, fj)
  {
  }

  /**
   * When the fixed children overflow and no bound interferes, the share is
   * floored at 0 and each flexible child is reduced to its padding and
   * border (unless that size is itself clamped).
   */
  lemma {:induction false} OverflowGivesNoFlexSpace(items: seq<Item>, remaining: Scalar, k: nat)
    requires FlexItems(items) && |items| > 0 && k < |items|
    requires remaining.Num? && remaining.v < 0.0
    requires forall m :: 0 <= m < |items| ==> !Clamped(items[m], FirstShare(items, remaining))
    requires items[k].paddingAndBorder.Num? && !Clamped(items[k], ZERO)
    ensures Distribute(items, remaining).Ok?
    ensures Distribute(items, remaining).value.share == ZERO
    ensures Distribute(items, remaining).value.sizes[k] == items[k].paddingAndBorder
  {
    SumFlexPositive(items);
    FreeFlexBounds(items, FirstShare(items, remaining));
    assert remaining.v / SumFlex(items) < 0.0;
  }

  /**
   * A single child whose min bound exceeds the whole remaining space is
   * clamped, its bound is larger than the space it gave up, and the
   * negative infinity of the second division is floored to a share of 0.
   */
  lemma ClampedAllFloorsShare()
    ensures var items := [Item(1.0, ZERO, Num(50.0), UNDEFINED)];
            && Clamped(items[0], FirstShare(items, Num(10.0)))
            && Distribute(items, Num(10.0)) == Ok(Distribution(ZERO, [Num(50.0)]))
  {
    var items := [Item(1.0, ZERO, Num(50.0), UNDEFINED)];
    assert items[1..] == [];
    assert SumFlex(items) == 1.0;
    assert FirstShare(items, Num(10.0)) == Num(10.0);
    assert Sizes(items, ZERO) == [Num(50.0)];
  }

  /** The justify offsets: space before the first child and between consecutive children. */
  datatype Spread = Spread(leading: Scalar, between: Scalar)

  /**
   * Loop B without flexible children: how justifyContent spends the
   * remaining space over the line's `n` counted children. SPACE_AROUND over
   * zero children divides by 0: 0/0 is a NaN, and a non-zero remaining
   * space gives an infinity, which is an error here.
   */
  function JustifySpread(j: Justify, remaining: Scalar, n: int): (r: Result<Spread, LayoutError>)
    ensures r.Err? <==> j == SpaceAround && n == 0 && remaining.Num? && remaining.v != 0.0
    ensures j == SpaceAround && n == 0 && r.Ok? ==> r.value == Spread(UNDEFINED, UNDEFINED)
    ensures j == JustifyFlexStart ==> r == Ok(Spread(ZERO, ZERO))
    ensures j == JustifyCenter ==> r.Ok? && r.value.between == ZERO && (remaining.Num? ==> r.value.leading == Num(remaining.v / 2.0))
    ensures j == JustifyFlexEnd ==> r == Ok(Spread(remaining, ZERO))
    ensures j == SpaceBetween ==> r.Ok? && r.value.leading == ZERO
    ensures j == SpaceBetween && n == 1 ==> r.value.between == ZERO
    ensures j == SpaceBetween && remaining.Num? && n != 1 ==>
              r.value.between == Num((if remaining.v >= 0.0 then remaining.v else 0.0) / (n - 1) as real)
    ensures j == SpaceAround && n != 0 && remaining.Num? ==>
              r.value.between == Num(remaining.v / n as real) && r.value.leading == Num(remaining.v / n as real / 2.0)
  {
    match j
    case JustifyFlexStart => Ok(Spread(ZERO, ZERO))
    case JustifyCenter => Ok(Spread(Div(remaining, Num(2.0)), ZERO))
    case JustifyFlexEnd => Ok(Spread(remaining, ZERO))
    case SpaceBetween =>
      var rem := MaxOf(remaining, ZERO);
      if n - 1 != 0 then Ok(Spread(ZERO, Div(rem, Num((n - 1) as real)))) else Ok(Spread(ZERO, ZERO))
    case SpaceAround =>
      if n == 0 && remaining.Num? then
        if remaining.v == 0.0 then Ok(Spread(UNDEFINED, UNDEFINED)) else Err(DivisionByZero)
      else
        var between := Div(remaining, Num(n as real));
        Ok(Spread(Div(between, Num(2.0)), between))
  }

  /** The space left after the last of `n` children once leading and between offsets are spent. */
  function TrailingSpace(remaining: real, n: nat, s: Spread): real
    requires s.leading.Num? && s.between.Num?
  {
    remaining - s.leading.v - (if n == 0 then 0.0 else (n - 1) as real * s.between.v)
  }

  /**
   * How justification places a line inside the free space: FLEX_START
   * leaves it all at the end, FLEX_END all at the start, CENTER splits it
   * evenly, SPACE_BETWEEN (with two or more children and no overflow) makes
   * both ends flush, and SPACE_AROUND leaves half a gap at each end.
   */
  lemma JustifyPlacesLine(j: Justify, remaining: real, n: nat)
    requires n > 0
    ensures var s := JustifySpread(j, Num(remaining), n).value;
            s.leading.Num? && s.between.Num?
    ensures var s := JustifySpread(j, Num(remaining), n).value;
            && (j == JustifyFlexStart ==> s.leading.v == 0.0 && TrailingSpace(remaining, n, s) == remaining)
            && (j == JustifyFlexEnd ==> TrailingSpace(remaining, n, s) == 0.0)
            && (j == JustifyCenter ==> TrailingSpace(remaining, n, s) == s.leading.v)
            && (j == SpaceBetween && n >= 2 && remaining >= 0.0 ==> s.leading.v == 0.0 && TrailingSpace(remaining, n, s) == 0.0)
            && (j == SpaceAround ==> TrailingSpace(remaining, n, s) == s.leading.v && s.leading.v * 2.0 == s.between.v)
  {
    var s := JustifySpread(j, Num(remaining), n).value;
    if j == SpaceBetween && n >= 2 && remaining >= 0.0 {
      assert s.between.v * (n - 1) as real == remaining;
    }
    if j == SpaceAround {
      assert s.between.v * n as real == remaining;
    }
  }

  /**
   * A line holding only absolute children, justified SPACE_AROUND, divides
   * by zero: any non-zero remaining space gives an infinity.
   */
  lemma AbsoluteOnlyLineSpaceAround(remaining: real)
    requires remaining != 0.0
    ensures JustifySpread(SpaceAround, Num(remaining), CountLine([OutOfFlow, OutOfFlow], 0, 2).nonFlexible).Err?
  {
  }
}
