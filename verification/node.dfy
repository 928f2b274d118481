/**
 * CSSNode as an arena: a map from node ids to node records, each with an
 * optional parent id and an ordered sequence of child ids. A Kotlin
 * exception thrown after some fields were already written is modelled as a
 * `Step` carrying the partially updated arena and a `Failed` status.
 */
module Nodes {
  import opened Scalars
  import opened Wrappers
  import opened Layouts
  import opened Styles
  import Spacings

  type NodeId = nat

  /** Identity of a MeasureFunction object (the setter compares references). */
  type MeasureId = nat

  /** CSSNode.LayoutState. */
  datatype LayoutState = Dirty | HasNewLayout | UpToDate

  /** MeasureOutput: the callback's scratch result. */
  datatype MeasureOutput = MeasureOutput(width: Scalar, height: Scalar)

  datatype Node = Node(
    style: Style,
    layout: Layout,
    lastLayout: CachedLayout,
    lineIndex: int,
    children: seq<NodeId>,
    hasChildList: bool,       // whether mChildren was ever allocated (it starts null)
    parent: Option<NodeId>,
    measure: Option<MeasureId>,
    state: LayoutState
  )

  type Tree = map<NodeId, Node>

  /** The exceptions CSSNode throws. */
  datatype Error =
    | AlreadyHasParent        // addChildAt: "Child already has a parent"
    | ChildIndexOutOfBounds   // ArrayList.add / removeAt with a bad index
    | NullChildList           // removeChildAt before any child list was allocated
    | PreviousLayoutIgnored   // dirty() on HAS_NEW_LAYOUT
    | NoNewLayout             // markLayoutSeen() outside HAS_NEW_LAYOUT
    | ResetAttached           // reset() on an attached node
    | MeasureUndefined        // measure() without a measure function

  datatype Status = Done | Failed(error: Error)

  /** The arena after an operation, and whether the operation completed. */
  datatype Step = Step(tree: Tree, status: Status)

  /** A freshly constructed CSSNode. */
  function NewNode(): (n: Node)
    ensures n.state == Dirty && n.children == [] && !n.hasChildList && n.parent == None && n.lineIndex == 0
    ensures n.measure == None && Styles.Valid(n.style)
  {
    Node(NewStyle(), NewLayout(), NewCachedLayout(), 0, [], false, None, None, Dirty)
  }

  /** Adds a fresh node under an unused id. */
  function Create(tree: Tree, id: NodeId): (r: Tree)
    requires id !in tree
    ensures r.Keys == tree.Keys + {id}
    ensures r[id] == NewNode()
    ensures forall x :: x in tree ==> r[x] == tree[x]
  {
    tree[id := NewNode()]
  }

  function ChildCount(tree: Tree, id: NodeId): nat
    requires id in tree
  {
    |tree[id].children|
  }

  // ---------------------------------------------------------------------------
  // Arena well-formedness
  // ---------------------------------------------------------------------------

  /** Every id the arena mentions is allocated. */
  predicate Closed(tree: Tree) {
    forall x :: x in tree ==>
      (tree[x].parent.Some? ==> tree[x].parent.value in tree) &&
      (forall k :: 0 <= k < |tree[x].children| ==> tree[x].children[k] in tree)
  }

  /** No id occurs twice. */
  predicate Distinct(s: seq<NodeId>) {
    forall j, k :: 0 <= j < k < |s| ==> s[j] != s[k]
  }

  /** Every child names its parent back. */
  predicate ChildLinksUp(tree: Tree) {
    forall x, y :: x in tree && y in tree[x].children ==> y in tree && tree[y].parent == Some(x)
  }

  /** Every parent lists its child. */
  predicate ParentLinksDown(tree: Tree) {
    forall x :: x in tree && tree[x].parent.Some? ==>
      tree[x].parent.value in tree && x in tree[tree[x].parent.value].children
  }

  /** A child appears once in its parent's list. */
  predicate DistinctChildren(tree: Tree) {
    forall x :: x in tree ==> Distinct(tree[x].children)
  }

  predicate Linked(tree: Tree) {
    ChildLinksUp(tree) && ParentLinksDown(tree) && DistinctChildren(tree)
  }

  predicate WellFormed(tree: Tree) {
    Closed(tree) && Linked(tree)
  }

  // ---------------------------------------------------------------------------
  // The dirty-state machine
  // ---------------------------------------------------------------------------

  function NonDirty(tree: Tree): set<NodeId> {
    set x | x in tree && tree[x].state != Dirty
  }

  /** `t` differs from `tree` only by some UP_TO_DATE nodes that became DIRTY. */
  predicate OnlyDirtied(tree: Tree, t: Tree) {
    && t.Keys == tree.Keys
    && (forall x :: x in tree ==>
          t[x] == tree[x] || (tree[x].state == UpToDate && t[x] == tree[x].(state := Dirty)))
  }

  /**
   * CSSNode.dirty: a no-op on a DIRTY node, a failure on a HAS_NEW_LAYOUT
   * node, and from UP_TO_DATE it marks the node DIRTY and recurses into the
   * parent. A failure in an ancestor leaves the descendants already marked.
   */
  function MarkDirty(tree: Tree, id: NodeId): (r: Step)
    requires id in tree
    ensures OnlyDirtied(tree, r.tree)
    ensures tree[id].state == Dirty ==> r == Step(tree, Done)
    ensures tree[id].state == HasNewLayout ==> r == Step(tree, Failed(PreviousLayoutIgnored))
    ensures r.status.Done? ==> r.tree[id].state == Dirty
    ensures r.status.Failed? ==> r.status.error == PreviousLayoutIgnored
    ensures r.status.Failed? ==> exists x :: x in tree && tree[x].state == HasNewLayout
    decreases |NonDirty(tree)|
  {
    var n := tree[id];
    if n.state == Dirty then Step(tree, Done)
    else if n.state == HasNewLayout then Step(tree, Failed(PreviousLayoutIgnored))
    else
      var t1 := tree[id := n.(state := Dirty)];
      NonDirtyShrinks(tree, id);
      if n.parent.Some? && n.parent.value in t1 then
        var r := MarkDirty(t1, n.parent.value);
        DirtiedBefore(tree, t1, id, r);
        r
      else
        Step(t1, Done)
  }

  /** Marking a non-dirty node dirty removes exactly it from the non-dirty set. */
  lemma NonDirtyShrinks(tree: Tree, id: NodeId)
    requires id in tree && tree[id].state != Dirty
    ensures NonDirty(tree[id := tree[id].(state := Dirty)]) == NonDirty(tree) - {id}
    ensures |NonDirty(tree[id := tree[id].(state := Dirty)])| < |NonDirty(tree)|
  {
    assert NonDirty(tree[id := tree[id].(state := Dirty)]) == NonDirty(tree) - {id};
  }

  /** What the recursive dirty() on the parent promises carries over to the arena before `id` was marked. */
  lemma DirtiedBefore(tree: Tree, t1: Tree, id: NodeId, r: Step)
    requires id in tree && tree[id].state == UpToDate && t1 == tree[id := tree[id].(state := Dirty)]
    requires OnlyDirtied(t1, r.tree)
    requires r.status.Failed? ==> exists x :: x in t1 && t1[x].state == HasNewLayout
    ensures OnlyDirtied(tree, r.tree)
    ensures r.status.Failed? ==> exists x :: x in tree && tree[x].state == HasNewLayout
  {
    if r.status.Failed? {
      var x :| x in t1 && t1[x].state == HasNewLayout;
      assert x != id && tree[x].state == HasNewLayout;
    }
  }

  /** DIRTY is closed upwards: a dirty node's parent is dirty too. */
  predicate UpClosed(tree: Tree) {
    forall x :: x in tree && tree[x].state == Dirty && tree[x].parent.Some? && tree[x].parent.value in tree ==>
      tree[tree[x].parent.value].state == Dirty
  }

  /** `a` is reached from `x` by following `k` parent links. */
  predicate AncestorAt(tree: Tree, a: NodeId, x: NodeId, k: nat)
    decreases k
  {
    x in tree &&
    if k == 0 then a == x
    else tree[x].parent.Some? && AncestorAt(tree, a, tree[x].parent.value, k - 1)
  }

  /** A successful dirty() keeps DIRTY closed upwards. */
  lemma {:induction false} DirtyKeepsUpClosed(tree: Tree, id: NodeId)
    requires id in tree && UpClosed(tree)
    ensures MarkDirty(tree, id).status.Done? ==> UpClosed(MarkDirty(tree, id).tree)
    decreases |NonDirty(tree)|
  {
    var n := tree[id];
    if n.state == UpToDate {
      var t1 := tree[id := n.(state := Dirty)];
      NonDirtyShrinks(tree, id);
      if n.parent.Some? && n.parent.value in t1 {
        var p := n.parent.value;
        if t1[p].state == Dirty {
          // The chain stops at an already-dirty parent.
          assert MarkDirty(tree, id) == Step(t1, Done);
          assert UpClosed(t1);
        } else if t1[p].state == UpToDate {
          // t1 is up-closed except at `id`, whose parent the recursive call dirties first.
          var r := MarkDirty(t1, p);
          if r.status.Done? {
            assert r.tree[p].state == Dirty;
            forall x | x in r.tree && r.tree[x].state == Dirty && r.tree[x].parent.Some? && r.tree[x].parent.value in r.tree
              ensures r.tree[r.tree[x].parent.value].state == Dirty
            {
              if x != id && t1[x].state == Dirty && x != p {
                assert tree[x].state == Dirty;
              }
              if x != id && t1[x].state != Dirty {
                // x was dirtied by the recursive chain; each chain step dirties the next parent.
                DirtyChainClosed(t1, p, x);
              }
            }
          }
        }
      } else {
        assert UpClosed(t1);
      }
    }
  }

  /**
   * In the arena produced by a successful dirty() from `id`, every node that
   * the call itself dirtied has a dirty parent (or none in the arena).
   */
  lemma {:induction false} DirtyChainClosed(tree: Tree, id: NodeId, x: NodeId)
    requires id in tree && x in tree && tree[x].state != Dirty
    requires MarkDirty(tree, id).status.Done? && MarkDirty(tree, id).tree[x].state == Dirty
    ensures var t := MarkDirty(tree, id).tree;
            t[x].parent.Some? && t[x].parent.value in t ==> t[t[x].parent.value].state == Dirty
    decreases |NonDirty(tree)|
  {
    var n := tree[id];
    assert n.state == UpToDate;
    var t1 := tree[id := n.(state := Dirty)];
    NonDirtyShrinks(tree, id);
    if n.parent.Some? && n.parent.value in t1 {
      var p := n.parent.value;
      var r := MarkDirty(t1, p);
      if x == id {
        assert r.tree[p].state == Dirty;
        assert r.tree[x].parent == tree[x].parent;
      } else {
        assert t1[x].state != Dirty;
        DirtyChainClosed(t1, p, x);
      }
    } else {
      assert x == id;
    }
  }

  /** In an up-closed arena, every ancestor of a dirty node is dirty. */
  lemma {:induction false} UpClosedAncestors(tree: Tree, a: NodeId, x: NodeId, k: nat)
    requires UpClosed(tree) && Closed(tree)
    requires AncestorAt(tree, a, x, k) && tree[x].state == Dirty
    ensures a in tree && tree[a].state == Dirty
    decreases k
  {
    if k > 0 {
      UpClosedAncestors(tree, a, tree[x].parent.value, k - 1);
    }
  }

  /** CSSNode.markHasNewLayout: unconditional. */
  function MarkHasNewLayout(tree: Tree, id: NodeId): (r: Tree)
    requires id in tree
    ensures r.Keys == tree.Keys && r[id].state == HasNewLayout
    ensures r[id] == tree[id].(state := r[id].state)
    ensures forall x :: x in tree && x != id ==> r[x] == tree[x]
  {
    tree[id := tree[id].(state := HasNewLayout)]
  }

  /** CSSNode.markLayoutSeen: valid only from HAS_NEW_LAYOUT, which it turns into UP_TO_DATE. */
  function MarkLayoutSeen(tree: Tree, id: NodeId): (r: Step)
    requires id in tree
    ensures tree[id].state != HasNewLayout <==> r == Step(tree, Failed(NoNewLayout))
    ensures r.status.Done? ==> r.tree == tree[id := tree[id].(state := UpToDate)]
  {
    if tree[id].state == HasNewLayout then Step(tree[id := tree[id].(state := UpToDate)], Done)
    else Step(tree, Failed(NoNewLayout))
  }

  /** After the layout pass and markLayoutSeen, a mutation dirties the node again. */
  lemma SeenThenDirty(tree: Tree, id: NodeId)
    requires id in tree && tree[id].state == HasNewLayout && tree[id].parent == None
    ensures var seen := MarkLayoutSeen(tree, id);
            seen.status.Done? && MarkDirty(seen.tree, id) == Step(tree[id := tree[id].(state := Dirty)], Done)
  {
  }

  // ---------------------------------------------------------------------------
  // Attaching and detaching children
  // ---------------------------------------------------------------------------

  function Insert(s: seq<NodeId>, i: nat, c: NodeId): (r: seq<NodeId>)
    requires i <= |s|
    ensures |r| == |s| + 1 && r[i] == c
    ensures forall k :: 0 <= k < i ==> r[k] == s[k]
    ensures forall k :: i < k < |r| ==> r[k] == s[k - 1]
  {
    s[..i] + [c] + s[i..]
  }

  function RemoveAt(s: seq<NodeId>, i: nat): (r: seq<NodeId>)
    requires i < |s|
    ensures |r| == |s| - 1
    ensures forall k :: 0 <= k < i ==> r[k] == s[k]
    ensures forall k :: i <= k < |r| ==> r[k] == s[k + 1]
  {
    s[..i] + s[i + 1..]
  }

  /**
   * CSSNode.addChildAt: fails before any change if the child already has a
   * parent; otherwise allocates the child list if there is none, then fails
   * if the index is out of range, and otherwise inserts, links the parent
   * and calls dirty(), whose failure leaves the insertion in place.
   */
  function AddChildAt(tree: Tree, p: NodeId, c: NodeId, i: int): (r: Step)
    requires p in tree && c in tree
    ensures tree[c].parent.Some? ==> r == Step(tree, Failed(AlreadyHasParent))
    ensures tree[c].parent.None? && !(0 <= i <= |tree[p].children|) ==>
              r == Step(tree[p := tree[p].(hasChildList := true)], Failed(ChildIndexOutOfBounds))
    ensures tree[c].parent.None? && 0 <= i <= |tree[p].children| ==>
              && r.tree.Keys == tree.Keys
              && r.tree[p].children == Insert(tree[p].children, i, c)
              && r.tree[p].hasChildList
              && r.tree[c].parent == Some(p)
              && OnlyDirtied(Attach(tree, p, c, i), r.tree)
              && (r.status.Done? ==> r.tree[p].state == Dirty)
              && (r.status.Failed? ==> r.status.error == PreviousLayoutIgnored)
  {
    if tree[c].parent.Some? then Step(tree, Failed(AlreadyHasParent))
    else if !(0 <= i <= |tree[p].children|) then Step(tree[p := tree[p].(hasChildList := true)], Failed(ChildIndexOutOfBounds))
    else
      MarkDirty(Attach(tree, p, c, i), p)
  }

  /**
   * The arena after addChildAt's allocation, insertion and parent link,
   * before dirty(): only `p`'s list and `c`'s parent are written.
   */
  function Attach(tree: Tree, p: NodeId, c: NodeId, i: nat): (r: Tree)
    requires p in tree && c in tree && i <= |tree[p].children|
    ensures r.Keys == tree.Keys
    ensures p != c ==> r[p] == tree[p].(children := Insert(tree[p].children, i, c), hasChildList := true)
    ensures p != c ==> r[c] == tree[c].(parent := Some(p))
    ensures forall x :: x in tree && x != p && x != c ==> r[x] == tree[x]
  {
    var t1 := tree[p := tree[p].(children := Insert(tree[p].children, i, c), hasChildList := true)];
    t1[c := t1[c].(parent := Some(p))]
  }

  /**
   * The arena after removeChildAt's removal and parent unlink, before
   * dirty(): only `p`'s list and the removed child's parent are written.
   */
  function Detach(tree: Tree, p: NodeId, i: nat): (r: Tree)
    requires p in tree && Closed(tree) && i < |tree[p].children|
    ensures var c := tree[p].children[i];
            && r.Keys == tree.Keys
            && (p != c ==> r[p] == tree[p].(children := RemoveAt(tree[p].children, i)))
            && (p != c ==> r[c] == tree[c].(parent := None))
            && (forall x :: x in tree && x != p && x != c ==> r[x] == tree[x])
  {
    var c := tree[p].children[i];
    var t1 := tree[p := tree[p].(children := RemoveAt(tree[p].children, i))];
    t1[c := t1[c].(parent := None)]
  }

  /** removeChildAt's outcome: the removed child's id when the call returns normally. */
  datatype Removal = Removal(step: Step, removed: Option<NodeId>)

  /**
   * CSSNode.removeChildAt: dereferences the child list, which is null until
   * the first addChildAt; removes the i-th child, clears its parent, shifts
   * later children down and calls dirty().
   */
  function RemoveChildAt(tree: Tree, p: NodeId, i: int): (r: Removal)
    requires p in tree && Closed(tree)
    ensures !tree[p].hasChildList ==> r == Removal(Step(tree, Failed(NullChildList)), None)
    ensures tree[p].hasChildList && !(0 <= i < |tree[p].children|) ==>
              r == Removal(Step(tree, Failed(ChildIndexOutOfBounds)), None)
    ensures tree[p].hasChildList && 0 <= i < |tree[p].children| ==>
              var c := tree[p].children[i];
              && r.step.tree.Keys == tree.Keys
              && r.step.tree[p].children == RemoveAt(tree[p].children, i)
              && r.step.tree[c].parent == None
              && OnlyDirtied(Detach(tree, p, i), r.step.tree)
              && (r.removed.Some? <==> r.step.status.Done?)
              && (r.removed.Some? ==> r.removed.value == c && r.step.tree[p].state == Dirty)
              && (r.step.status.Failed? ==> r.step.status.error == PreviousLayoutIgnored)
  {
    if !tree[p].hasChildList then Removal(Step(tree, Failed(NullChildList)), None)
    else if !(0 <= i < |tree[p].children|) then Removal(Step(tree, Failed(ChildIndexOutOfBounds)), None)
    else
      var c := tree[p].children[i];
      var s := MarkDirty(Detach(tree, p, i), p);
      Removal(s, if s.status.Done? then Some(c) else None)
  }

  /** dirty() changes no links, so it keeps the arena well formed. */
  lemma DirtyKeepsWellFormed(tree: Tree, id: NodeId)
    requires id in tree && WellFormed(tree)
    ensures WellFormed(MarkDirty(tree, id).tree)
  {
    var t := MarkDirty(tree, id).tree;
    forall x | x in t
      ensures t[x].parent == tree[x].parent && t[x].children == tree[x].children
    {
    }
  }

  lemma InsertMembers(s: seq<NodeId>, i: nat, c: NodeId)
    requires i <= |s|
    ensures forall y :: y in Insert(s, i, c) <==> y in s || y == c
  {
    assert s == s[..i] + s[i..];
  }

  lemma InsertDistinct(s: seq<NodeId>, i: nat, c: NodeId)
    requires i <= |s| && Distinct(s) && c !in s
    ensures Distinct(Insert(s, i, c))
  {
    var r := Insert(s, i, c);
    forall j, k | 0 <= j < k < |r| ensures r[j] != r[k] {
      if j != i && k != i {
        assert r[j] == s[if j < i then j else j - 1] && r[k] == s[if k < i then k else k - 1];
      }
    }
  }

  lemma RemoveAtMembers(s: seq<NodeId>, i: nat)
    requires i < |s| && Distinct(s)
    ensures forall y :: y in RemoveAt(s, i) <==> y in s && y != s[i]
    ensures Distinct(RemoveAt(s, i))
  {
    var r := RemoveAt(s, i);
    forall y ensures y in r <==> y in s && y != s[i] {
      if y in r {
        var k :| 0 <= k < |r| && r[k] == y;
        assert y == s[if k < i then k else k + 1];
      }
      if y in s && y != s[i] {
        var k :| 0 <= k < |s| && s[k] == y;
        assert r[if k < i then k else k - 1] == y;
      }
    }
    forall j, k | 0 <= j < k < |r| ensures r[j] != r[k] {
      assert r[j] == s[if j < i then j else j + 1] && r[k] == s[if k < i then k else k + 1];
    }
  }

  /** Attaching a parentless node keeps parent and child links consistent. */
  lemma AddChildKeepsWellFormed(tree: Tree, p: NodeId, c: NodeId, i: int)
    requires p in tree && c in tree && WellFormed(tree) && p != c
    ensures WellFormed(AddChildAt(tree, p, c, i).tree)
  {
    if tree[c].parent.None? && 0 <= i <= |tree[p].children| {
      AttachWellFormed(tree, p, c, i);
      DirtyKeepsWellFormed(Attach(tree, p, c, i), p);
    } else if tree[c].parent.None? {
      AllocateKeepsWellFormed(tree, p);
    }
  }

  /** Allocating an empty child list changes no link. */
  lemma AllocateKeepsWellFormed(tree: Tree, p: NodeId)
    requires p in tree && WellFormed(tree)
    ensures WellFormed(tree[p := tree[p].(hasChildList := true)])
  {
    var t := tree[p := tree[p].(hasChildList := true)];
    assert forall x :: x in t ==> t[x].children == tree[x].children && t[x].parent == tree[x].parent;
  }

  lemma AttachWellFormed(tree: Tree, p: NodeId, c: NodeId, i: nat)
    requires p in tree && c in tree && WellFormed(tree) && p != c
    requires tree[c].parent.None? && i <= |tree[p].children|
    ensures WellFormed(Attach(tree, p, c, i))
  {
    InsertMembers(tree[p].children, i, c);
    // c had no parent, so no list contained it.
    assert c !in tree[p].children;
    InsertDistinct(tree[p].children, i, c);
    AttachClosed(tree, p, c, i);
    AttachLinksUp(tree, p, c, i);
    AttachLinksDown(tree, p, c, i);
  }

  lemma AttachClosed(tree: Tree, p: NodeId, c: NodeId, i: nat)
    requires p in tree && c in tree && Closed(tree) && i <= |tree[p].children|
    ensures Closed(Attach(tree, p, c, i))
  {
    var t2 := Attach(tree, p, c, i);
    forall x | x in t2
      ensures forall k :: 0 <= k < |t2[x].children| ==> t2[x].children[k] in t2
    {
      if x == p {
        InsertMembers(tree[p].children, i, c);
        assert forall k :: 0 <= k < |t2[x].children| ==> t2[x].children[k] in Insert(tree[p].children, i, c);
      }
    }
  }

  lemma AttachLinksUp(tree: Tree, p: NodeId, c: NodeId, i: nat)
    requires p in tree && c in tree && ChildLinksUp(tree) && p != c
    requires tree[c].parent.None? && i <= |tree[p].children|
    requires forall y :: y in Insert(tree[p].children, i, c) <==> y in tree[p].children || y == c
    ensures ChildLinksUp(Attach(tree, p, c, i))
  {
    var t2 := Attach(tree, p, c, i);
    forall x, y | x in t2 && y in t2[x].children ensures y in t2 && t2[y].parent == Some(x) {
      if x != p { assert y in tree[x].children; }
    }
  }

  lemma AttachLinksDown(tree: Tree, p: NodeId, c: NodeId, i: nat)
    requires p in tree && c in tree && ParentLinksDown(tree) && p != c
    requires i <= |tree[p].children|
    requires forall y :: y in Insert(tree[p].children, i, c) <==> y in tree[p].children || y == c
    ensures ParentLinksDown(Attach(tree, p, c, i))
  {
    var t2 := Attach(tree, p, c, i);
    forall x | x in t2 && t2[x].parent.Some?
      ensures t2[x].parent.value in t2 && x in t2[t2[x].parent.value].children
    {
      if x != c { assert x in tree[tree[x].parent.value].children; }
    }
  }

  /** Detaching a child keeps parent and child links consistent. */
  lemma RemoveChildKeepsWellFormed(tree: Tree, p: NodeId, i: int)
    requires p in tree && WellFormed(tree)
    ensures WellFormed(RemoveChildAt(tree, p, i).step.tree)
  {
    if tree[p].hasChildList && 0 <= i < |tree[p].children| {
      DetachWellFormed(tree, p, i);
      DirtyKeepsWellFormed(Detach(tree, p, i), p);
    }
  }

  lemma DetachWellFormed(tree: Tree, p: NodeId, i: nat)
    requires p in tree && WellFormed(tree) && i < |tree[p].children|
    ensures WellFormed(Detach(tree, p, i))
  {
    RemoveAtMembers(tree[p].children, i);
    assert tree[tree[p].children[i]].parent == Some(p);
    DetachClosed(tree, p, i);
    DetachLinksUp(tree, p, i);
    DetachLinksDown(tree, p, i);
  }

  lemma DetachClosed(tree: Tree, p: NodeId, i: nat)
    requires p in tree && Closed(tree) && i < |tree[p].children|
    requires forall y :: y in RemoveAt(tree[p].children, i) <==> y in tree[p].children && y != tree[p].children[i]
    ensures Closed(Detach(tree, p, i))
  {
    var t2 := Detach(tree, p, i);
    forall x | x in t2
      ensures forall k :: 0 <= k < |t2[x].children| ==> t2[x].children[k] in t2
    {
      if x == p {
        assert forall k :: 0 <= k < |t2[x].children| ==> t2[x].children[k] in tree[p].children;
      }
    }
  }

  lemma DetachLinksUp(tree: Tree, p: NodeId, i: nat)
    requires p in tree && Closed(tree) && ChildLinksUp(tree) && i < |tree[p].children|
    requires forall y :: y in RemoveAt(tree[p].children, i) <==> y in tree[p].children && y != tree[p].children[i]
    ensures ChildLinksUp(Detach(tree, p, i))
  {
    var t2 := Detach(tree, p, i);
    forall x, y | x in t2 && y in t2[x].children ensures y in t2 && t2[y].parent == Some(x) {
      if x != p { assert y in tree[x].children; }
    }
  }

  lemma DetachLinksDown(tree: Tree, p: NodeId, i: nat)
    requires p in tree && Closed(tree) && ParentLinksDown(tree) && i < |tree[p].children|
    requires tree[tree[p].children[i]].parent == Some(p)
    requires forall y :: y in RemoveAt(tree[p].children, i) <==> y in tree[p].children && y != tree[p].children[i]
    ensures ParentLinksDown(Detach(tree, p, i))
  {
    var t2 := Detach(tree, p, i);
    forall x | x in t2 && t2[x].parent.Some?
      ensures t2[x].parent.value in t2 && x in t2[t2[x].parent.value].children
    {
      assert x in tree[tree[x].parent.value].children;
    }
  }

  // ---------------------------------------------------------------------------
  // Change-guarded setters
  // ---------------------------------------------------------------------------

  /**
   * Stores a new style and dirties the node only when `changed`; otherwise
   * nothing is written. Beyond the style, a change alters only layout
   * states, through dirty(). A dirty() failure leaves the new style stored.
   */
  function Restyle(tree: Tree, id: NodeId, style: Style, changed: bool): (r: Step)
    requires id in tree
    ensures !changed ==> r == Step(tree, Done)
    ensures changed ==> r.tree.Keys == tree.Keys && r.tree[id].style == style
    ensures changed ==> OnlyDirtied(tree[id := tree[id].(style := style)], r.tree)
    ensures changed && r.status.Done? ==> r.tree[id].state == Dirty
    ensures changed && tree[id].state == HasNewLayout ==> r.status == Failed(PreviousLayoutIgnored)
    ensures changed && tree[id].state == Dirty ==> r == Step(tree[id := tree[id].(style := style)], Done)
  {
    if changed then MarkDirty(tree[id := tree[id].(style := style)], id) else Step(tree, Done)
  }

  /**
   * What every enum or float setter promises: no change, no effect; a
   * change is stored, dirties the node, and otherwise only turns
   * UP_TO_DATE nodes DIRTY.
   */
  predicate GuardedSet(tree: Tree, id: NodeId, style: Style, changed: bool, r: Step)
    requires id in tree
  {
    && (!changed ==> r == Step(tree, Done))
    && (changed ==> r.tree.Keys == tree.Keys && r.tree[id].style == style)
    && (changed ==> OnlyDirtied(tree[id := tree[id].(style := style)], r.tree))
    && (changed && r.status.Done? ==> r.tree[id].state == Dirty)
    && (changed && tree[id].state == HasNewLayout ==> r.status == Failed(PreviousLayoutIgnored))
  }

  /** setDirection: compares by identity. */
  function SetDirection(tree: Tree, id: NodeId, v: Direction): (r: Step)
    requires id in tree
    ensures GuardedSet(tree, id, tree[id].style.(direction := v), tree[id].style.direction != v, r)
  {
    var st := tree[id].style;
    Restyle(tree, id, st.(direction := v), st.direction != v)
  }

  function SetFlexDirection(tree: Tree, id: NodeId, v: FlexDirection): (r: Step)
    requires id in tree
    ensures GuardedSet(tree, id, tree[id].style.(flexDirection := v), tree[id].style.flexDirection != v, r)
  {
    var st := tree[id].style;
    Restyle(tree, id, st.(flexDirection := v), st.flexDirection != v)
  }

  function SetJustifyContent(tree: Tree, id: NodeId, v: Justify): (r: Step)
    requires id in tree
    ensures GuardedSet(tree, id, tree[id].style.(justifyContent := v), tree[id].style.justifyContent != v, r)
  {
    var st := tree[id].style;
    Restyle(tree, id, st.(justifyContent := v), st.justifyContent != v)
  }

  function SetAlignItems(tree: Tree, id: NodeId, v: Align): (r: Step)
    requires id in tree
    ensures GuardedSet(tree, id, tree[id].style.(alignItems := v), tree[id].style.alignItems != v, r)
  {
    var st := tree[id].style;
    Restyle(tree, id, st.(alignItems := v), st.alignItems != v)
  }

  function SetAlignSelf(tree: Tree, id: NodeId, v: Align): (r: Step)
    requires id in tree
    ensures GuardedSet(tree, id, tree[id].style.(alignSelf := v), tree[id].style.alignSelf != v, r)
  {
    var st := tree[id].style;
    Restyle(tree, id, st.(alignSelf := v), st.alignSelf != v)
  }

  function SetPositionType(tree: Tree, id: NodeId, v: PositionType): (r: Step)
    requires id in tree
    ensures GuardedSet(tree, id, tree[id].style.(positionType := v), tree[id].style.positionType != v, r)
  {
    var st := tree[id].style;
    Restyle(tree, id, st.(positionType := v), st.positionType != v)
  }

  function SetWrap(tree: Tree, id: NodeId, v: WrapMode): (r: Step)
    requires id in tree
    ensures GuardedSet(tree, id, tree[id].style.(flexWrap := v), tree[id].style.flexWrap != v, r)
  {
    var st := tree[id].style;
    Restyle(tree, id, st.(flexWrap := v), st.flexWrap != v)
  }

  /** The flex setter compares with floatsEqual. */
  function SetFlex(tree: Tree, id: NodeId, v: Scalar): (r: Step)
    requires id in tree
    ensures GuardedSet(tree, id, tree[id].style.(flex := v), !FloatsEqual(tree[id].style.flex, v), r)
  {
    var st := tree[id].style;
    Restyle(tree, id, st.(flex := v), !FloatsEqual(st.flex, v))
  }

  /** positionTop/Bottom/Left/Right setters: floatsEqual on one slot of style.position. */
  function SetPosition(tree: Tree, id: NodeId, p: PosIndex, v: Scalar): (r: Step)
    requires id in tree
    ensures GuardedSet(tree, id, tree[id].style.(position := SetPos(tree[id].style.position, p, v)),
                       !FloatsEqual(Pos(tree[id].style.position, p), v), r)
  {
    var st := tree[id].style;
    Restyle(tree, id, st.(position := SetPos(st.position, p, v)), !FloatsEqual(Pos(st.position, p), v))
  }

  /** styleWidth / styleHeight setters: floatsEqual on one slot of style.dimensions. */
  function SetStyleDimension(tree: Tree, id: NodeId, d: DimIndex, v: Scalar): (r: Step)
    requires id in tree
    ensures GuardedSet(tree, id, tree[id].style.(dimensions := SetDim(tree[id].style.dimensions, d, v)),
                       !FloatsEqual(Dim(tree[id].style.dimensions, d), v), r)
  {
    var st := tree[id].style;
    Restyle(tree, id, st.(dimensions := SetDim(st.dimensions, d, v)), !FloatsEqual(Dim(st.dimensions, d), v))
  }

  /** Which Spacing of the style a spacing setter writes. */
  datatype SpacingKind = Margin | Padding | Border

  function SpacingOf(st: Style, k: SpacingKind): Spacings.Spacing {
    match k
    case Margin => st.margin
    case Padding => st.padding
    case Border => st.border
  }

  function WithSpacing(st: Style, k: SpacingKind, s: Spacings.Spacing): (r: Style)
    ensures SpacingOf(r, k) == s
    ensures forall j :: j != k ==> SpacingOf(r, j) == SpacingOf(st, j)
  {
    match k
    case Margin => st.(margin := s)
    case Padding => st.(padding := s)
    case Border => st.(border := s)
  }

  /** setMargin / setPadding / setBorder: dirty exactly when Spacing.set reports a change. */
  function SetSpacing(tree: Tree, id: NodeId, k: SpacingKind, t: Spacings.SpacingType, v: Scalar): (r: Step)
    requires id in tree && Spacings.Shaped(SpacingOf(tree[id].style, k))
    ensures var u := Spacings.Set(SpacingOf(tree[id].style, k), t, v);
            GuardedSet(tree, id, WithSpacing(tree[id].style, k, u.spacing), u.changed, r)
  {
    var st := tree[id].style;
    var u := Spacings.Set(SpacingOf(st, k), t, v);
    assert !u.changed ==> WithSpacing(st, k, u.spacing) == st;
    Restyle(tree, id, WithSpacing(st, k, u.spacing), u.changed)
  }

  /** setDefaultPadding: the default array is created even when nothing changes, and only a change dirties. */
  function SetDefaultPadding(tree: Tree, id: NodeId, t: Spacings.SpacingType, v: Scalar): (r: Step)
    requires id in tree && Spacings.Shaped(tree[id].style.padding)
    ensures var u := Spacings.SetDefault(tree[id].style.padding, t, v);
            && r.tree.Keys == tree.Keys
            && r.tree[id].style == tree[id].style.(padding := u.spacing)
            && OnlyDirtied(tree[id := tree[id].(style := tree[id].style.(padding := u.spacing))], r.tree)
            && (!u.changed ==> r.status.Done? && r.tree[id].state == tree[id].state)
            && (u.changed && r.status.Done? ==> r.tree[id].state == Dirty)
  {
    var st := tree[id].style;
    var u := Spacings.SetDefault(st.padding, t, v);
    var t1 := tree[id := tree[id].(style := st.(padding := u.spacing))];
    if u.changed then MarkDirty(t1, id) else Step(t1, Done)
  }

  /** setMeasureFunction: compares by reference. */
  function SetMeasureFunction(tree: Tree, id: NodeId, m: Option<MeasureId>): (r: Step)
    requires id in tree
    ensures tree[id].measure == m ==> r == Step(tree, Done)
    ensures tree[id].measure != m ==> r.tree.Keys == tree.Keys && r.tree[id].measure == m
    ensures tree[id].measure != m ==> OnlyDirtied(tree[id := tree[id].(measure := m)], r.tree)
    ensures tree[id].measure != m && r.status.Done? ==> r.tree[id].state == Dirty
  {
    if tree[id].measure != m then MarkDirty(tree[id := tree[id].(measure := m)], id)
    else Step(tree, Done)
  }

  /** Writing back the value a setter already holds never dirties anything. */
  lemma SetSameValueIsNoop(tree: Tree, id: NodeId, p: PosIndex)
    requires id in tree
    ensures SetPosition(tree, id, p, Pos(tree[id].style.position, p)) == Step(tree, Done)
    ensures SetFlexDirection(tree, id, tree[id].style.flexDirection) == Step(tree, Done)
  {
    FloatsEqualReflexive(Pos(tree[id].style.position, p));
  }

  /** An epsilon-close value is not a change: the node keeps its state and style. */
  lemma SetFlexWithinEpsilon(tree: Tree, id: NodeId, d: real)
    requires id in tree && tree[id].style.flex.Num? && -EPSILON < d < EPSILON
    ensures SetFlex(tree, id, Num(tree[id].style.flex.v + d)) == Step(tree, Done)
  {
  }

  /** An arena that differs only in layout states has the same links. */
  lemma OnlyDirtiedKeepsLinks(tree: Tree, t: Tree)
    requires OnlyDirtied(tree, t)
    ensures Closed(tree) ==> Closed(t)
    ensures forall x :: x in tree ==> t[x].parent == tree[x].parent && t[x].children == tree[x].children
  {
  }

  /**
   * dirty() reaches every ancestor: in an arena where DIRTY is closed
   * upwards, a completed dirty() leaves the node and all its ancestors DIRTY.
   */
  lemma DirtyMarksAncestors(tree: Tree, id: NodeId, a: NodeId, k: nat)
    requires id in tree && Closed(tree) && UpClosed(tree)
    requires MarkDirty(tree, id).status.Done? && AncestorAt(MarkDirty(tree, id).tree, a, id, k)
    ensures a in MarkDirty(tree, id).tree && MarkDirty(tree, id).tree[a].state == Dirty
  {
    var t := MarkDirty(tree, id).tree;
    DirtyKeepsUpClosed(tree, id);
    OnlyDirtiedKeepsLinks(tree, t);
    UpClosedAncestors(t, a, id, k);
  }

  /** A change made through a guarded setter that completes leaves every ancestor of the node DIRTY. */
  lemma RestyleDirtiesAncestors(tree: Tree, id: NodeId, style: Style, a: NodeId, k: nat)
    requires id in tree && Closed(tree) && UpClosed(tree)
    requires Restyle(tree, id, style, true).status.Done? && AncestorAt(Restyle(tree, id, style, true).tree, a, id, k)
    ensures a in Restyle(tree, id, style, true).tree && Restyle(tree, id, style, true).tree[a].state == Dirty
  {
    var t1 := tree[id := tree[id].(style := style)];
    assert UpClosed(t1) && Closed(t1);
    DirtyMarksAncestors(t1, id, a, k);
  }

  // ---------------------------------------------------------------------------
  // reset and measure
  // ---------------------------------------------------------------------------

  /**
   * CSSNode.reset: refuses an attached node; otherwise restores the style
   * defaults, resets the layout result, zeroes lineIndex and marks DIRTY.
   * The cached layout and the measure function are kept.
   */
  function Reset(tree: Tree, id: NodeId): (r: Step)
    requires id in tree
    ensures tree[id].parent.Some? || |tree[id].children| > 0 <==> r == Step(tree, Failed(ResetAttached))
    ensures r.status.Done? ==>
              && r.tree.Keys == tree.Keys
              && r.tree[id].style == NewStyle()
              && r.tree[id].layout == ResetResult(tree[id].layout)
              && r.tree[id].lineIndex == 0 && r.tree[id].state == Dirty
              && r.tree[id].lastLayout == tree[id].lastLayout
              && r.tree[id].measure == tree[id].measure
              && (forall x :: x in tree && x != id ==> r.tree[x] == tree[x])
  {
    var n := tree[id];
    if n.parent.Some? || |n.children| > 0 then Step(tree, Failed(ResetAttached))
    else
      Step(tree[id := n.(style := Styles.Reset(n.style), layout := ResetResult(n.layout),
                         lineIndex := 0, state := Dirty)], Done)
  }

  /** The measure callback: (function identity, node, width, pre-cleared output) to output. */
  type MeasureCallback = (MeasureId, NodeId, Scalar, MeasureOutput) -> MeasureOutput

  /** CSSNode.measure: fails without a function; otherwise clears the output to undefined and calls it. */
  function Measure(tree: Tree, id: NodeId, width: Scalar, callback: MeasureCallback): (r: Result<MeasureOutput, Error>)
    requires id in tree
    ensures tree[id].measure.None? <==> r == Err(MeasureUndefined)
    ensures tree[id].measure.Some? ==>
              r == Ok(callback(tree[id].measure.value, id, width, MeasureOutput(UNDEFINED, UNDEFINED)))
  {
    match tree[id].measure
    case None => Err(MeasureUndefined)
    case Some(m) => Ok(callback(m, id, width, MeasureOutput(UNDEFINED, UNDEFINED)))
  }

  /** A callback that writes nothing leaves both output fields undefined. */
  lemma MeasureClearsOutput(tree: Tree, id: NodeId, width: Scalar)
    requires id in tree && tree[id].measure.Some?
    ensures Measure(tree, id, width, (m, n, w, out) => out) == Ok(MeasureOutput(UNDEFINED, UNDEFINED))
  {
  }
}
