/**
 * kansha's Element: a drawable node that owns a CSSNode and keeps its own
 * list of child elements next to the CSSNode's child list. Elements live in
 * an arena next to the node arena; an element refers to its CSSNode by id.
 */
module Elements {
  import opened Scalars
  import opened Wrappers
  import opened Styles
  import opened Layouts
  import opened Nodes

  type ElementId = nat

  datatype Element = Element(
    cssNode: NodeId,
    children: seq<ElementId>,
    borderWidth: int,
    borderColor: string,
    opacity: real,
    backgroundColor: Option<string>
  )

  /** The element arena and the node arena it draws on. */
  datatype Scene = Scene(elements: map<ElementId, Element>, tree: Tree)

  /** What an Element operation leaves behind, and whether it threw. */
  datatype Outcome = Outcome(scene: Scene, status: Status)

  /** A new Element on a fresh CSSNode: no children, a 1-wide black border, fully opaque, no background. */
  function NewElement(node: NodeId): (e: Element)
    ensures e.cssNode == node && e.children == []
    ensures e.borderWidth == 1 && e.borderColor == "#000000" && e.opacity == 1.0 && e.backgroundColor == None
  {
    Element(node, [], 1, "#000000", 1.0, None)
  }

  /** The element exists and so does its CSSNode. */
  predicate Known(s: Scene, e: ElementId) {
    e in s.elements && s.elements[e].cssNode in s.tree
  }

  /**
   * add: append to `children` first, then attach the element's CSSNode at
   * index childCount. When the attach throws, the first step has already
   * happened.
   */
  function Add(s: Scene, e: ElementId, x: ElementId): (r: Outcome)
    requires Known(s, e) && Known(s, x)
    ensures r.scene.elements == s.elements[e := s.elements[e].(children := s.elements[e].children + [x])]
    ensures var p, c := s.elements[e].cssNode, s.elements[x].cssNode;
            s.tree[c].parent.Some? ==> r.scene.tree == s.tree && r.status == Failed(AlreadyHasParent)
    ensures var p, c := s.elements[e].cssNode, s.elements[x].cssNode;
            s.tree[c].parent.None? ==>
              && r.scene.tree.Keys == s.tree.Keys
              && r.scene.tree[p].children == s.tree[p].children + [c]
              && r.scene.tree[c].parent == Some(p)
              && OnlyDirtied(Attach(s.tree, p, c, |s.tree[p].children|), r.scene.tree)
              && (r.status.Done? ==> r.scene.tree[p].state == Dirty)
              && (r.status.Failed? ==> r.status.error == PreviousLayoutIgnored)
  {
    var el := s.elements[e];
    var elements := s.elements[e := el.(children := el.children + [x])];
    var step := AddChildAt(s.tree, el.cssNode, s.elements[x].cssNode, ChildCount(s.tree, el.cssNode));
    assert Insert(s.tree[el.cssNode].children, |s.tree[el.cssNode].children|, s.elements[x].cssNode)
           == s.tree[el.cssNode].children + [s.elements[x].cssNode];
    Outcome(Scene(elements, step.tree), step.status)
  }

  /** hasChildren: the element's own list is non-empty. */
  function HasChildren(el: Element): (r: bool)
    ensures r <==> el.children != []
  {
    |el.children| > 0
  }

  /** The two child lists agree: the k-th child element owns the CSSNode's k-th child. */
  predicate Parallel(s: Scene, e: ElementId) {
    && Known(s, e)
    && var el := s.elements[e];
       var kids := s.tree[el.cssNode].children;
       && |el.children| == |kids|
       && forall k :: 0 <= k < |kids| ==> el.children[k] in s.elements && s.elements[el.children[k]].cssNode == kids[k]
  }

  // ---------------------------------------------------------------------------
  // Properties of add
  // ---------------------------------------------------------------------------

  /**
   * add keeps the two lists parallel exactly when the child's CSSNode had no
   * parent: otherwise `children` has grown and the CSSNode's list has not.
   */
  lemma AddKeepsParallel(s: Scene, e: ElementId, x: ElementId)
    requires Known(s, e) && Known(s, x) && Parallel(s, e)
    ensures Parallel(Add(s, e, x).scene, e) <==> s.tree[s.elements[x].cssNode].parent.None?
  {
    var r := Add(s, e, x).scene;
    var el := s.elements[e];
    var p := el.cssNode;
    if s.tree[s.elements[x].cssNode].parent.None? {
      var kids := r.tree[p].children;
      forall k | 0 <= k < |kids|
        ensures r.elements[e].children[k] in r.elements && r.elements[r.elements[e].children[k]].cssNode == kids[k]
      {
        if k < |el.children| {
          assert r.elements[e].children[k] == el.children[k];
          assert s.elements[el.children[k]].cssNode == s.tree[p].children[k];
        }
      }
    } else {
      assert |r.elements[e].children| == |el.children| + 1;
    }
  }

  /** After add, hasChildren holds, even when the attach threw. */
  lemma AddGivesChildren(s: Scene, e: ElementId, x: ElementId)
    requires Known(s, e) && Known(s, x)
    ensures HasChildren(Add(s, e, x).scene.elements[e])
    ensures Add(s, e, x).scene.elements[e].children[|s.elements[e].children|] == x
  {
  }

  // ---------------------------------------------------------------------------
  // Forwarding setters
  // ---------------------------------------------------------------------------

  /** Runs a node-arena step on the element's CSSNode; the element arena is untouched. */
  function OnNode(s: Scene, step: Step): Outcome {
    Outcome(Scene(s.elements, step.tree), step.status)
  }

  /** The width setter: styleWidth = value.toFloat(). */
  function SetWidth(s: Scene, e: ElementId, value: int): (r: Outcome)
    requires Known(s, e)
    ensures r.scene.elements == s.elements
    ensures var n := s.elements[e].cssNode;
            var st := s.tree[n].style;
            GuardedSet(s.tree, n, st.(dimensions := SetDim(st.dimensions, DimWidth, Num(value as real))),
                       !FloatsEqual(Dim(st.dimensions, DimWidth), Num(value as real)), Step(r.scene.tree, r.status))
  {
    OnNode(s, SetStyleDimension(s.tree, s.elements[e].cssNode, DimWidth, Num(value as real)))
  }

  /** The height setter: styleHeight = value.toFloat(). */
  function SetHeight(s: Scene, e: ElementId, value: int): (r: Outcome)
    requires Known(s, e)
    ensures r.scene.elements == s.elements
    ensures var n := s.elements[e].cssNode;
            var st := s.tree[n].style;
            GuardedSet(s.tree, n, st.(dimensions := SetDim(st.dimensions, DimHeight, Num(value as real))),
                       !FloatsEqual(Dim(st.dimensions, DimHeight), Num(value as real)), Step(r.scene.tree, r.status))
  {
    OnNode(s, SetStyleDimension(s.tree, s.elements[e].cssNode, DimHeight, Num(value as real)))
  }

  /** The flex setter: cssNode.flex = value. */
  function SetFlexOf(s: Scene, e: ElementId, value: Scalar): (r: Outcome)
    requires Known(s, e)
    ensures r.scene.elements == s.elements
    ensures var n := s.elements[e].cssNode;
            GuardedSet(s.tree, n, s.tree[n].style.(flex := value),
                       !FloatsEqual(s.tree[n].style.flex, value), Step(r.scene.tree, r.status))
  {
    OnNode(s, SetFlex(s.tree, s.elements[e].cssNode, value))
  }

  /** The flexDirection setter: cssNode.flexDirection = value. */
  function SetFlexDirectionOf(s: Scene, e: ElementId, value: FlexDirection): (r: Outcome)
    requires Known(s, e)
    ensures r.scene.elements == s.elements
    ensures var n := s.elements[e].cssNode;
            GuardedSet(s.tree, n, s.tree[n].style.(flexDirection := value),
                       s.tree[n].style.flexDirection != value, Step(r.scene.tree, r.status))
  {
    OnNode(s, SetFlexDirection(s.tree, s.elements[e].cssNode, value))
  }

  /** Setting the same width twice: the second call changes nothing and cannot throw. */
  lemma SetWidthTwice(s: Scene, e: ElementId, value: int)
    requires Known(s, e)
    ensures var r := SetWidth(s, e, value);
            Known(r.scene, e) && SetWidth(r.scene, e, value) == Outcome(r.scene, Done)
  {
    var n := s.elements[e].cssNode;
    var r := SetWidth(s, e, value);
    var st := s.tree[n].style;
    if !FloatsEqual(Dim(st.dimensions, DimWidth), Num(value as real)) {
      assert r.scene.tree[n].style == st.(dimensions := SetDim(st.dimensions, DimWidth, Num(value as real)));
    }
  }
}
