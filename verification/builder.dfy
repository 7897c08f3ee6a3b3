/**
 `Node.__init__`: a node takes its tag from the element, resolves its
 attributes under its parent's, and builds its children. The content of
 `text`, `textPath` and `a` is laid out as text runs; the children of any other
 node are the nodes of the element's children that pass the
 conditional-processing test (only the first one for a `switch`). With
 `parent_children`, a node instead rebuilds the children of a given node under
 itself.

 Every builder takes the threading of the trailing-space flag that its text
 runs use (see `TextReflow`): `AsWritten` builds the tree of the source as
 written, `Threaded` the tree with the flag carried through.
 */
module Builder {
  import opened Wrappers
  import opened Elements
  import opened Cascade
  import opened Children
  import opened TextReflow

  /** The tags whose content becomes text runs. */
  predicate IsTextTag(tag: string) {
    tag in {"text", "textPath", "a"}
  }

  /** `Node(element, style, url_fetcher, parent)`: the node's tag, attributes,
      text and children. A text node whose layout yields no node falls back to
      the ordinary children, which are then none. */
  function BuildNode(env: Environment, e: Element, parent: Option<Attributes>, th: Threading): (r: Node)
    ensures r.element == e && r.tag == QualifiedTag(e)
    ensures r.attributes == Resolve(env, e, parent)
    ensures IsTextTag(r.tag) ==>
      var t := Reflow(env, e, r.attributes, true, true, th);
      r.text == Some(t.text) && r.children == t.children
    ensures !IsTextTag(r.tag) ==>
      var kept := SelectChildren(env.matchFeatures, e.children, r.tag == "switch");
      && r.text == e.text
      && ElementsOf(r.children) == kept
  {
    var attrs := Resolve(env, e, parent);
    var tag := QualifiedTag(e);
    var laidOut := if IsTextTag(tag) then Reflow(env, e, attrs, true, true, th).children else [];
    var text := if IsTextTag(tag) then Some(Reflow(env, e, attrs, true, true, th).text) else e.text;
    if laidOut != [] then Node(tag, attrs, text, laidOut, e)
    else
      var kept := SelectChildren(env.matchFeatures, e.children, tag == "switch");
      assert IsTextTag(tag) ==> e.children == [] && kept == [] by {
        if IsTextTag(tag) {
          assert |Layout(e.children)| == 0;
          assert e.children == [];
        }
      }
      var children := seq(|kept|, i requires 0 <= i < |kept| =>
        assert kept[i] in e.children; BuildNode(env, kept[i], Some(attrs), th));
      assert ElementsOf(children) == kept;
      Node(tag, attrs, text, children, e)
  }

  /** Each child of an ordinary node `r` is the node of the corresponding kept
      element, built under the node. */
  lemma ChildrenBuiltUnder(env: Environment, e: Element, parent: Option<Attributes>, r: Node, kept: seq<Element>, th: Threading)
    requires !IsTextTag(QualifiedTag(e)) && r == BuildNode(env, e, parent, th)
    requires kept == SelectChildren(env.matchFeatures, e.children, QualifiedTag(e) == "switch")
    ensures |r.children| == |kept|
    ensures forall i :: 0 <= i < |kept| ==>
      kept[i] in e.children && r.children[i] == BuildNode(env, kept[i], Some(r.attributes), th)
  {
  }

  /** `Node(element, style, url_fetcher, parent, parent_children=True)`: the
      node is resolved under `parent`, and its children are the nodes of the
      elements of `parent`'s children, rebuilt under the new node, one for one
      and in order. */
  function BuildWithParentChildren(env: Environment, e: Element, parent: Node, th: Threading): (r: Node)
    ensures r.element == e && r.tag == QualifiedTag(e)
    ensures r.attributes == Resolve(env, e, Some(parent.attributes))
    ensures |r.children| == |parent.children|
    ensures forall i :: 0 <= i < |r.children| ==>
      r.children[i] == BuildNode(env, parent.children[i].element, Some(r.attributes), th)
    ensures ElementsOf(r.children) == ElementsOf(parent.children)
  {
    var attrs := Resolve(env, e, Some(parent.attributes));
    var tag := QualifiedTag(e);
    var text := if IsTextTag(tag) then Some(Reflow(env, e, attrs, true, true, th).text) else e.text;
    Node(tag, attrs, text, Rebuild(env, parent.children, attrs, th), e)
  }

  /** The nodes of the elements of `ns`, built anew under `attrs`. */
  function Rebuild(env: Environment, ns: seq<Node>, attrs: Attributes, th: Threading): (r: seq<Node>)
    ensures |r| == |ns|
    ensures forall i :: 0 <= i < |r| ==> r[i] == BuildNode(env, ns[i].element, Some(attrs), th)
    ensures ElementsOf(r) == ElementsOf(ns)
  {
    var r := seq(|ns|, i requires 0 <= i < |ns| => BuildNode(env, ns[i].element, Some(attrs), th));
    assert ElementsOf(r) == ElementsOf(ns) by {
      forall i | 0 <= i < |r|
        ensures ElementsOf(r)[i] == ElementsOf(ns)[i]
      {
        assert r[i].element == ns[i].element;
      }
    }
    r
  }

  /** A `switch` node `r` has at most one child: none exactly when no child
      passes the test, otherwise the node of the first child that passes. */
  lemma SwitchBuildsFirstPassing(env: Environment, e: Element, parent: Option<Attributes>, r: Node, th: Threading)
    requires QualifiedTag(e) == "switch" && r == BuildNode(env, e, parent, th)
    ensures |r.children| <= 1
    ensures r.children == [] <==> forall j :: 0 <= j < |e.children| ==> !env.matchFeatures(e.children[j])
    ensures forall i :: IsFirstPassing(env.matchFeatures, e.children, i) ==>
      |r.children| == 1 && r.children[0] == BuildNode(env, e.children[i], Some(r.attributes), th)
  {
    var kept := SelectChildren(env.matchFeatures, e.children, true);
    SwitchKeepsFirstPassing(env.matchFeatures, e.children, kept);
    ChildrenBuiltUnder(env, e, parent, r, kept, th);
    forall i | IsFirstPassing(env.matchFeatures, e.children, i)
      ensures |r.children| == 1 && r.children[0] == BuildNode(env, e.children[i], Some(r.attributes), th)
    {
      assert kept[0] == e.children[i];
      assert r.children[0] == BuildNode(env, kept[0], Some(r.attributes), th);
    }
  }

  /** Any other node `r` that is not a text node has one child per child that
      passes the test, built under the node, in document order. */
  lemma ChildrenFollowFilter(env: Environment, e: Element, parent: Option<Attributes>, r: Node, th: Threading)
    requires !IsTextTag(QualifiedTag(e)) && QualifiedTag(e) != "switch" && r == BuildNode(env, e, parent, th)
    ensures ElementsOf(r.children) == Filter(env.matchFeatures, e.children)
    ensures forall c :: c in e.children ==> (env.matchFeatures(c) <==> c in ElementsOf(r.children))
    ensures forall i :: 0 <= i < |r.children| ==>
      r.children[i] == BuildNode(env, r.children[i].element, Some(r.attributes), th)
  {
    var kept := Filter(env.matchFeatures, e.children);
    FilterKeepsExactlyPassing(env.matchFeatures, e.children);
    ChildrenBuiltUnder(env, e, parent, r, kept, th);
    forall i | 0 <= i < |r.children|
      ensures r.children[i] == BuildNode(env, r.children[i].element, Some(r.attributes), th)
    {
      assert r.children[i].element == kept[i];
    }
  }

  /** A text node `r` has a node per child and one per non-empty tail, and
      none exactly when the element has no children. */
  lemma TextChildrenFollowLayout(env: Environment, e: Element, parent: Option<Attributes>, r: Node, th: Threading)
    requires IsTextTag(QualifiedTag(e)) && r == BuildNode(env, e, parent, th)
    ensures ElementsOf(r.children) == Layout(e.children)
    ensures r.children == [] <==> e.children == []
  {
    if e.children != [] {
      assert |Layout(e.children)| >= 1;
    }
  }

  /** No node of the tree keeps an `inherit` value. */
  predicate TreeHasNoInherit(n: Node)
    decreases n
  {
    HasNoInherit(n.attributes) && forall i :: 0 <= i < |n.children| ==> TreeHasNoInherit(n.children[i])
  }

  predicate TreesHaveNoInherit(ns: seq<Node>) {
    forall i :: 0 <= i < |ns| ==> TreeHasNoInherit(ns[i])
  }

  /** Under a parent free of `inherit`, no node of the built tree, text runs
      included, keeps an `inherit` value: each one either took its parent's
      value or was dropped. */
  lemma {:induction false} BuildHasNoInherit(env: Environment, e: Element, parent: Option<Attributes>, th: Threading)
    requires ParentHasNoInherit(parent)
    ensures TreeHasNoInherit(BuildNode(env, e, parent, th))
    decreases e, 0
  {
    var r := BuildNode(env, e, parent, th);
    if IsTextTag(r.tag) {
      ReflowHasNoInherit(env, e, r.attributes, true, true, th);
    } else {
      var kept := SelectChildren(env.matchFeatures, e.children, QualifiedTag(e) == "switch");
      ChildrenBuiltUnder(env, e, parent, r, kept, th);
      forall i | 0 <= i < |r.children|
        ensures TreeHasNoInherit(r.children[i])
      {
        assert kept[i] in e.children;
        BuildHasNoInherit(env, kept[i], Some(r.attributes), th);
      }
    }
  }

  lemma {:induction false} ReflowHasNoInherit(env: Environment, e: Element, attrs: Attributes,
                                              trailing: bool, textRoot: bool, th: Threading)
    requires HasNoInherit(attrs)
    ensures TreesHaveNoInherit(Reflow(env, e, attrs, trailing, textRoot, th).children)
    decreases e, 2
  {
    var preserve := IsPreserve(attrs);
    var text := RunText(e.text, preserve, trailing);
    ReflowFromHasNoInherit(env, e, attrs, preserve, 0, After(text, trailing), th);
  }

  lemma {:induction false} ReflowFromHasNoInherit(env: Environment, e: Element, attrs: Attributes,
                                                  preserve: bool, i: nat, trailing: bool, th: Threading)
    requires i <= |e.children| && HasNoInherit(attrs)
    ensures TreesHaveNoInherit(ReflowFrom(env, e, attrs, preserve, i, trailing, th).0)
    decreases e, 1, |e.children| - i
  {
    if i < |e.children| {
      var step := ReflowChild(env, e.children[i], attrs, preserve, trailing, th);
      var rest := ReflowFrom(env, e, attrs, preserve, i + 1, step.1, th);
      ReflowChildHasNoInherit(env, e.children[i], attrs, preserve, trailing, th);
      ReflowFromHasNoInherit(env, e, attrs, preserve, i + 1, step.1, th);
      TreesAppend(step.0, rest.0);
    }
  }

  lemma {:induction false} ReflowChildHasNoInherit(env: Environment, c: Element, attrs: Attributes,
                                                   preserve: bool, trailing: bool, th: Threading)
    requires HasNoInherit(attrs)
    ensures TreesHaveNoInherit(ReflowChild(env, c, attrs, preserve, trailing, th).0)
    decreases c, 4
  {
    var node := ChildNode(env, c, attrs, trailing, th);
    var run := TailRun(env, c.tail, attrs, preserve, ChildFlag(env, c, attrs, trailing, th));
    ChildNodeHasNoInherit(env, c, attrs, trailing, th);
    TailRunHasNoInherit(env, c.tail, attrs, preserve, ChildFlag(env, c, attrs, trailing, th));
    TreesAppend([node], run.0);
  }

  lemma {:induction false} ChildNodeHasNoInherit(env: Environment, c: Element, attrs: Attributes, trailing: bool, th: Threading)
    requires HasNoInherit(attrs)
    ensures TreesHaveNoInherit([ChildNode(env, c, attrs, trailing, th)])
    decreases c, 3
  {
    var cattrs := Resolve(env, c, Some(attrs));
    var node := ChildNode(env, c, attrs, trailing, th);
    assert node.attributes == cattrs;
    assert node.children == Reflow(env, c, cattrs, trailing, false, th).children;
    ReflowHasNoInherit(env, c, cattrs, trailing, false, th);
    NodeOfTrees(node);
  }

  lemma NodeOfTrees(n: Node)
    requires HasNoInherit(n.attributes) && TreesHaveNoInherit(n.children)
    ensures TreesHaveNoInherit([n])
  {
    assert TreeHasNoInherit(n);
  }

  lemma TailRunHasNoInherit(env: Environment, tail: Option<string>, attrs: Attributes,
                            preserve: bool, trailing: bool)
    requires HasNoInherit(attrs)
    ensures TreesHaveNoInherit(TailRun(env, tail, attrs, preserve, trailing).0)
  {
    var run := TailRun(env, tail, attrs, preserve, trailing);
    if NonEmpty(tail) {
      assert TreeHasNoInherit(run.0[0]);
    }
  }

  lemma TreesAppend(a: seq<Node>, b: seq<Node>)
    requires TreesHaveNoInherit(a) && TreesHaveNoInherit(b)
    ensures TreesHaveNoInherit(a + b)
  {
    forall i | 0 <= i < |a + b|
      ensures TreeHasNoInherit((a + b)[i])
    {
      if i < |a| {
        assert (a + b)[i] == a[i];
      } else {
        assert (a + b)[i] == b[i - |a|];
      }
    }
  }
}
