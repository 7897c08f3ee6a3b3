/**
 The input on which the two readings of the trailing flag part: a `text`
 element whose own text ends with a space, holding a `tspan` whose text is a
 lone space and whose tail starts with a space.
 */
module ReflowFinding {
  import opened Chars
  import opened Wrappers
  import opened WhiteSpace
  import opened Elements
  import opened Cascade
  import opened TextReflow

  /** No stylesheet, no inline style, every feature supported. */
  const Plain: Environment := Environment(e => [], e => [], s => ([], []), e => true)

  const Inner: Element := Element(SvgNamespace, "tspan", map[], Some(" "), Some(" b"), [])

  const Outer: Element := Element(SvgNamespace, "text", map[], Some("a "), None, [Inner])

  /** Without any declaration, an element with no attributes of its own under
      a parent without attributes resolves to no attributes. */
  lemma PlainResolvesToNothing(e: Element)
    requires e.attributes == map[]
    ensures Resolve(Plain, e, Some(map[])) == map[]
  {
    var t := TiersOf(Plain, e);
    assert t == Tiers([], [], [], []);
    assert Concat([]) == [];
    assert Ordered(t) == [];
    assert Inherited(Some(map[])) == map[];
    assert Specified(Some(map[]), e.attributes, t) == map[];
  }

  lemma InnerReflow(th: Threading)
    ensures Reflow(Plain, Inner, map[], true, false, th) == Reflowed("", [], true)
  {
    CleanTextUnchanged(" ");
    assert LStripSpace(" ") == "";
  }

  /** The text of the anonymous run after the `tspan`: its tail, without the
      leading space only when the flag says a space came before. */
  function TailText(th: Threading): string {
    if th == AsWritten then " b" else "b"
  }

  lemma TailStep(flag: bool)
    ensures TailRun(Plain, Some(" b"), map[], false, flag) ==
      ([Node("tspan", map[], Some(if flag then "b" else " b"), [], AnonymousTspan)], false)
  {
    var t := RunText(Some(" b"), false, flag);
    TailRunText(flag);
    assert t != [] && t[|t| - 1] == 'b';
    assert After(t, flag) == false;
    PlainResolvesToNothing(AnonymousTspan);
    assert QualifiedTag(AnonymousTspan) == "tspan";
  }

  lemma TailRunText(flag: bool)
    ensures RunText(Some(" b"), false, flag) == if flag then "b" else " b"
  {
    CleanTextUnchanged(" b");
    assert LStripSpace(" b") == "b";
  }

  lemma ChildUnfolds(env: Environment, c: Element, attrs: Attributes, preserve: bool, trailing: bool,
                     th: Threading, cattrs: Attributes, sub: Reflowed, flag: bool)
    requires cattrs == Resolve(env, c, Some(attrs))
    requires sub == Reflow(env, c, cattrs, trailing, false, th)
    requires flag == if th == AsWritten then EndsWithSpace(sub.text) else sub.trailing
    ensures var run := TailRun(env, c.tail, attrs, preserve, flag);
      ReflowChild(env, c, attrs, preserve, trailing, th) ==
        ([Node(QualifiedTag(c), cattrs, Some(sub.text), sub.children, c)] + run.0, run.1)
  {
  }

  /** The `tspan` contributes nothing but its tail, and leaves no space
      pending. */
  lemma InnerStep(th: Threading)
    ensures var r := ReflowChild(Plain, Inner, map[], false, true, th);
      r.1 == false && ContentOf(r.0) == TailText(th)
  {
    var sub := Reflowed("", [], true);
    var node := Node(QualifiedTag(Inner), map[], Some(sub.text), sub.children, Inner);
    var run := TailRun(Plain, Inner.tail, map[], false, th == Threaded);
    InnerTail(th, run);
    EmptyNodeAddsNothing(node, run.0);
    PlainResolvesToNothing(Inner);
    InnerReflow(th);
    ChildUnfolds(Plain, Inner, map[], false, true, th, map[], sub, th == Threaded);
  }

  lemma InnerTail(th: Threading, run: (seq<Node>, bool))
    requires run == TailRun(Plain, Inner.tail, map[], false, th == Threaded)
    ensures ContentOf(run.0) == TailText(th) && run.1 == false
  {
    assert Inner.tail == Some(" b");
    TailStep(th == Threaded);
    var b := Node("tspan", map[], Some(TailText(th)), [], AnonymousTspan);
    assert run == ([b], false);
    ContentOfSingle(run.0);
    assert ContentOf(b.children) == [];
  }

  /** A node with empty text and no children adds nothing to the content. */
  lemma EmptyNodeAddsNothing(node: Node, rest: seq<Node>)
    requires node.text == Some("") && node.children == []
    ensures ContentOf([node] + rest) == ContentOf(rest)
  {
    ContentOfAppend([node], rest);
    assert ContentOf([node]) == Content(node) + ContentOf([]);
  }

  /** The outer text keeps its space; the loop over its one child adds the
      child's content. */
  lemma OuterContent(th: Threading)
    ensures var r := Reflow(Plain, Outer, map[], true, true, th);
      r.text + ContentOf(r.children) == "a " + TailText(th)
  {
    var loop := ReflowFrom(Plain, Outer, map[], false, 0, true, th);
    LoopContent(th);
    OuterUnfolds(th, loop);
  }

  lemma OuterUnfolds(th: Threading, loop: (seq<Node>, bool))
    requires loop == ReflowFrom(Plain, Outer, map[], false, 0, true, th) && loop.0 != []
    ensures Reflow(Plain, Outer, map[], true, true, th) == Reflowed("a ", loop.0, loop.1)
  {
    assert Outer.text == Some("a ");
    OuterText();
  }

  lemma LoopContent(th: Threading)
    ensures var loop := ReflowFrom(Plain, Outer, map[], false, 0, true, th);
      ContentOf(loop.0) == TailText(th) && loop.1 == false && loop.0 != []
  {
    var step := ReflowChild(Plain, Inner, map[], false, true, th);
    InnerStep(th);
    LoopUnfolds(th, step);
    assert step.0 != [] by {
      assert |step.0| == |Layout([Inner])|;
    }
    assert step.0 + [] == step.0;
  }

  lemma OuterText()
    ensures RunText(Some("a "), false, true) == "a "
  {
    CleanTextUnchanged("a ");
    assert LStripSpace("a ") == "a ";
  }

  lemma LoopUnfolds(th: Threading, step: (seq<Node>, bool))
    requires step == ReflowChild(Plain, Inner, map[], false, true, th) && step.1 == false
    ensures ReflowFrom(Plain, Outer, map[], false, 0, true, th) == (step.0 + [], false)
  {
    assert Outer.children[0] == Inner;
    assert ReflowFrom(Plain, Outer, map[], false, 1, false, th) == ([], false);
  }

  /** As written, the space that ends the outer text is forgotten once the
      empty `tspan` is passed, so the tail keeps its leading space and the text
      reads `"a  b"`; threading the flag gives `"a b"`. */
  lemma TrailingFlagIsOverwritten()
    ensures var r := Reflow(Plain, Outer, map[], true, true, AsWritten);
      r.text + ContentOf(r.children) == "a  b"
    ensures var r := Reflow(Plain, Outer, map[], true, true, Threaded);
      r.text + ContentOf(r.children) == "a b"
  {
    OuterContent(AsWritten);
    OuterContent(Threaded);
    Spelled();
  }

  lemma Spelled()
    ensures "a " + TailText(AsWritten) == "a  b"
    ensures "a " + TailText(Threaded) == "a b"
  {
  }
}
