/**
 White space threading of `Node.text_children`: the text of a `text` element
 and of everything inside it becomes a sequence of runs (the element's own
 text, each child's content, and an anonymous `tspan` for each child's tail).
 A `trailing` flag says whether the text emitted so far ends with a space; a
 run that starts after a space loses its leading spaces, so that in default
 mode the spaces between runs collapse too. At the text root, a text without
 children loses its trailing spaces.

 The flag the loop carries on after a child is where the source and its
 evident intent part: the source takes whether the child's OWN text ends
 with a space (`AsWritten`), ignoring the flag the recursive call returns for
 the child's whole content; threading that returned flag (`Threaded`) is the
 reading the rest of the model uses.
 */
module TextReflow {
  import opened Chars
  import opened Wrappers
  import opened WhiteSpace
  import opened Elements
  import opened Cascade

  datatype Threading = AsWritten | Threaded

  /** `self.get(space) == 'preserve'` */
  predicate IsPreserve(attrs: Attributes) {
    Lookup(attrs, XmlSpace) == Some("preserve")
  }

  /** The text of one run: white space handled in the run's mode, then, in
      default mode after a space, the leading spaces removed. The result is a
      suffix of the handled text from which only spaces were cut. */
  function RunText(raw: Option<string>, preserve: bool, trailing: bool): (t: string)
    ensures var h := HandleWhiteSpaces(raw, preserve);
      && |t| <= |h| && t == h[|h| - |t|..]
      && (forall i :: 0 <= i < |h| - |t| ==> h[i] == ' ')
      && (!(trailing && !preserve) ==> t == h)
    ensures trailing && !preserve ==> !StartsWithSpace(t)
    ensures !preserve ==> NoDoubleSpace(t) && NoControlSpace(t)
  {
    var h := HandleWhiteSpaces(raw, preserve);
    if trailing && !preserve then
      var t := LStripSpace(h);
      SuffixKeepsClean(h, t);
      t
    else h
  }

  /** A suffix of a clean text is clean. */
  lemma SuffixKeepsClean(h: string, t: string)
    requires |t| <= |h| && t == h[|h| - |t|..]
    ensures NoDoubleSpace(h) ==> NoDoubleSpace(t)
    ensures NoControlSpace(h) ==> NoControlSpace(t)
  {
    assert forall i :: 0 <= i < |t| ==> t[i] == h[|h| - |t| + i];
  }

  /** The flag after a run: whether it ends with a space, or unchanged when
      the run is empty. */
  function After(t: string, trailing: bool): bool {
    if t != [] then EndsWithSpace(t) else trailing
  }

  /** The anonymous run for a child's tail, in the parent's mode, and the flag
      after it. There is a run exactly when the tail is not empty; after a
      space in default mode it has no leading space. */
  function TailRun(env: Environment, tail: Option<string>, attrs: Attributes, preserve: bool, trailing: bool)
    : (r: (seq<Node>, bool))
    ensures |r.0| == if NonEmpty(tail) then 1 else 0
    ensures NonEmpty(tail) ==>
      && r.0[0].element == AnonymousTspan && r.0[0].tag == "tspan" && r.0[0].children == []
      && r.0[0].attributes == Resolve(env, AnonymousTspan, Some(attrs))
      && r.0[0].text == Some(RunText(tail, preserve, trailing))
      && (trailing && !preserve ==> !StartsWithSpace(r.0[0].text.value))
    ensures !NonEmpty(tail) ==> r.1 == trailing
  {
    if NonEmpty(tail) then
      var t := RunText(tail, preserve, trailing);
      ([Node(QualifiedTag(AnonymousTspan), Resolve(env, AnonymousTspan, Some(attrs)), Some(t), [], AnonymousTspan)],
       After(t, trailing))
    else ([], trailing)
  }

  /** The element each output node comes from: every child, followed by an
      anonymous `tspan` when its tail is not empty. */
  function Layout(cs: seq<Element>): (r: seq<Element>)
    ensures |r| >= |cs|
  {
    if cs == [] then []
    else [cs[0]] + (if NonEmpty(cs[0].tail) then [AnonymousTspan] else []) + Layout(cs[1..])
  }

  lemma {:induction false} LayoutAppend(a: seq<Element>, b: seq<Element>)
    ensures Layout(a + b) == Layout(a) + Layout(b)
    decreases |a|
  {
    if a == [] {
      assert a + b == b;
    } else {
      assert (a + b)[0] == a[0];
      assert (a + b)[1..] == a[1..] + b;
      LayoutAppend(a[1..], b);
    }
  }

  function ElementsOf(ns: seq<Node>): (r: seq<Element>)
    ensures |r| == |ns|
  {
    seq(|ns|, j requires 0 <= j < |ns| => ns[j].element)
  }

  lemma ElementsOfAppend(a: seq<Node>, b: seq<Node>)
    ensures ElementsOf(a + b) == ElementsOf(a) + ElementsOf(b)
  {
  }

  lemma NoDoubleSpacePrefix(s: string, t: string)
    requires NoDoubleSpace(s) && |t| <= |s| && t == s[..|t|]
    ensures NoDoubleSpace(t)
  {
    forall i | 0 <= i < |t| - 1
      ensures !(t[i] == ' ' && t[i + 1] == ' ')
    {
      assert t[i] == s[i] && t[i + 1] == s[i + 1];
    }
  }

  datatype Reflowed = Reflowed(text: string, children: seq<Node>, trailing: bool)

  /** `text_children(element, trailing_space, text_root)` for a node with the
      resolved attributes `attrs`: the node's text, its children and the flag
      after its content. */
  function Reflow(env: Environment, e: Element, attrs: Attributes, trailing: bool, textRoot: bool,
                  th: Threading): (r: Reflowed)
    ensures ElementsOf(r.children) == Layout(e.children)
    ensures trailing && !IsPreserve(attrs) ==> !StartsWithSpace(r.text)
    ensures !IsPreserve(attrs) ==> NoDoubleSpace(r.text)
    ensures textRoot && r.children == [] && !IsPreserve(attrs) ==> !EndsWithSpace(r.text)
    decreases e, 2
  {
    var preserve := IsPreserve(attrs);
    var text := RunText(e.text, preserve, trailing);
    var rest := ReflowFrom(env, e, attrs, preserve, 0, After(text, trailing), th);
    assert e.children[0..] == e.children;
    if textRoot && rest.0 == [] && !preserve then
      var t := RStripSpace(text);
      RootStripKeeps(text, t);
      Reflowed(t, rest.0, rest.1)
    else Reflowed(text, rest.0, rest.1)
  }

  /** Cutting the trailing spaces of the root's text leaves no space at its
      end and adds none at its start or in its middle. */
  lemma RootStripKeeps(text: string, t: string)
    requires t == RStripSpace(text)
    ensures !EndsWithSpace(t)
    ensures !StartsWithSpace(text) ==> !StartsWithSpace(t)
    ensures NoDoubleSpace(text) ==> NoDoubleSpace(t)
  {
    assert t == text[..|t|];
    assert t == [] || t[0] == text[0];
    if NoDoubleSpace(text) {
      NoDoubleSpacePrefix(text, t);
    }
  }

  /** The loop of `text_children` from the `i`-th child on. */
  function ReflowFrom(env: Environment, e: Element, attrs: Attributes, preserve: bool, i: nat,
                      trailing: bool, th: Threading): (r: (seq<Node>, bool))
    requires i <= |e.children|
    ensures ElementsOf(r.0) == Layout(e.children[i..])
    decreases e, 1, |e.children| - i
  {
    if i == |e.children| then ([], trailing)
    else
      var step := ReflowChild(env, e.children[i], attrs, preserve, trailing, th);
      var rest := ReflowFrom(env, e, attrs, preserve, i + 1, step.1, th);
      LoopLayout(e.children, i, step.0, rest.0);
      (step.0 + rest.0, rest.1)
  }

  /** The layout of the children from `i` on: that of child `i`, then that of
      the ones after it. */
  lemma LoopLayout(cs: seq<Element>, i: nat, first: seq<Node>, rest: seq<Node>)
    requires i < |cs|
    requires ElementsOf(first) == Layout([cs[i]]) && ElementsOf(rest) == Layout(cs[i + 1..])
    ensures ElementsOf(first + rest) == Layout(cs[i..])
  {
    assert cs[i..] == [cs[i]] + cs[i + 1..];
    LayoutAppend([cs[i]], cs[i + 1..]);
    ElementsOfAppend(first, rest);
  }

  /** One turn of the loop: the node of child `c`, then the anonymous run of
      its tail, started with the flag the child leaves. */
  function ReflowChild(env: Environment, c: Element, attrs: Attributes, preserve: bool, trailing: bool,
                       th: Threading): (r: (seq<Node>, bool))
    ensures ElementsOf(r.0) == Layout([c])
    decreases c, 4
  {
    var node := ChildNode(env, c, attrs, trailing, th);
    var run := TailRun(env, c.tail, attrs, preserve, ChildFlag(env, c, attrs, trailing, th));
    ChildLayout(c, node, run.0);
    ([node] + run.0, run.1)
  }

  /** The node of child `c`: its attributes resolved under the parent's, its
      content reflowed in the child's own mode. */
  function ChildNode(env: Environment, c: Element, attrs: Attributes, trailing: bool, th: Threading): (n: Node)
    ensures n.element == c
    decreases c, 3
  {
    var cattrs := Resolve(env, c, Some(attrs));
    var sub := Reflow(env, c, cattrs, trailing, false, th);
    Node(QualifiedTag(c), cattrs, Some(sub.text), sub.children, c)
  }

  /** The flag after child `c`: as written, whether the child's own text ends
      with a space; threaded, the flag after the child's whole content. */
  function ChildFlag(env: Environment, c: Element, attrs: Attributes, trailing: bool, th: Threading): bool
    decreases c, 3
  {
    var sub := Reflow(env, c, Resolve(env, c, Some(attrs)), trailing, false, th);
    if th == AsWritten then EndsWithSpace(sub.text) else sub.trailing
  }

  /** The layout of one child: its node, then the anonymous node of its tail
      if there is one. */
  lemma ChildLayout(c: Element, node: Node, run: seq<Node>)
    requires node.element == c
    requires |run| == (if NonEmpty(c.tail) then 1 else 0)
    requires NonEmpty(c.tail) ==> run[0].element == AnonymousTspan
    ensures ElementsOf([node] + run) == Layout([c])
  {
    var anon := if NonEmpty(c.tail) then [AnonymousTspan] else [];
    assert [c][1..] == [];
    assert Layout([c]) == [c] + anon;
    assert ElementsOf(run) == anon;
    assert ElementsOf([node]) == [c];
    ElementsOfAppend([node], run);
  }

  /** The text a node contributes, in document order. */
  function Content(n: Node): string
    decreases n, 1
  {
    n.text.GetOr([]) + ContentOf(n.children)
  }

  function ContentOf(ns: seq<Node>): string
    decreases ns, 0
  {
    if ns == [] then [] else Content(ns[0]) + ContentOf(ns[1..])
  }

  lemma {:induction false} ContentOfAppend(a: seq<Node>, b: seq<Node>)
    ensures ContentOf(a + b) == ContentOf(a) + ContentOf(b)
    decreases |a|
  {
    if a == [] {
      assert a + b == b;
    } else {
      assert (a + b)[0] == a[0];
      assert (a + b)[1..] == a[1..] + b;
      ContentOfAppend(a[1..], b);
    }
  }

  lemma Assoc(a: string, b: string, c: string)
    ensures a + (b + c) == a + b + c
  {
  }

  /** No node of the content is in `preserve` mode. */
  ghost predicate DefaultMode(env: Environment, e: Element, attrs: Attributes)
    decreases e
  {
    && !IsPreserve(attrs)
    && forall i :: 0 <= i < |e.children| ==>
         DefaultMode(env, e.children[i], Resolve(env, e.children[i], Some(attrs)))
  }

  /** The text emitted so far has no two adjacent spaces, and if it ends with a
      space the flag says so. */
  predicate Joinable(out: string, trailing: bool) {
    NoDoubleSpace(out) && (EndsWithSpace(out) ==> trailing)
  }

  /** Appending a default-mode run keeps the text joinable. */
  lemma AppendRun(out: string, trailing: bool, raw: Option<string>)
    requires Joinable(out, trailing)
    ensures var t := RunText(raw, false, trailing);
      Joinable(out + t, After(t, trailing))
  {
    JoinText(out, trailing, RunText(raw, false, trailing));
  }

  /** A text without two adjacent spaces, which does not start with a space
      when one is pending, continues a joinable text joinably. */
  lemma JoinText(out: string, trailing: bool, t: string)
    requires Joinable(out, trailing) && NoDoubleSpace(t)
    requires trailing ==> !StartsWithSpace(t)
    ensures Joinable(out + t, After(t, trailing))
  {
    var all := out + t;
    forall i | 0 <= i < |all| - 1
      ensures !(all[i] == ' ' && all[i + 1] == ' ')
    {
      if i + 1 < |out| {
        assert all[i] == out[i] && all[i + 1] == out[i + 1];
      } else if i + 1 == |out| {
        assert all[i] == out[|out| - 1] && all[i + 1] == t[0];
      } else {
        assert all[i] == t[i - |out|] && all[i + 1] == t[i + 1 - |out|];
      }
    }
    if t == [] {
      assert all == out;
    } else {
      assert all[|all| - 1] == t[|t| - 1];
    }
  }

  /** Right-stripping the root's only run keeps the text joinable. */
  lemma RStripJoins(out: string, trailing: bool, text: string)
    requires Joinable(out, trailing) && Joinable(out + text, After(text, trailing))
    ensures Joinable(out + RStripSpace(text), After(text, trailing))
  {
    var t := RStripSpace(text);
    assert out + t == (out + text)[..|out + t|];
    NoDoubleSpacePrefix(out + text, out + t);
    if t == [] {
      assert out + t == out;
      if text != [] {
        assert text[|text| - 1] == ' ';
      }
    } else {
      assert (out + t)[|out + t| - 1] == t[|t| - 1];
    }
  }

  /** With the flag threaded, a default-mode reflow continues joinably any
      joinable text... */
  lemma {:induction false} ReflowJoins(env: Environment, e: Element, attrs: Attributes, trailing: bool,
                                       textRoot: bool, out: string)
    requires DefaultMode(env, e, attrs) && Joinable(out, trailing)
    ensures var r := Reflow(env, e, attrs, trailing, textRoot, Threaded);
      Joinable(out + r.text + ContentOf(r.children), r.trailing)
    decreases e, 2
  {
    var text := RunText(e.text, false, trailing);
    var rest := ReflowFrom(env, e, attrs, false, 0, After(text, trailing), Threaded);
    AppendRun(out, trailing, e.text);
    ReflowFromJoins(env, e, attrs, 0, After(text, trailing), out + text);
    var stripped := textRoot && rest.0 == [];
    if stripped {
      assert |Layout(e.children)| == 0;
      assert rest.1 == After(text, trailing);
    }
    FinishJoins(out, trailing, text, rest, stripped, Reflow(env, e, attrs, trailing, textRoot, Threaded));
  }

  /** The root's text, stripped or not, followed by its children's content. */
  lemma FinishJoins(out: string, trailing: bool, text: string, rest: (seq<Node>, bool), stripped: bool,
                    r: Reflowed)
    requires Joinable(out, trailing) && Joinable(out + text, After(text, trailing))
    requires Joinable(out + text + ContentOf(rest.0), rest.1)
    requires stripped ==> rest.0 == [] && rest.1 == After(text, trailing)
    requires r == if stripped then Reflowed(RStripSpace(text), rest.0, rest.1) else Reflowed(text, rest.0, rest.1)
    ensures Joinable(out + r.text + ContentOf(r.children), r.trailing)
  {
    if stripped {
      assert ContentOf(rest.0) == [];
      RStripJoins(out, trailing, text);
      assert out + r.text + ContentOf(r.children) == out + RStripSpace(text);
    }
  }

  /** ... and so does the loop over the children... */
  lemma {:induction false} ReflowFromJoins(env: Environment, e: Element, attrs: Attributes, i: nat,
                                           trailing: bool, out: string)
    requires i <= |e.children| && DefaultMode(env, e, attrs) && Joinable(out, trailing)
    ensures var r := ReflowFrom(env, e, attrs, false, i, trailing, Threaded);
      Joinable(out + ContentOf(r.0), r.1)
    decreases e, 1, |e.children| - i
  {
    if i == |e.children| {
      assert out + ContentOf([]) == out;
    } else {
      var c := e.children[i];
      var step := ReflowChild(env, c, attrs, false, trailing, Threaded);
      var rest := ReflowFrom(env, e, attrs, false, i + 1, step.1, Threaded);
      var out1 := out + ContentOf(step.0);
      assert Joinable(out1, step.1) by {
        ReflowChildJoins(env, c, attrs, trailing, out);
      }
      assert Joinable(out1 + ContentOf(rest.0), rest.1) by {
        ReflowFromJoins(env, e, attrs, i + 1, step.1, out1);
      }
      assert out + ContentOf(step.0 + rest.0) == out1 + ContentOf(rest.0) by {
        ContentOfAppend(step.0, rest.0);
        Assoc(out, ContentOf(step.0), ContentOf(rest.0));
      }
    }
  }

  /** ... and one turn of it. */
  lemma {:induction false} ReflowChildJoins(env: Environment, c: Element, attrs: Attributes,
                                            trailing: bool, out: string)
    requires !IsPreserve(attrs) && DefaultMode(env, c, Resolve(env, c, Some(attrs)))
    requires Joinable(out, trailing)
    ensures var r := ReflowChild(env, c, attrs, false, trailing, Threaded);
      Joinable(out + ContentOf(r.0), r.1)
    decreases c, 4
  {
    var node := ChildNode(env, c, attrs, trailing, Threaded);
    var flag := ChildFlag(env, c, attrs, trailing, Threaded);
    var run := TailRun(env, c.tail, attrs, false, flag);
    ChildNodeJoins(env, c, attrs, trailing, out);
    TailJoins(env, c.tail, attrs, out + Content(node), flag);
    ContentOfCons(out, node, run.0);
  }

  /** The child's node continues joinably any joinable text, and leaves the
      flag the threaded reading passes on. */
  lemma {:induction false} ChildNodeJoins(env: Environment, c: Element, attrs: Attributes,
                                          trailing: bool, out: string)
    requires DefaultMode(env, c, Resolve(env, c, Some(attrs)))
    requires Joinable(out, trailing)
    ensures Joinable(out + Content(ChildNode(env, c, attrs, trailing, Threaded)),
                     ChildFlag(env, c, attrs, trailing, Threaded))
    decreases c, 3
  {
    var cattrs := Resolve(env, c, Some(attrs));
    var sub := Reflow(env, c, cattrs, trailing, false, Threaded);
    ReflowJoins(env, c, cattrs, trailing, false, out);
    NodeJoins(out, sub, ChildNode(env, c, attrs, trailing, Threaded));
  }

  /** The node of a child carries the child's reflowed content. */
  lemma NodeJoins(out: string, sub: Reflowed, node: Node)
    requires node.text == Some(sub.text) && node.children == sub.children
    requires Joinable(out + sub.text + ContentOf(sub.children), sub.trailing)
    ensures Joinable(out + Content(node), sub.trailing)
  {
    assert Content(node) == sub.text + ContentOf(sub.children);
    Assoc(out, sub.text, ContentOf(sub.children));
  }

  /** The anonymous run of a tail continues joinably any joinable text. */
  lemma TailJoins(env: Environment, tail: Option<string>, attrs: Attributes, out: string, trailing: bool)
    requires Joinable(out, trailing)
    ensures var run := TailRun(env, tail, attrs, false, trailing);
      Joinable(out + ContentOf(run.0), run.1)
  {
    var run := TailRun(env, tail, attrs, false, trailing);
    if NonEmpty(tail) {
      var t := RunText(tail, false, trailing);
      AppendRun(out, trailing, tail);
      assert run.1 == After(t, trailing);
      assert ContentOf(run.0) == t by {
        ContentOfSingle(run.0);
        assert run.0[0].text == Some(t) && run.0[0].children == [];
      }
    } else {
      assert out + ContentOf(run.0) == out;
    }
  }

  lemma ContentOfSingle(ns: seq<Node>)
    requires |ns| == 1
    ensures ContentOf(ns) == ns[0].text.GetOr([]) + ContentOf(ns[0].children)
  {
    assert ContentOf(ns) == Content(ns[0]) + ContentOf([]);
  }

  lemma ContentOfCons(out: string, n: Node, ns: seq<Node>)
    ensures out + ContentOf([n] + ns) == out + Content(n) + ContentOf(ns)
  {
    ContentOfAppend([n], ns);
    assert ContentOf([n]) == Content(n) + ContentOf([]);
    Assoc(out, Content(n), ContentOf(ns));
  }

  /** In default mode, with the flag threaded, the text of a whole `text`
      element has no two adjacent spaces. */
  lemma ThreadedTextHasNoDoubleSpace(env: Environment, e: Element, attrs: Attributes)
    requires DefaultMode(env, e, attrs)
    ensures var r := Reflow(env, e, attrs, true, true, Threaded);
      NoDoubleSpace(r.text + ContentOf(r.children))
  {
    var r := Reflow(env, e, attrs, true, true, Threaded);
    ReflowJoins(env, e, attrs, true, true, []);
    JoinedFromNothing(r.text, ContentOf(r.children), r.trailing);
  }

  lemma JoinedFromNothing(a: string, b: string, trailing: bool)
    requires Joinable([] + a + b, trailing)
    ensures NoDoubleSpace(a + b)
  {
    assert [] + a + b == a + b;
  }
}
