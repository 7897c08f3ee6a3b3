/**
 Fragment resolution in `Tree.__init__`: when the URL carries a fragment, the
 element whose `id` is the fragment, first in document order of the whole
 parsed tree (the root included), becomes the root of the tree; when no
 element has that id, loading fails with `No tag with id="…" found.`.
 */
module Fragment {
  import opened Wrappers
  import opened Elements

  /** The message of the `TypeError` raised when no element has the id. */
  function NotFoundMessage(id: string): string {
    "No tag with id=\"" + id + "\" found."
  }

  /** `element.id == id`: the element has an `id` attribute equal to `id`. */
  predicate HasId(e: Element, id: string) {
    Lookup(e.attributes, "id") == Some(id)
  }

  /** `iter_subtree()`: the element, then the subtrees of its children in
      order. */
  function PreOrder(e: Element): (r: seq<Element>)
    ensures |r| >= 1 && r[0] == e
    decreases e, 1
  {
    [e] + PreOrderOf(e.children)
  }

  function PreOrderOf(es: seq<Element>): (r: seq<Element>)
    decreases es, 0
  {
    if es == [] then [] else PreOrder(es[0]) + PreOrderOf(es[1..])
  }

  /** The first element of `es` that has the id. */
  function FirstWithId(es: seq<Element>, id: string): (r: Option<nat>)
    ensures r.Some? ==> r.value < |es| && HasId(es[r.value], id)
    ensures r.Some? ==> forall j :: 0 <= j < r.value ==> !HasId(es[j], id)
    ensures r.None? ==> forall j :: 0 <= j < |es| ==> !HasId(es[j], id)
  {
    if es == [] then None
    else if HasId(es[0], id) then Some(0)
    else match FirstWithId(es[1..], id)
      case Some(i) => Some(i + 1)
      case None => None
  }

  /** The search as a walk of the tree: the element itself if it has the id,
      otherwise the first hit among its children's subtrees. What it finds has
      the id, and it finds something exactly when some element of the subtree
      has it. */
  function FindById(e: Element, id: string): (r: Option<Element>)
    ensures r.Some? ==> HasId(r.value, id)
    ensures r.None? <==> forall x :: x in PreOrder(e) ==> !HasId(x, id)
    decreases e, 1
  {
    if HasId(e, id) then Some(e) else FindIn(e.children, id)
  }

  function FindIn(es: seq<Element>, id: string): (r: Option<Element>)
    ensures r.Some? ==> HasId(r.value, id)
    ensures r.None? <==> forall x :: x in PreOrderOf(es) ==> !HasId(x, id)
    decreases es, 0
  {
    if es == [] then None
    else match FindById(es[0], id)
      case Some(x) => Some(x)
      case None => FindIn(es[1..], id)
  }

  /** The walk finds the first element of the pre-order that has the id, and
      nothing when none has it. */
  lemma {:induction false} FindIsFirstInPreOrder(e: Element, id: string)
    ensures FindById(e, id) == match FirstWithId(PreOrder(e), id)
      case Some(i) => Some(PreOrder(e)[i])
      case None => None
    decreases e, 1
  {
    FindInIsFirst(e.children, id);
    FirstWithIdAppend([e], PreOrderOf(e.children), id);
  }

  lemma {:induction false} FindInIsFirst(es: seq<Element>, id: string)
    ensures FindIn(es, id) == match FirstWithId(PreOrderOf(es), id)
      case Some(i) => Some(PreOrderOf(es)[i])
      case None => None
    decreases es, 0
  {
    if es != [] {
      FindIsFirstInPreOrder(es[0], id);
      FindInIsFirst(es[1..], id);
      FirstWithIdAppend(PreOrder(es[0]), PreOrderOf(es[1..]), id);
    }
  }

  /** The first hit in `a + b` is the first hit in `a`, or else the first hit
      in `b`, shifted past `a`. */
  lemma FirstWithIdAppend(a: seq<Element>, b: seq<Element>, id: string)
    ensures FirstWithId(a + b, id) ==
      if FirstWithId(a, id).Some? then FirstWithId(a, id)
      else if FirstWithId(b, id).Some? then Some(|a| + FirstWithId(b, id).value)
      else None
  {
    var ab := a + b;
    match FirstWithId(a, id)
    case Some(j) =>
      assert ab[j] == a[j];
      FirstIs(ab, id, j);
    case None =>
      forall j | 0 <= j < |a|
        ensures !HasId(ab[j], id)
      {
        assert ab[j] == a[j];
      }
      match FirstWithId(b, id)
      case Some(k) =>
        assert ab[|a| + k] == b[k];
        forall j | |a| <= j < |a| + k
          ensures !HasId(ab[j], id)
        {
          assert ab[j] == b[j - |a|];
        }
        FirstIs(ab, id, |a| + k);
      case None =>
        forall j | |a| <= j < |ab|
          ensures !HasId(ab[j], id)
        {
          assert ab[j] == b[j - |a|];
        }
  }

  lemma FirstIs(es: seq<Element>, id: string, i: nat)
    requires i < |es| && HasId(es[i], id) && forall j :: 0 <= j < i ==> !HasId(es[j], id)
    ensures FirstWithId(es, id) == Some(i)
  {
  }

  /** The root the tree is built from: the parsed root when the fragment is
      empty, otherwise the element the fragment names, or the error. */
  function ResolveFragment(root: Element, fragment: string): (r: Result<Element, string>)
    ensures fragment == [] ==> r == Ok(root)
    ensures fragment != [] && FirstWithId(PreOrder(root), fragment).Some? ==>
      r == Ok(PreOrder(root)[FirstWithId(PreOrder(root), fragment).value])
    ensures fragment != [] && FirstWithId(PreOrder(root), fragment).None? ==>
      r == Err(NotFoundMessage(fragment))
    ensures fragment != [] && r.Ok? ==> HasId(r.value, fragment) && r.value in PreOrder(root)
    ensures fragment != [] && r.Err? ==>
      r.error == NotFoundMessage(fragment) && forall x :: x in PreOrder(root) ==> !HasId(x, fragment)
  {
    if fragment == [] then Ok(root)
    else
      FindIsFirstInPreOrder(root, fragment);
      match FindById(root, fragment)
      case Some(x) => Ok(x)
      case None => Err(NotFoundMessage(fragment))
  }

  /** The loop of the source over `iter_subtree()`, stopping at the first
      match, failing when the loop runs out. */
  method ResolveFragmentLoop(root: Element, fragment: string) returns (r: Result<Element, string>)
    ensures r == ResolveFragment(root, fragment)
  {
    if fragment == [] {
      return Ok(root);
    }
    var order := PreOrder(root);
    var i := 0;
    while i < |order|
      invariant 0 <= i <= |order|
      invariant forall j :: 0 <= j < i ==> !HasId(order[j], fragment)
    {
      if HasId(order[i], fragment) {
        FirstIs(order, fragment, i);
        FindIsFirstInPreOrder(root, fragment);
        return Ok(order[i]);
      }
      i := i + 1;
    }
    FindIsFirstInPreOrder(root, fragment);
    return Err(NotFoundMessage(fragment));
  }
}
