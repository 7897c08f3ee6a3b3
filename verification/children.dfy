/**
 Child selection in `Node.__init__`: the children of an ordinary node are the
 element's children that pass the conditional-processing test, in document
 order; a `switch` keeps only the first one that passes.
 */
module Children {
  import opened Wrappers
  import opened Elements

  /** The children that pass `test`, in order. */
  function Filter(test: Element -> bool, cs: seq<Element>): (r: seq<Element>)
    ensures |r| <= |cs|
    ensures forall x :: x in r ==> x in cs && test(x)
  {
    if cs == [] then []
    else (if test(cs[0]) then [cs[0]] else []) + Filter(test, cs[1..])
  }

  /** The index of the first child that passes `test`. */
  function FirstPassing(test: Element -> bool, cs: seq<Element>): (r: Option<nat>)
    ensures r.Some? ==> r.value < |cs| && test(cs[r.value])
    ensures r.Some? ==> forall j :: 0 <= j < r.value ==> !test(cs[j])
    ensures r.None? ==> forall j :: 0 <= j < |cs| ==> !test(cs[j])
  {
    if cs == [] then None
    else if test(cs[0]) then Some(0)
    else match FirstPassing(test, cs[1..])
      case Some(i) => Some(i + 1)
      case None => None
  }

  /** The children a node keeps: every passing child, or for a `switch` only
      the first one. */
  function SelectChildren(test: Element -> bool, cs: seq<Element>, isSwitch: bool): (r: seq<Element>)
    ensures forall x :: x in r ==> x in cs && test(x)
  {
    if !isSwitch then Filter(test, cs)
    else match FirstPassing(test, cs)
      case Some(i) => [cs[i]]
      case None => []
  }

  /** Filtering commutes with concatenation... */
  lemma {:induction false} FilterAppend(test: Element -> bool, a: seq<Element>, b: seq<Element>)
    ensures Filter(test, a + b) == Filter(test, a) + Filter(test, b)
    decreases |a|
  {
    if a == [] {
      assert a + b == b;
    } else {
      assert (a + b)[0] == a[0];
      assert (a + b)[1..] == a[1..] + b;
      FilterAppend(test, a[1..], b);
    }
  }

  /** ... and keeps exactly the passing children, which together with
      `FilterAppend` pins down their order. */
  lemma FilterKeepsExactlyPassing(test: Element -> bool, cs: seq<Element>)
    ensures forall x :: x in Filter(test, cs) <==> x in cs && test(x)
    ensures forall x :: Filter(test, [x]) == if test(x) then [x] else []
  {
    forall x | x in cs && test(x)
      ensures x in Filter(test, cs)
    {
      FilterContains(test, cs, x);
    }
    forall x
      ensures Filter(test, [x]) == if test(x) then [x] else []
    {
      assert [x][1..] == [];
    }
  }

  lemma {:induction false} FilterContains(test: Element -> bool, cs: seq<Element>, x: Element)
    requires x in cs && test(x)
    ensures x in Filter(test, cs)
    decreases |cs|
  {
    if cs[0] != x {
      FilterContains(test, cs[1..], x);
    }
  }

  /** Child `i` is the first child that passes `test`. */
  predicate IsFirstPassing(test: Element -> bool, cs: seq<Element>, i: int) {
    0 <= i < |cs| && test(cs[i]) && forall j :: 0 <= j < i ==> !test(cs[j])
  }

  /** A `switch` keeps at most one child: none exactly when no child passes,
      otherwise the first child that passes. */
  lemma SwitchKeepsFirstPassing(test: Element -> bool, cs: seq<Element>, kept: seq<Element>)
    requires kept == SelectChildren(test, cs, true)
    ensures |kept| <= 1
    ensures kept == [] <==> forall j :: 0 <= j < |cs| ==> !test(cs[j])
    ensures forall i :: IsFirstPassing(test, cs, i) ==> |kept| == 1 && kept[0] == cs[i]
  {
    forall i | IsFirstPassing(test, cs, i)
      ensures |kept| == 1 && kept[0] == cs[i]
    {
      FirstPassingIs(test, cs, i);
    }
  }

  /** The loop of the source: append each passing child, and for a `switch`
      stop after the first one. */
  method SelectChildrenLoop(test: Element -> bool, cs: seq<Element>, isSwitch: bool) returns (r: seq<Element>)
    ensures r == SelectChildren(test, cs, isSwitch)
  {
    r := [];
    var i := 0;
    while i < |cs|
      invariant 0 <= i <= |cs|
      invariant !isSwitch ==> r == Filter(test, cs[..i])
      invariant isSwitch ==> r == [] && forall j :: 0 <= j < i ==> !test(cs[j])
    {
      FilterSnoc(test, cs, i);
      if test(cs[i]) {
        r := r + [cs[i]];
        if isSwitch {
          assert FirstPassing(test, cs) == Some(i) by {
            FirstPassingIs(test, cs, i);
          }
          return;
        }
      }
      i := i + 1;
    }
    assert cs[..i] == cs;
  }

  lemma FilterSnoc(test: Element -> bool, cs: seq<Element>, i: nat)
    requires i < |cs|
    ensures Filter(test, cs[..i + 1]) == Filter(test, cs[..i]) + if test(cs[i]) then [cs[i]] else []
  {
    var x := cs[i];
    assert cs[..i + 1] == cs[..i] + [x];
    FilterAppend(test, cs[..i], [x]);
    assert Filter(test, [x]) == if test(x) then [x] else [] by {
      assert [x][1..] == [];
    }
  }

  lemma FirstPassingIs(test: Element -> bool, cs: seq<Element>, i: nat)
    requires i < |cs| && test(cs[i]) && forall j :: 0 <= j < i ==> !test(cs[j])
    ensures FirstPassing(test, cs) == Some(i)
  {
  }
}
