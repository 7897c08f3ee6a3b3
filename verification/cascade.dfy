/**
 The attribute cascade of `Node.__init__`: a node starts from the inheritable
 attributes of its parent, overlays the raw attributes of its element, then
 the declarations of four tiers in increasing precedence (stylesheet normal,
 inline normal, stylesheet important, inline important), each value stored
 stripped; finally `currentColor` in the five colour properties is replaced by
 the node's `color`, and then `inherit` by the parent's value.
 */
module Cascade {
  import opened Chars
  import opened Wrappers
  import opened Elements

  /** `NOT_INHERITED_ATTRIBUTES`. */
  const NotInherited: set<string> := {
    "clip", "clip-path", "display", "filter", "height", "id", "mask", "opacity",
    "overflow", "rotate", "stop-color", "stop-opacity", "style", "transform",
    "viewBox", "width", "x", "y", "dx", "dy", "{http://www.w3.org/1999/xlink}href"
  }

  /** `COLOR_ATTRIBUTES`. */
  const ColorAttributes: set<string> := {"fill", "flood-color", "lighting-color", "stop-color", "stroke"}

  /** The parent's attributes a child starts from. */
  function Inherited(parent: Option<Attributes>): (r: Attributes)
    ensures forall k :: k in r <==> parent.Some? && k in parent.value && k !in NotInherited
    ensures forall k :: k in r ==> r[k] == parent.value[k]
  {
    match parent
    case None => map[]
    case Some(p) => map k | k in p && k !in NotInherited :: p[k]
  }

  /** `for name, value in declarations: self[name] = value.strip()`. */
  function ApplyDeclarations(m: Attributes, ds: Declarations): (r: Attributes)
    decreases |ds|
  {
    if ds == [] then m
    else
      var last := ds[|ds| - 1];
      ApplyDeclarations(m, ds[..|ds| - 1])[last.0 := Strip(last.1)]
  }

  /** The index of the last declaration of `name` in `ds`. */
  function LastDeclaration(ds: Declarations, name: string): (r: Option<nat>)
    ensures r.Some? ==> r.value < |ds| && ds[r.value].0 == name
    ensures r.Some? ==> forall j :: r.value < j < |ds| ==> ds[j].0 != name
    ensures r.None? ==> forall j :: 0 <= j < |ds| ==> ds[j].0 != name
  {
    if ds == [] then None
    else if ds[|ds| - 1].0 == name then Some(|ds| - 1)
    else LastDeclaration(ds[..|ds| - 1], name)
  }

  /** The value the last declaration of `name` in `ds` stores, if any. */
  function Declared(ds: Declarations, name: string): (r: Option<string>)
    ensures r.Some? <==> exists j :: 0 <= j < |ds| && ds[j].0 == name
  {
    match LastDeclaration(ds, name)
    case Some(i) => Some(Strip(ds[i].1))
    case None => None
  }

  /** Applying the declarations in order leaves each name with the stripped
      value of its last declaration, and every other name as it was. */
  lemma {:induction false} ApplyIsLastDeclaration(m: Attributes, ds: Declarations, name: string)
    ensures Lookup(ApplyDeclarations(m, ds), name) ==
      if Declared(ds, name).Some? then Declared(ds, name) else Lookup(m, name)
    decreases |ds|
  {
    if ds != [] {
      var init, last := ds[..|ds| - 1], ds[|ds| - 1];
      var before := ApplyDeclarations(m, init);
      assert ApplyDeclarations(m, ds) == before[last.0 := Strip(last.1)];
      if last.0 == name {
        assert LastDeclaration(ds, name) == Some(|ds| - 1);
      } else {
        ApplyIsLastDeclaration(m, init, name);
        assert LastDeclaration(ds, name) == LastDeclaration(init, name);
        assert Declared(ds, name) == Declared(init, name);
        assert Lookup(ApplyDeclarations(m, ds), name) == Lookup(before, name);
      }
    }
  }

  function Concat(lists: seq<Declarations>): (r: Declarations)
  {
    if lists == [] then [] else Concat(lists[..|lists| - 1]) + lists[|lists| - 1]
  }

  lemma ApplyConcat(m: Attributes, a: Declarations, b: Declarations)
    ensures ApplyDeclarations(m, a + b) == ApplyDeclarations(ApplyDeclarations(m, a), b)
    decreases |b|
  {
    if b != [] {
      assert (a + b)[..|a + b| - 1] == a + b[..|b| - 1];
      ApplyConcat(m, a, b[..|b| - 1]);
    } else {
      assert a + b == a;
    }
  }

  /** The four declaration tiers of a node, lowest precedence first. */
  datatype Tiers = Tiers(
    normal: seq<Declarations>,
    inlineNormal: Declarations,
    important: seq<Declarations>,
    inlineImportant: Declarations)

  /** The declarations of the four tiers in the order the source applies them. */
  function Ordered(t: Tiers): Declarations {
    Concat(t.normal) + t.inlineNormal + Concat(t.important) + t.inlineImportant
  }

  /** The attributes before the `currentColor` and `inherit` substitutions. */
  function Specified(parent: Option<Attributes>, raw: Attributes, t: Tiers): Attributes {
    ApplyDeclarations(Inherited(parent) + raw, Ordered(t))
  }

  /** The precedence the cascade promises, highest first: inline important,
      stylesheet important, inline normal, stylesheet normal, the raw
      attribute, the inherited parent value. */
  function ByPrecedence(parent: Option<Attributes>, raw: Attributes, t: Tiers, name: string): Option<string> {
    if Declared(t.inlineImportant, name).Some? then Declared(t.inlineImportant, name)
    else if Declared(Concat(t.important), name).Some? then Declared(Concat(t.important), name)
    else if Declared(t.inlineNormal, name).Some? then Declared(t.inlineNormal, name)
    else if Declared(Concat(t.normal), name).Some? then Declared(Concat(t.normal), name)
    else if name in raw then Some(raw[name])
    else if parent.Some? && name in parent.value && name !in NotInherited then Some(parent.value[name])
    else None
  }

  /** A name declared in the later block takes the later block's value; a name
      not declared there keeps its value from the earlier one. */
  lemma ApplyLater(m: Attributes, a: Declarations, b: Declarations, name: string)
    ensures Lookup(ApplyDeclarations(m, a + b), name) ==
      if Declared(b, name).Some? then Declared(b, name) else Lookup(ApplyDeclarations(m, a), name)
  {
    ApplyConcat(m, a, b);
    ApplyIsLastDeclaration(ApplyDeclarations(m, a), b, name);
  }

  /** The order in which the source applies the tiers realises the promised
      precedence, for every attribute name. */
  lemma SpecifiedFollowsPrecedence(parent: Option<Attributes>, raw: Attributes, t: Tiers, name: string)
    ensures Lookup(Specified(parent, raw, t), name) == ByPrecedence(parent, raw, t, name)
  {
    var base := Inherited(parent) + raw;
    var n, i, c := Concat(t.normal), t.inlineNormal, Concat(t.important);
    assert Ordered(t) == ((n + i) + c) + t.inlineImportant;
    ApplyLater(base, (n + i) + c, t.inlineImportant, name);
    ApplyLater(base, n + i, c, name);
    ApplyLater(base, n, i, name);
    ApplyIsLastDeclaration(base, n, name);
  }

  /** Replace `currentColor` by a real colour: each colour property whose value
      is exactly `currentColor` takes the value of `color`, or `black`, and
      nothing else changes; so when `color` is not itself `currentColor`, no
      colour property is left `currentColor`. */
  function SubstituteCurrentColor(m: Attributes): (r: Attributes)
    ensures r.Keys == m.Keys
    ensures forall k :: k in m && (k !in ColorAttributes || m[k] != "currentColor") ==> r[k] == m[k]
    ensures forall k :: k in m && k in ColorAttributes && m[k] == "currentColor" ==>
      r[k] == (if "color" in m then m["color"] else "black")
    ensures Lookup(m, "color") != Some("currentColor") ==>
      forall k :: k in r && k in ColorAttributes ==> r[k] != "currentColor"
  {
    CurrentColorMap(m)
  }

  function CurrentColorMap(m: Attributes): Attributes {
    map k | k in m ::
      if k in ColorAttributes && m[k] == "currentColor" then Lookup(m, "color").GetOr("black") else m[k]
  }

  /** Replace `inherit` by the parent's value, or drop the attribute when there
      is no parent or the parent does not have it: an attribute is kept exactly
      when it is not `inherit` or the parent has it, and with a parent free of
      `inherit` no value is `inherit` afterwards. */
  function SubstituteInherit(m: Attributes, parent: Option<Attributes>): (r: Attributes)
    ensures forall k :: k in r <==> k in m && (m[k] != "inherit" || (parent.Some? && k in parent.value))
    ensures forall k :: k in r && m[k] != "inherit" ==> r[k] == m[k]
    ensures forall k :: k in r && m[k] == "inherit" ==> parent.Some? && r[k] == parent.value[k]
    ensures ParentHasNoInherit(parent) ==> HasNoInherit(r)
  {
    InheritMap(m, parent)
  }

  function InheritMap(m: Attributes, parent: Option<Attributes>): Attributes {
    map k | k in m && (m[k] != "inherit" || (parent.Some? && k in parent.value)) ::
      if m[k] == "inherit" then parent.value[k] else m[k]
  }

  /** The source visits the colour properties one at a time, in the unspecified
      iteration order of a frozenset. Since `color` is not one of them, every
      order gives the simultaneous substitution. */
  method SubstituteCurrentColorInOrder(m: Attributes, order: seq<string>) returns (r: Attributes)
    requires forall i :: 0 <= i < |order| ==> order[i] in ColorAttributes
    requires forall k :: k in ColorAttributes ==> k in order
    ensures r == SubstituteCurrentColor(m)
  {
    assert "color" !in order;
    var color := Lookup(m, "color").GetOr("black");
    r := m;
    for i := 0 to |order|
      invariant ColoredUpTo(m, order[..i], r)
    {
      var a := order[i];
      assert a in ColorAttributes;
      ghost var before := r;
      if Lookup(r, a) == Some("currentColor") {
        r := r[a := color];
      }
      ColorStep(m, order, i, before, r);
    }
    assert order[..|order|] == order;
    ListedColorsAreAll(m, order, r);
  }

  /** After the colour properties in `done` are visited, each of them that
      was `currentColor` holds the colour, and everything else is as it was. */
  ghost predicate ColoredUpTo(m: Attributes, done: seq<string>, r: Attributes) {
    && r.Keys == m.Keys
    && "color" !in done
    && (forall k :: k in m ==>
         r[k] == if k in done && m[k] == "currentColor" then Lookup(m, "color").GetOr("black") else m[k])
  }

  lemma ColorStep(m: Attributes, order: seq<string>, i: nat, r: Attributes, next: Attributes)
    requires i < |order| && order[i] != "color" && ColoredUpTo(m, order[..i], r)
    requires next == if Lookup(r, order[i]) == Some("currentColor")
      then r[order[i] := Lookup(m, "color").GetOr("black")] else r
    ensures ColoredUpTo(m, order[..i + 1], next)
  {
    assert order[..i + 1] == order[..i] + [order[i]];
    assert Lookup(r, "color") == Lookup(m, "color");
  }

  lemma ListedColorsAreAll(m: Attributes, order: seq<string>, r: Attributes)
    requires forall i :: 0 <= i < |order| ==> order[i] in ColorAttributes
    requires forall k :: k in ColorAttributes ==> k in order
    requires ColoredUpTo(m, order, r)
    ensures r == SubstituteCurrentColor(m)
  {
    forall k | k in m
      ensures r[k] == SubstituteCurrentColor(m)[k]
    {
      assert k in order <==> k in ColorAttributes;
    }
  }

  /** The source first lists the attributes whose value is `inherit`, then
      replaces or deletes each; the values it copies come from the parent, so
      the result is the simultaneous substitution. */
  method SubstituteInheritInOrder(m: Attributes, parent: Option<Attributes>, names: seq<string>)
    returns (r: Attributes)
    requires forall i :: 0 <= i < |names| ==> names[i] in m && m[names[i]] == "inherit"
    requires forall k :: k in m && m[k] == "inherit" ==> k in names
    ensures r == SubstituteInherit(m, parent)
  {
    r := m;
    for i := 0 to |names|
      invariant InheritedUpTo(m, parent, names[..i], r)
    {
      var a := names[i];
      ghost var before := r;
      if parent.Some? && a in parent.value {
        r := r[a := parent.value[a]];
      } else {
        r := r - {a};
      }
      assert names[..i + 1] == names[..i] + [a];
      InheritStep(m, parent, names[..i], a, before, r);
    }
    assert names[..|names|] == names;
    InheritedAll(m, parent, names, r);
  }

  /** After the names in `done` are handled, each of them holds the parent's
      value or is gone, and every other attribute is as it was. */
  ghost predicate InheritedUpTo(m: Attributes, parent: Option<Attributes>, done: seq<string>, r: Attributes) {
    && (forall k :: k in r <==> k in m && (k !in done || (parent.Some? && k in parent.value)))
    && (forall k :: k in r && k in done ==> parent.Some? && r[k] == parent.value[k])
    && (forall k :: k in r && k !in done ==> r[k] == m[k])
  }

  lemma InheritStep(m: Attributes, parent: Option<Attributes>, done: seq<string>, a: string,
                    r: Attributes, next: Attributes)
    requires InheritedUpTo(m, parent, done, r) && a in m
    requires next == if parent.Some? && a in parent.value then r[a := parent.value[a]] else r - {a}
    ensures InheritedUpTo(m, parent, done + [a], next)
  {
  }

  lemma InheritedAll(m: Attributes, parent: Option<Attributes>, names: seq<string>, r: Attributes)
    requires forall i :: 0 <= i < |names| ==> names[i] in m && m[names[i]] == "inherit"
    requires forall k :: k in m && m[k] == "inherit" ==> k in names
    requires InheritedUpTo(m, parent, names, r)
    ensures r == SubstituteInherit(m, parent)
  {
    forall k | k in m
      ensures k in names <==> m[k] == "inherit"
    {
      if k in names {
        var i :| 0 <= i < |names| && names[i] == k;
      }
    }
  }

  /** The inline `style` attribute's declarations, when it is present and not
      empty. */
  function InlineDeclarations(env: Environment, e: Element): (r: (Declarations, Declarations))
    ensures "style" !in e.attributes || e.attributes["style"] == [] ==> r == ([], [])
    ensures "style" in e.attributes && e.attributes["style"] != [] ==> r == env.parseInline(e.attributes["style"])
  {
    if "style" in e.attributes && e.attributes["style"] != [] then env.parseInline(e.attributes["style"])
    else ([], [])
  }

  function TiersOf(env: Environment, e: Element): Tiers {
    var inline := InlineDeclarations(env, e);
    Tiers(env.normalRules(e), inline.0, env.importantRules(e), inline.1)
  }

  /** The resolved attributes of a node built from `e` under `parent`; under a
      parent free of `inherit`, none of them is `inherit`. */
  function Resolve(env: Environment, e: Element, parent: Option<Attributes>): (r: Attributes)
    ensures ParentHasNoInherit(parent) ==> HasNoInherit(r)
  {
    var m := CurrentColorMap(Specified(parent, e.attributes, TiersOf(env, e)));
    assert InheritMap(m, parent) == SubstituteInherit(m, parent);
    InheritMap(m, parent)
  }

  /** `Resolve` is the three stages in turn. */
  lemma ResolveStages(env: Environment, e: Element, parent: Option<Attributes>)
    ensures Resolve(env, e, parent) ==
      SubstituteInherit(SubstituteCurrentColor(Specified(parent, e.attributes, TiersOf(env, e))), parent)
  {
  }

  predicate HasNoInherit(m: Attributes) {
    forall k :: k in m ==> m[k] != "inherit"
  }

  predicate ParentHasNoInherit(parent: Option<Attributes>) {
    parent.None? || HasNoInherit(parent.value)
  }

  /** An attribute no tier declares, that the element does not set and that is
      not `inherit`-valued in the parent, is the parent's value when it is
      inheritable and absent when it is in the not-inherited set. */
  lemma InheritsUndeclared(env: Environment, e: Element, parent: Attributes, name: string)
    requires name !in e.attributes && name !in ColorAttributes
    requires ByPrecedence(Some(parent), e.attributes, TiersOf(env, e), name) ==
      (if name in parent && name !in NotInherited then Some(parent[name]) else None)
    requires name in parent ==> parent[name] != "inherit"
    ensures name in NotInherited ==> name !in Resolve(env, e, Some(parent))
    ensures name !in NotInherited && name in parent ==>
      name in Resolve(env, e, Some(parent)) && Resolve(env, e, Some(parent))[name] == parent[name]
    ensures name !in parent ==> name !in Resolve(env, e, Some(parent))
  {
    SpecifiedFollowsPrecedence(Some(parent), e.attributes, TiersOf(env, e), name);
    ResolveStages(env, e, Some(parent));
  }

  /** `currentColor` reads `color` before `inherit` is resolved: a colour
      property set to `currentColor` next to `color: inherit` becomes
      `inherit` first and then takes the parent's value of that same
      property, not the parent's colour. */
  lemma CurrentColorBeforeInherit(m: Attributes, parent: Attributes, k: string)
    requires k in ColorAttributes && k in m && m[k] == "currentColor"
    requires "color" in m && m["color"] == "inherit"
    ensures var r := SubstituteInherit(SubstituteCurrentColor(m), Some(parent));
      (k in parent ==> k in r && r[k] == parent[k]) && (k !in parent ==> k !in r)
  {
  }

  /** The value an attribute ends with, given its specified value `v`, the
      specified `color` and the parent: `currentColor` in a colour property
      reads `color` (or `black`), then `inherit` reads the parent or drops the
      attribute. */
  function Substituted(parent: Option<Attributes>, name: string, v: Option<string>, color: Option<string>): Option<string> {
    var c := if name in ColorAttributes && v == Some("currentColor") then Some(color.GetOr("black")) else v;
    if c == Some("inherit") then (if parent.Some? && name in parent.value then Some(parent.value[name]) else None)
    else c
  }

  /** The whole cascade, name by name: the resolved value of an attribute is
      its value by precedence, after the `currentColor` and `inherit`
      substitutions. */
  lemma ResolveByPrecedence(env: Environment, e: Element, parent: Option<Attributes>, name: string)
    ensures Lookup(Resolve(env, e, parent), name) ==
      var t := TiersOf(env, e);
      Substituted(parent, name, ByPrecedence(parent, e.attributes, t, name), ByPrecedence(parent, e.attributes, t, "color"))
  {
    var t := TiersOf(env, e);
    SpecifiedFollowsPrecedence(parent, e.attributes, t, name);
    SpecifiedFollowsPrecedence(parent, e.attributes, t, "color");
    ResolveStages(env, e, parent);
  }
}
