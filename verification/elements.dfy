/**
 The two trees the parser works with: the source element tree (an XML element
 with its namespace, local name, raw attributes, text, tail text and children)
 and the resolved `Node` tree it builds. Selector matching, inline-style
 parsing and feature matching are services of other modules; they are given to
 the builder as an `Environment` of functions on elements.
 */
module Elements {
  import opened Wrappers

  type Attributes = map<string, string>

  /** One `name: value` pair of a declaration block, in source order. */
  type Declaration = (string, string)

  type Declarations = seq<Declaration>

  const SvgNamespace: string := "http://www.w3.org/2000/svg"

  /** The `xml:space` attribute as ElementTree keys it. */
  const XmlSpace: string := "{http://www.w3.org/XML/1998/namespace}space"

  /** A source element. `text` is the text before the first child and `tail`
      the text after the element's end tag, before the next sibling; `None`
      stands for Python's `None`. */
  datatype Element = Element(
    namespace: string,
    localName: string,
    attributes: Attributes,
    text: Option<string>,
    tail: Option<string>,
    children: seq<Element>)

  /** A resolved node: its tag, its resolved attributes, its text, its
      children and the element it was built from. */
  datatype Node = Node(
    tag: string,
    attributes: Attributes,
    text: Option<string>,
    children: seq<Node>,
    element: Element)

  /** The services the builder calls: the declaration blocks of the stylesheet
      rules that match an element, normal and `!important` ones, in cascade
      order; the split of an inline `style` attribute into its normal and
      important declarations; and the conditional-processing test. */
  datatype Environment = Environment(
    normalRules: Element -> seq<Declarations>,
    importantRules: Element -> seq<Declarations>,
    parseInline: string -> (Declarations, Declarations),
    matchFeatures: Element -> bool)

  /** The element of an anonymous text run: an SVG `tspan` with nothing in it. */
  const AnonymousTspan: Element := Element(SvgNamespace, "tspan", map[], None, None, [])

  /** The node tag: the local name for elements in no namespace or in the SVG
      namespace, `{namespace}local` otherwise. */
  function QualifiedTag(e: Element): (r: string)
    ensures e.namespace in {"", SvgNamespace} ==> r == e.localName
    ensures e.namespace !in {"", SvgNamespace} ==> r == "{" + e.namespace + "}" + e.localName
  {
    if e.namespace in {"", SvgNamespace} then e.localName
    else "{" + e.namespace + "}" + e.localName
  }

  /** Elements outside the SVG namespace never get the tag of an SVG element
      whose local name has no brace, so `text`, `switch` and the like are only
      recognised in the SVG (or no) namespace. */
  lemma ForeignTagsAreQualified(e: Element, name: string)
    requires e.namespace !in {"", SvgNamespace}
    requires name == [] || name[0] != '{'
    ensures QualifiedTag(e) != name
  {
  }

  /** Python truthiness of an optional string: present and non-empty. */
  predicate NonEmpty(s: Option<string>) {
    s.Some? && s.value != []
  }

  function Lookup(m: Attributes, k: string): (r: Option<string>)
    ensures r.Some? <==> k in m
    ensures r.Some? ==> r.value == m[k]
  {
    if k in m then Some(m[k]) else None
  }
}
