# CairoSVG document tree builder, modelled in Dafny

This project models the core of CairoSVG's `parser.py`: the code that turns an
SVG element tree and its matching style rules into the tree of resolved
`Node`s that the renderers draw. It covers:

- **white space handling** (`handle_white_spaces`): the `xml:space="preserve"`
  and default modes;
- **style declaration normalisation** (`normalize_style_declaration` and its
  table `CASE_SENSITIVE_STYLE_METHODS`): names are trimmed and lowercased;
  values are trimmed and then kept verbatim, lowercased outside `url(...)`
  tokens, lowercased only in the leading part of a `font` shorthand, or
  lowercased wholesale;
- **the attribute cascade** of `Node.__init__`:
  - a node starts from its parent's inheritable attributes
    (`NOT_INHERITED_ATTRIBUTES` excluded) and overlays its raw attributes;
  - then come four declaration tiers: stylesheet normal, inline normal,
    stylesheet important, inline important;
  - then `currentColor` is substituted in the five `COLOR_ATTRIBUTES`;
  - last, `inherit` is substituted by the parent's value, or the attribute is
    dropped;
- **child selection**: conditional processing, `switch` keeping the first
  child that passes, and `parent_children`;
- **text layout** (`text_children`): each child becomes a node, and each
  non-empty tail becomes an anonymous `tspan`. A trailing-space flag says
  whether the text so far ends with a space. After each child the code sets
  it from the child's own text (parser.py:301), discarding the flag returned
  for the child's subtree. The model offers both: the flag as written, and the
  flag threaded through the whole subtree;
- **fragment resolution** in `Tree.__init__`: the first element in document
  order whose `id` is the URL fragment becomes the root.

Modules:

- `Chars` is Python's `str.isspace`, `strip`, `lstrip(' ')`, `rstrip(' ')`,
  and ASCII `lower`, `\w` and `\d`.
- `WhiteSpace` is `handle_white_spaces`.
- `UrlStyle`, `FontStyle` and `StyleDeclaration` are the normalisers. The url
  normaliser, and so `StyleDeclaration` too, comes in two readings: `AsWritten`
  is the source's regular expression and `Intended` lowercases across
  newlines.
- `Elements` is the element and node trees. It also holds the `Environment`,
  which gives the services of other modules as functions:
  - selector matching, which yields the declaration blocks of matching rules;
  - inline-style parsing;
  - the feature test.
- `Cascade` is the attribute cascade.
- `Children` is child selection.
- `TextReflow` is `text_children`.
- `ReflowFinding` holds the concrete input behind the first finding.
- `Builder` is `Node.__init__` as a whole, built with the trailing-space flag either as written or threaded.
- `Fragment` is the fragment lookup.

Behaviour of the code that the model keeps, each with the lines it comes from:

- A url token keeps its `url` keyword in the letter case it was written in, so
  `URL(Foo.PNG)` stays `URL(Foo.PNG)`. parser.py:137-141 lowercases only the
  non-URL group 1 of each match and leaves the url part as it is.
- The cascade only strips declaration values, with `value.strip()` at
  parser.py:216-220. It does not call `normalize_style_declaration`.
- A colour property can still be `currentColor` after the substitution, when
  `color` itself is `currentColor`: parser.py:222-225 copies `color`'s value
  as it is. `Cascade.SubstituteCurrentColor` states the exact condition.
- The `font` normaliser lowercases up to the end of the last digit-initial
  token of the leading chain, as the docstring at parser.py:148-154 describes
  and the greedy repetition at parser.py:159-165 yields.
- `text_children` does not apply the feature test. The loop at
  parser.py:273-296 gives every child of a `text`, `textPath` or `a` element
  a node.

## Model

| member | source | states |
|---|---|---|
| WhiteSpace.HandleWhiteSpaces | cairosvg/parser.py:70-83 | A missing or empty text gives the empty string. In preserve mode each character is kept, except newline, carriage return and tab, which become spaces. In default mode the result has no control space and no two adjacent spaces, and is no longer than the input. |
| WhiteSpace.CollapseFixedPoint | cairosvg/parser.py:83 | Collapsing space runs leaves a string unchanged exactly when it has no two adjacent spaces. |
| WhiteSpace.CollapseIdempotent | cairosvg/parser.py:83 | Collapsing space runs twice is the same as collapsing once. |
| WhiteSpace.DefaultKeepsNonSpaces | cairosvg/parser.py:80-83 | In default mode every non-space character survives, in order, once line breaks are dropped. |
| WhiteSpace.DefaultWhiteSpaceOnePass | cairosvg/parser.py:80-83 | One pass does the job of the three substitutions: drop line breaks, turn tabs into spaces, skip a space after a space. |
| WhiteSpace.CollapseSpaces | cairosvg/parser.py:83 | Replacing each run of spaces by one space leaves no two adjacent spaces and keeps every other character, in order. Each such character is preceded by a space exactly when it was in the input, so every run between two characters becomes one space. The result starts or ends with a space exactly when the input does. A string without two adjacent spaces comes back unchanged. |
| WhiteSpace.CollapseSpacesIsDetermined | cairosvg/parser.py:83 | Any string without two adjacent spaces, with the same characters each preceded by a space exactly where the input has one, and starting and ending with a space exactly when the input does, is the collapsed input. So the contract above fixes the result. |
| WhiteSpace.PassPrefixIsPipeline | cairosvg/parser.py:80-83 | On every prefix of the text, the one-pass fold agrees with the three substitutions. |
| WhiteSpace.CleanTextUnchanged | cairosvg/parser.py:80-83 | Default mode returns a text unchanged when it has no newline, carriage return, tab or double space. |
| StyleDeclaration.NormalizeName | cairosvg/parser.py:98 | The name is the lowercased middle of the input, with only white space cut off either side. It has no upper-case letter and neither starts nor ends with white space, so all surrounding white space is gone. |
| StyleDeclaration.NormalizeStyleDeclaration | cairosvg/parser.py:86-105 | `id`, `class` and `font-family` keep the stripped value verbatim. `font` goes through the font normaliser. The ten url-bearing properties go through the url normaliser: with the `AsWritten` reading the source's regular expression, with `Intended` the one that lowercases outside url tokens across newlines too. Every other property is lowercased wholesale. |
| StyleDeclaration.TableContents | cairosvg/parser.py:420-435 | The table maps exactly `id`, `class` and `font-family` to the no-op, exactly `font` to the font normaliser, and exactly the ten listed properties to the url normaliser. |
| StyleDeclaration.ApplyMethod | cairosvg/parser.py:108-115 | Every normaliser in the table keeps the length of the value. The no-op returns it unchanged. |
| StyleDeclaration.OnlyCaseChanges | cairosvg/parser.py:86-105 | Under either reading, normalisation changes nothing but letter case: each character is the stripped value's character or its lowercase. |
| StyleDeclaration.NormalizeUntabledIsIdempotent | cairosvg/parser.py:86-105 | For a property outside the table, normalising an already normalised declaration changes nothing. |
| StyleDeclaration.LowerStripCommute | cairosvg/parser.py:98-103 | Lowercasing never creates or removes white space, so it commutes with stripping. |
| UrlStyle.NormalizeUrlStyle | cairosvg/parser.py:118-142 | The result has the value's length. It copies the leftmost `url(...)` tokens verbatim, keyword, quotes and escapes included. It lowercases every character outside them, and no token starts at such a character. |
| UrlStyle.NormalizeUrlStyleAsWritten | cairosvg/parser.py:118-142 | The code as written changes nothing but letter case. It gives the same result as the intended normaliser whenever no newline comes before the last character. |
| UrlStyle.UrlTokenEnd | cairosvg/parser.py:127-136 | A url token starts only at `url(`, in any letter case, and ends just past a `)` after the keyword, within the value. |
| UrlStyle.UrlTokenMatchesPattern | cairosvg/parser.py:127-136 | Every token the scanner finds matches the url alternative of the pattern: the keyword, optional white space, a double-quoted, single-quoted or unquoted argument made of escapes and non-closing characters, optional white space, and `)`. |
| UrlStyle.ScannerMissesBacktrackingMatch | cairosvg/parser.py:127-136 | The pattern matches all of `URL(A\)` by reading the backslash as an ordinary character, but the scanner finds no token there. |
| UrlStyle.NormalizeOnlyChangesCase | cairosvg/parser.py:137-141 | Under either reading of the regular expression, the url normaliser only changes letter case. |
| UrlStyle.TokenSpansAreLeftmost | cairosvg/parser.py:137-141 | The copied spans are url tokens, in order and disjoint. The scan is leftmost: no token starts at an index the spans leave uncovered. |
| UrlStyle.NormalizeUrlStyleWithoutUrl | cairosvg/parser.py:118-142 | A value without `(` holds no url token and is lowercased as a whole. |
| UrlStyle.ReadingsAgreeWithoutNewline | cairosvg/parser.py:125-141 | When no newline comes before the last character, the regular expression as written and the intended scanner give the same result. |
| UrlStyle.NewlineStopsLowercasing | cairosvg/parser.py:125 | As written, `RED\nBLUE` normalises to `RED\nblue`. As intended, it normalises to `red\nblue`. |
| FontStyle.NormalizeFontStyle | cairosvg/parser.py:159-165 | The value is lowercased up to the end of the longest prefix the anchored pattern matches, and kept after it. The pattern is a word token and a separator (white space, or one comma with optional white space) repeated, then a token that starts with a digit. When the pattern matches no prefix, the value is unchanged. |
| FontStyle.FontHeadIsLongestMatch | cairosvg/parser.py:159-165 | The head the scanner finds is a prefix the pattern matches, and no longer prefix matches. There is no head exactly when the pattern matches no prefix. |
| FontStyle.SeparatorEndIsRun | cairosvg/parser.py:162 | A separator the scanner skips is white space only, or white space around exactly one comma. |
| FontStyle.SeparatorRunEnd | cairosvg/parser.py:162 | A separator of that form followed by a word character is exactly the one the scanner skips. |
| FontStyle.FontHeadIsLastSizeToken | cairosvg/parser.py:159-165 | The head is everything up to the end of the last digit-initial token of the leading chain of tokens and separators. |
| FontStyle.FontHeadAbsent | cairosvg/parser.py:159-165 | There is no head exactly when the value does not start with a word character or no token of its leading chain starts with a digit. |
| FontStyle.FontHeadScan | cairosvg/parser.py:159-165 | One left-to-right pass over the chain, remembering the last digit-initial token, finds the same head. |
| FontStyle.ChainShape | cairosvg/parser.py:161-163 | Each token of the leading chain starts with a word character. Each is reached from the one before by one token and one separator (white space, or one comma with optional white space). The chain cannot be extended past its last token. |
| Elements.QualifiedTag | cairosvg/parser.py:182-185 | The tag is the local name in no namespace or the SVG namespace, and `{namespace}local` otherwise. |
| Elements.ForeignTagsAreQualified | cairosvg/parser.py:182-185 | An element outside those namespaces never gets a plain tag such as `text` or `switch`. |
| Cascade.Inherited | cairosvg/parser.py:193-197 | A child starts with exactly the parent's attributes outside `NOT_INHERITED_ATTRIBUTES`, with the parent's values. Without a parent it starts with none. |
| Cascade.ApplyIsLastDeclaration | cairosvg/parser.py:216-220 | Applying declarations in order leaves each declared name with the stripped value of its last declaration. Every other name keeps its previous value. |
| Cascade.ApplyLater | cairosvg/parser.py:216-220 | A later block overrides an earlier one exactly on the names it declares. |
| Cascade.SpecifiedFollowsPrecedence | cairosvg/parser.py:193-220 | For every name, the specified value is the first one found in this order: inline important, stylesheet important, inline normal, stylesheet normal, raw attribute, inherited parent value. |
| Cascade.SubstituteCurrentColor | cairosvg/parser.py:222-225 | Only the colour properties whose value is `currentColor` change, and they take `color` or `black`. None is left `currentColor` unless `color` itself is. |
| Cascade.SubstituteCurrentColorInOrder | cairosvg/parser.py:222-225 | Visiting the five colour properties one at a time, in any order, gives the simultaneous substitution. |
| Cascade.SubstituteInherit | cairosvg/parser.py:227-234 | An attribute survives exactly when it is not `inherit` or the parent has it. An `inherit` value becomes the parent's value. With a parent free of `inherit`, no `inherit` is left. |
| Cascade.SubstituteInheritInOrder | cairosvg/parser.py:227-234 | Listing the `inherit` attributes first and then replacing or deleting each gives the simultaneous substitution. |
| Cascade.InlineDeclarations | cairosvg/parser.py:206-211 | An element without a `style` attribute, or with an empty one, has no inline declarations. Otherwise both inline tiers come from parsing the attribute. |
| Cascade.Resolve | cairosvg/parser.py:193-234 | Under a parent free of `inherit`, no resolved attribute is `inherit`. |
| Cascade.ResolveByPrecedence | cairosvg/parser.py:193-234 | For every name, the resolved value is its value by precedence, after the substitutions. A colour property whose value is `currentColor` takes the value of `color` by precedence, or `black`. Then an `inherit` value takes the parent's value, or the attribute is dropped. |
| Cascade.InheritsUndeclared | cairosvg/parser.py:193-234 | Take an attribute that is not a colour property, that nothing declares and the element does not set, and whose value in the parent is not `inherit`. It is the parent's value when it is inheritable. It is absent when it is not inheritable, or when the parent lacks it. |
| Cascade.CurrentColorBeforeInherit | cairosvg/parser.py:222-234 | `currentColor` is resolved before `inherit`. So a colour property set to `currentColor`, next to `color: inherit`, ends up with the parent's value of that same property. |
| Children.SelectChildren | cairosvg/parser.py:246-254 | Every kept child is a child of the element and passes the feature test. |
| Children.FilterKeepsExactlyPassing | cairosvg/parser.py:248-252 | Outside a `switch`, a child is kept exactly when it passes the test. |
| Children.FilterAppend | cairosvg/parser.py:248-252 | Selection works child by child, so document order is preserved. |
| Children.SwitchKeepsFirstPassing | cairosvg/parser.py:248-254 | A `switch` keeps at most one child. It keeps none exactly when no child passes, otherwise the first child that passes. |
| Children.SelectChildrenLoop | cairosvg/parser.py:247-254 | The loop that appends passing children, and breaks after the first one in a `switch`, computes the selection. |
| TextReflow.RunText | cairosvg/parser.py:263-266 | A run's text is the white-space-handled text, from which only leading spaces are cut, and only in default mode after a space. It then has no leading space. In default mode it has no two adjacent spaces. |
| TextReflow.TailRun | cairosvg/parser.py:305-318 | A tail yields an anonymous `tspan` exactly when it is non-empty. The `tspan` is resolved under the parent and carries the tail's run text in the parent's mode. An empty tail leaves the flag unchanged. |
| TextReflow.Reflow | cairosvg/parser.py:259-323 | The nodes are one per child, each followed by an anonymous `tspan` when its tail is non-empty. In default mode the text has no two adjacent spaces and, after a space, no leading space. A text root without children has no trailing space in default mode. |
| TextReflow.ReflowFrom | cairosvg/parser.py:273-318 | The loop from the i-th child on yields the layout of the remaining children. |
| TextReflow.ReflowChild | cairosvg/parser.py:294-318 | One turn yields the child's node, then its tail's anonymous node. |
| TextReflow.LayoutAppend | cairosvg/parser.py:273-318 | The layout of a child list is the concatenation of the layouts of its parts. |
| TextReflow.ReflowJoins | cairosvg/parser.py:259-323 | With the flag threaded, the reflow in default mode extends any text that has no double space and whose flag is correct. The extended text again has no double space and a correct flag. |
| TextReflow.ThreadedTextHasNoDoubleSpace | cairosvg/parser.py:259-323 | With the flag threaded, the whole text content of a `text` element in default mode has no two adjacent spaces. |
| ReflowFinding.TrailingFlagIsOverwritten | cairosvg/parser.py:299-301 | On `<text>a <tspan> </tspan> b</text>`, the code as written yields `a  b` and the threaded flag yields `a b`. |
| Builder.BuildNode | cairosvg/parser.py:236-254 | The node carries the element, its qualified tag and its resolved attributes. A text node's text and children are those of the layout, with the trailing flag as written or threaded. Any other node keeps the raw text and has the nodes of the selected children. |
| Builder.ChildrenBuiltUnder | cairosvg/parser.py:248-252 | Each child node of an ordinary node is built from the corresponding selected element, under the node's attributes. |
| Builder.BuildWithParentChildren | cairosvg/parser.py:241-245 | With `parent_children`, the node has one child per child of the given node, in order. Each is rebuilt from the same element under the new node. |
| Builder.Rebuild | cairosvg/parser.py:242-245 | Rebuilding keeps the count, the order and the element of every node. |
| Builder.SwitchBuildsFirstPassing | cairosvg/parser.py:248-254 | A `switch` node has at most one child. It has none exactly when no child passes, otherwise the node of the first child that passes. |
| Builder.ChildrenFollowFilter | cairosvg/parser.py:246-252 | A node that is neither a text node nor a `switch` has a child node for exactly the passing children, in document order. |
| Builder.TextChildrenFollowLayout | cairosvg/parser.py:237-247 | A text node's children follow the layout. It has none exactly when its element has none, so the fallback to ordinary children never adds any. |
| Builder.BuildHasNoInherit | cairosvg/parser.py:227-318 | Under a parent free of `inherit`, no node of the built tree keeps an `inherit` value, text runs and anonymous `tspan`s included. This holds with the flag as written and with it threaded. |
| Fragment.ResolveFragment | cairosvg/parser.py:403-411 | An empty fragment keeps the root. Otherwise the result is the first element, in pre-order, whose id is the fragment. When there is none, the result is the `No tag with id="…" found.` error. |
| Fragment.FindById | cairosvg/parser.py:404-408 | The element found has the id. The search finds nothing exactly when no element of the subtree has the id. |
| Fragment.FindIsFirstInPreOrder | cairosvg/parser.py:404-408 | The recursive search finds the first element of the pre-order with the id, and nothing when none has it. |
| Fragment.FirstWithIdAppend | cairosvg/parser.py:404-408 | The first hit in a concatenation is the first hit in its first part, or else the first hit in its second part. |
| Fragment.ResolveFragmentLoop | cairosvg/parser.py:403-411 | The loop over the subtree that stops at the first match, and fails when it runs out, computes the same result. |

## Left out

- Rotation handling (`rotations`, `pop_rotation`): it changes only the `rotate` attribute of text nodes, through helpers that are not part of this model.
- `tref` children: they load another document through `Tree`, which needs I/O and the reference cache.
- `Tree` loading: bytes, files, URLs, gzip, XML parsing, entity protection and the reference cache. These are I/O and foreign code. Only the fragment lookup is modelled.
- Selector matching (`cssselect2`), inline-style parsing (`css.parse_declarations`) and `match_features` are given as functions in `Environment`. Their own behaviour is not modelled.
- The `url`, `parent`, `root`, `xml_tree`, `url_fetcher` and `unsafe` fields of a node: they are bookkeeping for loading and play no part in the properties above.
- Unicode: `lower`, `\w` and `\d` are modelled on ASCII only. Python applies them to all of Unicode. `\s` and `strip` use Python's full white-space set.
- Dictionary iteration order: attributes are maps. The order-dependent loops of the source are modelled as methods, and shown to give the same result in every order.
- StyleDeclaration.NormalizeStyleDeclaration: under both readings url tokens are found by `UrlStyle.UrlTokenEnd`, so the backslash inputs named below differ from the source here too.
- UrlStyle.NormalizeUrlStyle: it takes the intended reading of the non-URL group (see Findings). `UrlStyle.NormalizeUrlStyleAsWritten` is the reading as written.
- UrlStyle.UrlTokenEnd: a scanner, not the backtracking regular-expression engine. It reads every backslash in an argument as an escape, while the pattern may also take a backslash as an ordinary character. Every token the scanner finds matches the pattern, but not every match is found. `URL(A\)` normalises to `url(a\)` where the source keeps it verbatim, and `URL("A)B\")` normalises to `URL("A)b\")` where the source keeps it verbatim. `UrlStyle.ScannerMissesBacktrackingMatch` shows the first.

## Findings

| source | as written | input that shows it | evidently intended | confidence | as-written member | corrected member |
|---|---|---|---|---|---|---|
| cairosvg/parser.py:299-301 | After a child, the flag becomes whether the child's own text ends with a space. This discards the flag that the recursive call returned for the child's whole content. | `<text>a <tspan> </tspan> b</text>` lays out as `a  b`, with a double space. | The flag after the child's whole content carries on, giving `a b`. In default mode, the text then never has two adjacent spaces. | medium, not executed | ReflowFinding.TrailingFlagIsOverwritten | TextReflow.ThreadedTextHasNoDoubleSpace |
| cairosvg/parser.py:125 | The non-URL group `(.*?)` cannot cross a newline, because Python's `.` does not match one. Text before a newline is lowercased only when a url token or the end of the value follows on the same line. | `RED\nBLUE` normalises to `RED\nblue`. | Everything outside url tokens is lowercased, giving `red\nblue`. | medium, not executed | UrlStyle.NewlineStopsLowercasing | UrlStyle.NormalizeUrlStyle |
