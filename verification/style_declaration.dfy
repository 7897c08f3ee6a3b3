/**
 `normalize_style_declaration` and its dispatch table
 `CASE_SENSITIVE_STYLE_METHODS`: the property name is trimmed and lowercased;
 the value is trimmed and then, depending on the name, kept verbatim
 (identifiers, class names, font families), lowercased in its leading part
 only (`font`), lowercased outside url tokens (properties that may hold a url),
 or lowercased wholesale (every other property).
 */
module StyleDeclaration {
  import opened Chars
  import opened Wrappers
  import UrlStyle
  import FontStyle

  /** The value normalisers the table dispatches to. */
  datatype ValueMethod =
    | Noop  // normalize_noop_style_declaration
    | Font  // normalize_font_style_declaration
    | Url   // normalize_url_style_declaration

  /** `CASE_SENSITIVE_STYLE_METHODS`. */
  const CaseSensitiveMethods: map<string, ValueMethod> := map[
    "id" := Noop,
    "class" := Noop,
    "font-family" := Noop,
    "font" := Font,
    "clip-path" := Url,
    "color-profile" := Url,
    "cursor" := Url,
    "fill" := Url,
    "filter" := Url,
    "marker-start" := Url,
    "marker-mid" := Url,
    "marker-end" := Url,
    "mask" := Url,
    "stroke" := Url
  ]

  /** The normaliser `m` applied to a stripped value; url tokens are found
      under the given reading of the url normaliser's regular expression. */
  function ApplyMethod(m: ValueMethod, reading: UrlStyle.Reading, value: string): (r: string)
    ensures |r| == |value|
    ensures m == Noop ==> r == value
  {
    match m
    case Noop => value
    case Font => FontStyle.NormalizeFontStyle(value)
    case Url => UrlStyle.NormalizeUrl(reading, value)
  }

  /** The property name as the parser keys it: `name.strip().lower()`. It is
      the middle of `name` with the surrounding white space cut off, lowercased,
      so it has no upper-case letter and no surrounding white space. */
  function NormalizeName(name: string): (r: string)
    ensures |r| <= |name| && NoUpper(r)
    ensures StripStart(name) + |r| <= |name|
    ensures r == Lower(name[StripStart(name)..StripStart(name) + |r|])
    ensures forall k :: 0 <= k < StripStart(name) ==> IsSpace(name[k])
    ensures forall k :: StripStart(name) + |r| <= k < |name| ==> IsSpace(name[k])
    ensures r == [] || (!IsSpace(r[0]) && !IsSpace(r[|r| - 1]))
  {
    StripIsInfix(name);
    LowerKeepsEnds(Strip(name));
    Lower(Strip(name))
  }

  /** Lowercasing neither creates nor removes white space at either end. */
  lemma LowerKeepsEnds(t: string)
    requires t == [] || (!IsSpace(t[0]) && !IsSpace(t[|t| - 1]))
    ensures var r := Lower(t); r == [] || (!IsSpace(r[0]) && !IsSpace(r[|r| - 1]))
  {
    if t != [] {
      assert Lower(t)[0] == LowerChar(t[0]) && Lower(t)[|t| - 1] == LowerChar(t[|t| - 1]);
    }
  }

  /** The value as the parser stores it for the (normalised) property `name`:
      stripped, then passed to the table's normaliser, or lowercased when the
      property is not in the table. */
  function NormalizeValue(name: string, value: string, reading: UrlStyle.Reading): (r: string)
    ensures |r| == |Strip(value)|
    ensures name !in CaseSensitiveMethods ==> r == Lower(Strip(value)) && NoUpper(r)
    ensures name in CaseSensitiveMethods ==> r == ApplyMethod(CaseSensitiveMethods[name], reading, Strip(value))
  {
    var v := Strip(value);
    if name in CaseSensitiveMethods then ApplyMethod(CaseSensitiveMethods[name], reading, v) else Lower(v)
  }

  /** `normalize_style_declaration(name, value)`: the name has no upper-case
      letter; identifiers, class names and font families keep their stripped
      value as it is, `font` and the url-bearing properties go through their
      normalisers, and every other property is lowercased wholesale. With the
      `AsWritten` reading this is the source's function; with `Intended` the
      url-bearing properties are lowercased outside url tokens even across a
      newline. */
  function NormalizeStyleDeclaration(name: string, value: string, reading: UrlStyle.Reading): (r: (string, string))
    ensures r.0 == NormalizeName(name) && NoUpper(r.0)
    ensures r.0 in {"id", "class", "font-family"} ==> r.1 == Strip(value)
    ensures r.0 == "font" ==> r.1 == FontStyle.NormalizeFontStyle(Strip(value))
    ensures r.0 in UrlProperties && reading == UrlStyle.AsWritten ==>
      r.1 == UrlStyle.NormalizeUrlStyleAsWritten(Strip(value))
    ensures r.0 in UrlProperties && reading == UrlStyle.Intended ==>
      r.1 == UrlStyle.NormalizeUrlStyle(Strip(value))
    ensures r.0 !in CaseSensitiveMethods ==> r.1 == Lower(Strip(value))
  {
    var n := NormalizeName(name);
    TableContents();
    (n, NormalizeValue(n, value, reading))
  }

  lemma LowerCharSpace(c: char)
    ensures IsSpace(LowerChar(c)) <==> IsSpace(c)
  {
  }

  /** The ten properties whose value may hold a url. */
  const UrlProperties: set<string> := {"clip-path", "color-profile", "cursor", "fill", "filter",
    "marker-start", "marker-mid", "marker-end", "mask", "stroke"}

  /** The table holds exactly the properties the source lists: three that are
      only stripped, `font`, and ten that may hold a url. */
  lemma TableContents()
    ensures forall n :: n in CaseSensitiveMethods && CaseSensitiveMethods[n] == Noop <==>
      n in {"id", "class", "font-family"}
    ensures forall n :: n in CaseSensitiveMethods && CaseSensitiveMethods[n] == Font <==> n == "font"
    ensures forall n :: n in CaseSensitiveMethods && CaseSensitiveMethods[n] == Url <==> n in UrlProperties
  {
  }

  /** Only case changes: every character of the normalised value is the
      corresponding character of the stripped value, or its lowercase. */
  lemma OnlyCaseChanges(name: string, value: string, reading: UrlStyle.Reading)
    ensures var r, t := NormalizeValue(name, value, reading), Strip(value);
      forall i :: 0 <= i < |t| ==> r[i] == t[i] || r[i] == LowerChar(t[i])
  {
    var t := Strip(value);
    if name in CaseSensitiveMethods {
      match CaseSensitiveMethods[name]
      case Noop =>
      case Font => FontOnlyChangesCase(t);
      case Url =>
    }
  }

  lemma FontOnlyChangesCase(t: string)
    ensures var r := FontStyle.NormalizeFontStyle(t);
      forall i :: 0 <= i < |t| ==> r[i] == t[i] || r[i] == LowerChar(t[i])
  {
    var r := FontStyle.NormalizeFontStyle(t);
    if FontStyle.FontHeadEnd(t).Some? {
      PrefixLoweredOnlyChangesCase(t, r, FontStyle.FontHeadEnd(t).value);
    }
  }

  lemma PrefixLoweredOnlyChangesCase(t: string, r: string, k: nat)
    requires k <= |t| == |r| && r[..k] == Lower(t[..k]) && r[k..] == t[k..]
    ensures forall i :: 0 <= i < |t| ==> r[i] == t[i] || r[i] == LowerChar(t[i])
  {
    forall i | 0 <= i < |t|
      ensures r[i] == t[i] || r[i] == LowerChar(t[i])
    {
      if i < k {
        assert r[i] == r[..k][i];
      } else {
        assert r[i] == r[k..][i - k];
      }
    }
  }

  /** Normalising an already normalised declaration of a property outside the
      table changes nothing. */
  lemma NormalizeUntabledIsIdempotent(name: string, value: string, reading: UrlStyle.Reading)
    requires NormalizeName(name) !in CaseSensitiveMethods
    ensures var (n, v) := NormalizeStyleDeclaration(name, value, reading);
      NormalizeStyleDeclaration(n, v, reading) == (n, v)
  {
    var n := NormalizeName(name);
    var v := NormalizeValue(n, value, reading);
    LowerStripIsFixed(name);
    LowerStripIsFixed(value);
    assert NormalizeName(n) == n;
    assert NormalizeValue(n, v, reading) == v;
  }

  /** Stripping and lowercasing a second time changes nothing. */
  lemma LowerStripIsFixed(s: string)
    ensures Lower(Strip(Lower(Strip(s)))) == Lower(Strip(s))
  {
    var t := Strip(s);
    LowerStripCommute(t);
    StripIdempotent(s);
    LowerIdempotent(t);
  }

  lemma LowerIdempotent(s: string)
    ensures Lower(Lower(s)) == Lower(s)
  {
  }

  lemma StripIdempotent(s: string)
    ensures Strip(Strip(s)) == Strip(s)
  {
    var r := Strip(s);
    assert TrimStart(r, PythonSpace) == r;
    assert TrimEnd(r, PythonSpace) == r;
  }

  /** Lowercasing never creates or removes white space, so it commutes with
      stripping. */
  lemma LowerStripCommute(s: string)
    ensures Strip(Lower(s)) == Lower(Strip(s))
  {
    LowerTrimStart(s);
    LowerTrimEnd(TrimStart(s, PythonSpace));
  }

  lemma {:induction false} LowerTrimStart(s: string)
    ensures TrimStart(Lower(s), PythonSpace) == Lower(TrimStart(s, PythonSpace))
  {
    if s != [] {
      LowerCharSpace(s[0]);
      assert Lower(s)[0] == LowerChar(s[0]);
      assert Lower(s)[1..] == Lower(s[1..]);
      LowerTrimStart(s[1..]);
    }
  }

  lemma {:induction false} LowerTrimEnd(s: string)
    ensures TrimEnd(Lower(s), PythonSpace) == Lower(TrimEnd(s, PythonSpace))
  {
    if s != [] {
      LowerCharSpace(s[|s| - 1]);
      assert Lower(s)[|s| - 1] == LowerChar(s[|s| - 1]);
      assert Lower(s)[..|s| - 1] == Lower(s[..|s| - 1]);
      LowerTrimEnd(s[..|s| - 1]);
    }
  }

}
