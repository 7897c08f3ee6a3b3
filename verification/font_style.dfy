/**
 `normalize_font_style_declaration`: in a `font` shorthand value (CSS Fonts
 Level 3, section 3.7), lowercase only the leading part made of tokens and
 separators that ends with a size or line-height token, leaving the family
 names after it as they are. The source's anchored regular expression

   ^ ( \w[^\s,]* ( \s+ | \s*,\s* ) )* \d[^\s,]*

 is read as its token structure: from the start of the value, a chain of
 tokens (a word character followed by anything but white space or a comma),
 each joined to the next by white space or by one comma with optional white
 space around it. The greedy repetition backtracks to the LAST token of that
 chain that starts with a digit; everything up to the end of that token is
 lowercased. Without such a token the value is unchanged.
 */
module FontStyle {
  import opened Chars
  import opened Wrappers

  /** Characters that end a token: `[\s,]`. */
  predicate IsDelimiter(c: char) {
    IsSpace(c) || c == ','
  }

  /** The end of the token `\w[^\s,]*` starting at `p`. */
  function TokenEnd(s: string, p: nat): (r: nat)
    requires p <= |s|
    ensures p <= r <= |s|
    ensures forall m :: p <= m < r ==> !IsDelimiter(s[m])
    ensures r == |s| || IsDelimiter(s[r])
    decreases |s| - p
  {
    if p < |s| && !IsDelimiter(s[p]) then TokenEnd(s, p + 1) else p
  }

  /** The end of the separator `\s+|\s*,\s*` starting at `e`, if there is
      one. A second comma is never part of a separator. */
  function SeparatorEnd(s: string, e: nat): (r: Option<nat>)
    requires e <= |s|
    ensures r.Some? ==> e < r.value <= |s|
    ensures r.Some? ==> forall m :: e <= m < r.value ==> IsDelimiter(s[m])
  {
    var w := SkipSpaces(s, e);
    if w < |s| && s[w] == ',' then Some(SkipSpaces(s, w + 1))
    else if w > e then Some(w)
    else None
  }

  /** Where the chain of tokens continues after the token at `p`: past a
      separator, at a word character. */
  function NextLink(s: string, p: nat): (r: Option<nat>)
    requires p < |s| && IsWord(s[p])
    ensures r.Some? ==> TokenEnd(s, p) < r.value < |s| && IsWord(s[r.value])
    ensures r.Some? ==> SeparatorEnd(s, TokenEnd(s, p)) == Some(r.value)
  {
    match SeparatorEnd(s, TokenEnd(s, p))
    case Some(q) => if q < |s| && IsWord(s[q]) then Some(q) else None
    case None => None
  }

  /** The starts of the tokens of the chain beginning at `p`, in order. */
  function Chain(s: string, p: nat): (r: seq<nat>)
    requires p < |s| && IsWord(s[p])
    ensures |r| >= 1 && r[0] == p
    ensures forall k :: 0 <= k < |r| ==> p <= r[k] < |s| && IsWord(s[r[k]])
    decreases |s| - p
  {
    match NextLink(s, p)
    case Some(q) => [p] + Chain(s, q)
    case None => [p]
  }

  /** Every token of the chain starts with a word character, each is reached
      from the one before by one token and one separator, and the chain cannot
      be extended past its last token. */
  lemma {:induction false} ChainShape(s: string, p: nat)
    requires p < |s| && IsWord(s[p])
    ensures var r := Chain(s, p);
      && (forall k :: 0 <= k < |r| ==> IsWord(s[r[k]]))
      && (forall k :: 0 <= k < |r| - 1 ==> NextLink(s, r[k]) == Some(r[k + 1]))
      && NextLink(s, r[|r| - 1]).None?
    decreases |s| - p
  {
    match NextLink(s, p)
    case Some(q) =>
      var rest := Chain(s, q);
      var r := [p] + rest;
      assert Chain(s, p) == r;
      ChainShape(s, q);
      assert forall k :: 1 <= k < |r| ==> r[k] == rest[k - 1];
    case None =>
  }

  /** The index in `starts` of the last token that begins with a digit. */
  function LastDigitToken(s: string, starts: seq<nat>): (r: Option<nat>)
    requires forall k :: 0 <= k < |starts| ==> starts[k] < |s|
    ensures r.Some? ==> r.value < |starts| && IsDigit(s[starts[r.value]])
    ensures r.Some? ==> forall k :: r.value < k < |starts| ==> !IsDigit(s[starts[k]])
    ensures r.None? ==> forall k :: 0 <= k < |starts| ==> !IsDigit(s[starts[k]])
  {
    if starts == [] then None
    else if IsDigit(s[starts[|starts| - 1]]) then Some(|starts| - 1)
    else LastDigitToken(s, starts[..|starts| - 1])
  }

  /** The end of the last token among `starts` that begins with a digit. */
  function LastSizeEnd(s: string, starts: seq<nat>): (r: Option<nat>)
    requires forall k :: 0 <= k < |starts| ==> starts[k] < |s|
  {
    match LastDigitToken(s, starts)
    case Some(n) => Some(TokenEnd(s, starts[n]))
    case None => None
  }

  /** The end of the prefix the source lowercases: the end of the last token of
      the leading chain that starts with a digit. */
  function FontHeadEnd(s: string): (r: Option<nat>)
    ensures r.Some? ==> 0 < r.value <= |s|
  {
    if s == [] || !IsWord(s[0]) then None
    else LastSizeEnd(s, Chain(s, 0))
  }

  /** `normalize_font_style_declaration(value)`: the longest prefix the
      anchored pattern matches is lowercased and the rest is kept; when the
      pattern matches no prefix, the value is unchanged. */
  function NormalizeFontStyle(value: string): (r: string)
    ensures |r| == |value|
    ensures (forall k: nat :: !FontPrefix(value, k)) ==> r == value
    ensures forall k: nat :: FontPrefix(value, k) && (forall j: nat :: FontPrefix(value, j) ==> j <= k) ==>
      k <= |value| && r == Lower(value[..k]) + value[k..]
    ensures FontHeadEnd(value).None? ==> r == value
    ensures FontHeadEnd(value).Some? ==>
      var k := FontHeadEnd(value).value;
      r[..k] == Lower(value[..k]) && r[k..] == value[k..]
  {
    FontHeadIsLongestMatch(value);
    match FontHeadEnd(value)
    case None => value
    case Some(k) => Lower(value[..k]) + value[k..]
  }

  /** The lowercased prefix ends exactly at the end of the last token of the
      leading chain that starts with a digit... */
  lemma FontHeadIsLastSizeToken(s: string, n: nat)
    requires s != [] && IsWord(s[0])
    requires var chain := Chain(s, 0);
      && n < |chain| && IsDigit(s[chain[n]])
      && forall m :: n < m < |chain| ==> !IsDigit(s[chain[m]])
    ensures FontHeadEnd(s) == Some(TokenEnd(s, Chain(s, 0)[n]))
  {
    var chain := Chain(s, 0);
    var r := LastDigitToken(s, chain);
    assert r.Some?;
    assert r.value == n;
  }

  /** ... and there is no such prefix exactly when the value does not start
      with a word character or no token of its leading chain starts with a
      digit. */
  lemma FontHeadAbsent(s: string)
    ensures FontHeadEnd(s).None? <==>
      (s == [] || !IsWord(s[0]) || forall m :: 0 <= m < |Chain(s, 0)| ==> !IsDigit(s[Chain(s, 0)[m]]))
  {
    if s != [] && IsWord(s[0]) {
      var chain := Chain(s, 0);
      match LastDigitToken(s, chain)
      case Some(n) =>
        assert IsDigit(s[chain[n]]);
      case None =>
    }
  }

  lemma LastSizeEndSnoc(s: string, starts: seq<nat>, p: nat)
    requires p < |s| && forall k :: 0 <= k < |starts| ==> starts[k] < |s|
    ensures LastSizeEnd(s, starts + [p]) ==
      if IsDigit(s[p]) then Some(TokenEnd(s, p)) else LastSizeEnd(s, starts)
  {
    var all := starts + [p];
    assert all[..|starts|] == starts;
    assert all[|all| - 1] == p;
    if !IsDigit(s[p]) {
      match LastDigitToken(s, starts)
      case Some(n) => assert all[n] == starts[n];
      case None =>
    }
  }

  /** One step of the scan remembers the token at `p` when it starts with a
      digit... */
  lemma ScanRecords(s: string, chain: seq<nat>, i: nat, p: nat)
    requires p < |s| && i < |chain| && chain[i] == p
    requires forall k :: 0 <= k < |chain| ==> chain[k] < |s|
    ensures LastSizeEnd(s, chain[..i + 1]) ==
      if IsDigit(s[p]) then Some(TokenEnd(s, p)) else LastSizeEnd(s, chain[..i])
  {
    assert chain[..i + 1] == chain[..i] + [p];
    LastSizeEndSnoc(s, chain[..i], p);
  }

  /** ... and moves along the chain: it ends at `p`, or continues at the next
      link. */
  lemma ScanLinks(s: string, chain: seq<nat>, i: nat, p: nat)
    requires p < |s| && IsWord(s[p]) && i < |chain|
    requires Chain(s, p) == chain[i..]
    ensures chain[i] == p
    ensures NextLink(s, p).None? ==> chain[..i + 1] == chain
    ensures NextLink(s, p).Some? ==>
      i + 1 < |chain| && Chain(s, NextLink(s, p).value) == chain[i + 1..]
  {
    assert chain[i..][0] == p;
    match NextLink(s, p)
    case None =>
      assert |chain[i..]| == 1;
    case Some(q) =>
      assert chain[i + 1..] == chain[i..][1..];
  }

  /** `[^\s,]*` spans `s[a..b]`. */
  predicate NoDelimiterIn(s: string, a: nat, b: nat)
    requires a <= b <= |s|
  {
    forall m :: a <= m < b ==> !IsDelimiter(s[m])
  }

  /** `\s+|\s*,\s*` spans `s[b..c]`: white space only, or one comma with
      white space on either side. */
  predicate SeparatorRun(s: string, b: nat, c: nat) {
    && b < c <= |s|
    && ((forall m :: b <= m < c ==> IsSpace(s[m]))
        || exists j :: b <= j < c && s[j] == ',' && forall m :: b <= m < c && m != j ==> IsSpace(s[m]))
  }

  /** The source's pattern, read from index `a`: `s[a..k]` is
      `(\w[^\s,]*(\s+|\s*,\s*))*\d[^\s,]*`, a word token and a separator
      repeated, then a token that starts with a digit and ends anywhere before
      a delimiter. */
  ghost predicate PatternFrom(s: string, a: nat, k: nat)
    decreases |s| - a
  {
    && a < k <= |s|
    && ((IsDigit(s[a]) && NoDelimiterIn(s, a + 1, k))
        || (IsWord(s[a]) && exists b, c :: a < b < c < k && NoDelimiterIn(s, a + 1, b)
                                           && SeparatorRun(s, b, c) && PatternFrom(s, c, k)))
  }

  /** The anchored pattern matches the prefix `s[..k]`. */
  ghost predicate FontPrefix(s: string, k: nat) {
    PatternFrom(s, 0, k)
  }

  lemma {:induction false} TokenEndAt(s: string, p: nat, b: nat)
    requires p <= b <= |s| && NoDelimiterIn(s, p, b) && (b == |s| || IsDelimiter(s[b]))
    ensures TokenEnd(s, p) == b
    decreases b - p
  {
    if p < b {
      TokenEndAt(s, p + 1, b);
    }
  }

  lemma {:induction false} SkipSpacesAt(s: string, k: nat, w: nat)
    requires k <= w <= |s| && (forall m :: k <= m < w ==> IsSpace(s[m]))
    requires w == |s| || !IsSpace(s[w])
    ensures SkipSpaces(s, k) == w
    decreases w - k
  {
    if k < w {
      SkipSpacesAt(s, k + 1, w);
    }
  }

  /** The separator the scanner skips is one the pattern allows... */
  lemma SeparatorEndIsRun(s: string, e: nat)
    requires e <= |s| && SeparatorEnd(s, e).Some?
    ensures SeparatorRun(s, e, SeparatorEnd(s, e).value)
  {
    var w := SkipSpaces(s, e);
    if w < |s| && s[w] == ',' {
      var c := SkipSpaces(s, w + 1);
      assert SeparatorEnd(s, e) == Some(c);
      forall m | e <= m < c && m != w
        ensures IsSpace(s[m])
      {
      }
      assert e <= w < c && s[w] == ',';
    } else {
      assert SeparatorEnd(s, e) == Some(w);
    }
  }

  /** ... and a separator the pattern allows before a word character is the
      one the scanner skips. */
  lemma SeparatorRunEnd(s: string, b: nat, c: nat)
    requires SeparatorRun(s, b, c) && c < |s| && IsWord(s[c])
    ensures SeparatorEnd(s, b) == Some(c)
  {
    if forall m :: b <= m < c ==> IsSpace(s[m]) {
      SkipSpacesAt(s, b, c);
    } else {
      var j :| b <= j < c && s[j] == ',' && forall m :: b <= m < c && m != j ==> IsSpace(s[m]);
      SkipSpacesAt(s, b, j);
      SkipSpacesAt(s, j + 1, c);
    }
  }

  /** Prepending a token that starts no later than the others: the last
      digit-initial token stays the same unless there is none after it. */
  lemma {:induction false} LastSizeEndCons(s: string, p: nat, rest: seq<nat>)
    requires p < |s| && forall k :: 0 <= k < |rest| ==> rest[k] < |s|
    ensures LastSizeEnd(s, [p] + rest) ==
      if LastSizeEnd(s, rest).Some? then LastSizeEnd(s, rest)
      else if IsDigit(s[p]) then Some(TokenEnd(s, p)) else None
    decreases |rest|
  {
    if rest == [] {
      LastSizeEndSnoc(s, [], p);
      assert [p] + rest == [] + [p];
    } else {
      var init, x := rest[..|rest| - 1], rest[|rest| - 1];
      assert rest == init + [x];
      assert [p] + rest == ([p] + init) + [x];
      LastSizeEndSnoc(s, [p] + init, x);
      LastSizeEndSnoc(s, init, x);
      LastSizeEndCons(s, p, init);
    }
  }

  lemma LastSizeEndBound(s: string, starts: seq<nat>, lo: nat)
    requires forall k :: 0 <= k < |starts| ==> lo <= starts[k] < |s|
    ensures LastSizeEnd(s, starts).Some? ==> lo <= LastSizeEnd(s, starts).value
  {
  }

  /** A final digit-initial token the pattern matches ends within the token... */
  lemma DigitMatchWithinToken(s: string, p: nat, k: nat)
    requires p < k <= |s| && IsDigit(s[p]) && NoDelimiterIn(s, p + 1, k)
    ensures k <= TokenEnd(s, p)
  {
  }

  /** ... and a repetition of the pattern goes on at the next chain link. */
  lemma PatternStep(s: string, p: nat, k: nat) returns (c: nat)
    requires p < |s| && PatternFrom(s, p, k) && !(IsDigit(s[p]) && NoDelimiterIn(s, p + 1, k))
    ensures IsWord(s[p]) && NextLink(s, p) == Some(c) && PatternFrom(s, c, k)
  {
    var b, c' :| p < b < c' < k && NoDelimiterIn(s, p + 1, b)
                 && SeparatorRun(s, b, c') && PatternFrom(s, c', k);
    c := c';
    assert IsDelimiter(s[b]);
    TokenEndAt(s, p, b);
    SeparatorRunEnd(s, b, c);
  }

  /** Every prefix the pattern matches from a chain token ends no later than
      the last digit-initial token of the chain... */
  lemma {:induction false} PatternWithinChain(s: string, p: nat, k: nat)
    requires p < |s| && IsWord(s[p])
    ensures PatternFrom(s, p, k) ==>
      LastSizeEnd(s, Chain(s, p)).Some? && k <= LastSizeEnd(s, Chain(s, p)).value
    decreases |s| - p
  {
    if PatternFrom(s, p, k) {
      var chain := Chain(s, p);
      var rest := if NextLink(s, p).Some? then Chain(s, NextLink(s, p).value) else [];
      assert chain == [p] + rest;
      LastSizeEndCons(s, p, rest);
      if IsDigit(s[p]) && NoDelimiterIn(s, p + 1, k) {
        DigitMatchWithinToken(s, p, k);
        if NextLink(s, p).Some? {
          LastSizeEndBound(s, rest, NextLink(s, p).value);
        }
      } else {
        var c := PatternStep(s, p, k);
        PatternWithinChain(s, c, k);
      }
    }
  }

  /** A chain link followed by a match is a match... */
  lemma LinkThenPattern(s: string, p: nat, q: nat, e: nat)
    requires p < |s| && IsWord(s[p]) && NextLink(s, p) == Some(q) && PatternFrom(s, q, e)
    ensures PatternFrom(s, p, e)
  {
    var t := TokenEnd(s, p);
    SeparatorEndIsRun(s, t);
    assert p < t < q < e && NoDelimiterIn(s, p + 1, t) && SeparatorRun(s, t, q);
  }

  /** ... and so is a whole digit-initial token. */
  lemma DigitTokenIsPattern(s: string, p: nat)
    requires p < |s| && IsDigit(s[p])
    ensures PatternFrom(s, p, TokenEnd(s, p))
  {
    assert NoDelimiterIn(s, p + 1, TokenEnd(s, p));
  }

  /** ... and the pattern does match up to that end. */
  lemma {:induction false} ChainEndIsPattern(s: string, p: nat)
    requires p < |s| && IsWord(s[p])
    ensures LastSizeEnd(s, Chain(s, p)).Some? ==> PatternFrom(s, p, LastSizeEnd(s, Chain(s, p)).value)
    decreases |s| - p
  {
    var chain := Chain(s, p);
    var rest := if NextLink(s, p).Some? then Chain(s, NextLink(s, p).value) else [];
    assert chain == [p] + rest;
    LastSizeEndCons(s, p, rest);
    if NextLink(s, p).Some? && LastSizeEnd(s, rest).Some? {
      var q := NextLink(s, p).value;
      ChainEndIsPattern(s, q);
      LinkThenPattern(s, p, q, LastSizeEnd(s, rest).value);
    } else if IsDigit(s[p]) {
      DigitTokenIsPattern(s, p);
    }
  }

  /** The scanner's head is the longest prefix the anchored pattern matches,
      which is where Python's greedy repetition settles: there is none exactly
      when the pattern matches no prefix. */
  lemma FontHeadIsLongestMatch(s: string)
    ensures FontHeadEnd(s).Some? ==> FontPrefix(s, FontHeadEnd(s).value)
    ensures forall k: nat :: FontPrefix(s, k) ==> FontHeadEnd(s).Some? && k <= FontHeadEnd(s).value
    ensures FontHeadEnd(s).None? <==> forall k: nat :: !FontPrefix(s, k)
  {
    if s != [] && IsWord(s[0]) {
      ChainEndIsPattern(s, 0);
      forall k: nat | FontPrefix(s, k)
        ensures FontHeadEnd(s).Some? && k <= FontHeadEnd(s).value
      {
        PatternWithinChain(s, 0, k);
      }
      if FontHeadEnd(s).Some? {
        assert FontPrefix(s, FontHeadEnd(s).value);
      }
    }
  }

  /** One left-to-right pass over the leading chain that remembers the end of
      the last digit-initial token seen finds the same prefix. */
  method FontHeadScan(s: string) returns (r: Option<nat>)
    ensures r == FontHeadEnd(s)
  {
    if s == [] || !IsWord(s[0]) {
      return None;
    }
    ghost var chain := Chain(s, 0);
    var p := 0;
    ghost var i := 0;
    var best: Option<nat> := None;
    while true
      invariant i < |chain| && p < |s| && IsWord(s[p])
      invariant Chain(s, p) == chain[i..]
      invariant best == LastSizeEnd(s, chain[..i])
      decreases |chain| - i
    {
      ScanLinks(s, chain, i, p);
      ScanRecords(s, chain, i, p);
      if IsDigit(s[p]) {
        best := Some(TokenEnd(s, p));
      }
      match NextLink(s, p)
      case None =>
        return best;
      case Some(q) =>
        p := q;
        i := i + 1;
    }
  }
}
