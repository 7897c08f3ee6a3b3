/**
 `normalize_url_style_declaration`: lowercase a declaration value except for
 its `url(...)` functional notations, which are copied verbatim (keyword
 included). The regular expression of the source is replaced by an explicit
 scanner over the intended token structure:

   url(  ws*  ( "..." | '...' | unquoted )  ws*  )

 where the keyword is matched in any letter case, a backslash inside the
 argument escapes the character after it, and an unquoted argument runs to the
 first `)` not escaped by a backslash. A quoted argument that is not followed
 by `ws* )` is read as an unquoted one, as the regular expression's
 alternatives do.
 */
module UrlStyle {
  import opened Chars
  import opened Wrappers

  /** How the text between url tokens is treated. `Intended`: all of it is
      lowercased. `AsWritten`: the source's non-URL group `(.*?)` cannot cross a
      newline (Python's `.` does not match one), so a stretch of text that hits a
      newline before the next url token or the end of the value is left as it
      is; `$` also matches just before a final newline. */
  datatype Reading = AsWritten | Intended

  /** `url(` in any letter case starts at `j`. */
  predicate UrlKeywordAt(s: string, j: nat) {
    j + 4 <= |s|
    && LowerChar(s[j]) == 'u' && LowerChar(s[j + 1]) == 'r' && LowerChar(s[j + 2]) == 'l'
    && s[j + 3] == '('
  }

  /** The argument from `k` up to a closing `stop` (a quote, or `)` for an
      unquoted argument): the index just past the first `stop` that is not
      escaped, a backslash escaping the character after it. */
  function ArgumentClose(s: string, k: nat, stop: char): (r: Option<nat>)
    requires k <= |s|
    ensures r.Some? ==> k < r.value <= |s| && s[r.value - 1] == stop
    decreases |s| - k
  {
    if k == |s| then None
    else if s[k] == '\\' && k + 1 < |s| then ArgumentClose(s, k + 2, stop)
    else if s[k] == stop then Some(k + 1)
    else ArgumentClose(s, k + 1, stop)
  }

  /** The end of the url token starting at `j`, if one does. */
  function UrlTokenEnd(s: string, j: nat): (r: Option<nat>)
    requires j <= |s|
    ensures r.Some? ==> UrlKeywordAt(s, j) && j + 4 < r.value <= |s| && s[r.value - 1] == ')'
  {
    if !UrlKeywordAt(s, j) then None
    else
      var k := SkipSpaces(s, j + 4);
      var quoted := if k < |s| && (s[k] == '"' || s[k] == '\'') then ArgumentClose(s, k + 1, s[k]) else None;
      var closing := if quoted.Some? then SkipSpaces(s, quoted.value) else |s|;
      if closing < |s| && s[closing] == ')' then Some(closing + 1)
      else ArgumentClose(s, k, ')')
  }

  /** The repeated group `(?:\\.|[^<stop>])*` of the pattern over
      `s[a..b]`: each item is a backslash with the character after it (not a
      newline, which `.` does not match), or any character but `stop`. */
  predicate EscapedRun(s: string, a: nat, b: nat, stop: char)
    requires a <= b <= |s|
    decreases b - a
  {
    || a == b
    || (s[a] == '\\' && a + 2 <= b && s[a + 1] != '\n' && EscapedRun(s, a + 2, b, stop))
    || (s[a] != stop && EscapedRun(s, a + 1, b, stop))
  }

  predicate SpacesBetween(s: string, a: nat, b: nat)
    requires a <= b <= |s|
  {
    forall m :: a <= m < b ==> IsSpace(s[m])
  }

  /** A quoted alternative of the pattern, `"(?:\\.|[^"])*"` or its
      single-quoted twin, over `s[a..b]`. */
  predicate QuotedArgument(s: string, a: nat, b: nat)
    requires a <= b <= |s|
  {
    a + 2 <= b && (s[a] == '"' || s[a] == '\'') && s[b - 1] == s[a] && EscapedRun(s, a + 1, b - 1, s[a])
  }

  /** The url alternative of the source's pattern,
      `url\(\s*(?:"…"|'…'|(?:\\.|[^\)])*)\s*\)` in any letter case, matches
      `s[j..e]` with the argument at `s[a..b]`. */
  predicate UrlPatternAt(s: string, j: nat, a: nat, b: nat, e: nat) {
    && j + 4 <= a <= b < e <= |s|
    && UrlKeywordAt(s, j)
    && SpacesBetween(s, j + 4, a)
    && (QuotedArgument(s, a, b) || EscapedRun(s, a, b, ')'))
    && SpacesBetween(s, b, e - 1)
    && s[e - 1] == ')'
  }

  /** Every token the scanner finds is a match of the source's pattern. */
  lemma UrlTokenMatchesPattern(s: string, j: nat)
    requires j <= |s|
    ensures UrlTokenEnd(s, j).Some? ==> exists a: nat, b: nat :: UrlPatternAt(s, j, a, b, UrlTokenEnd(s, j).value)
  {
    if UrlTokenEnd(s, j).Some? {
      var e := UrlTokenEnd(s, j).value;
      var k := SkipSpaces(s, j + 4);
      var quoted := if k < |s| && (s[k] == '"' || s[k] == '\'') then ArgumentClose(s, k + 1, s[k]) else None;
      var closing := if quoted.Some? then SkipSpaces(s, quoted.value) else |s|;
      if closing < |s| && s[closing] == ')' {
        QuotedTokenMatches(s, j, k, quoted.value, closing);
        assert UrlPatternAt(s, j, k, quoted.value, e);
      } else {
        UnquotedTokenMatches(s, j, k, e);
        assert UrlPatternAt(s, j, k, e - 1, e);
      }
    }
  }

  lemma QuotedTokenMatches(s: string, j: nat, k: nat, q: nat, closing: nat)
    requires UrlKeywordAt(s, j) && k == SkipSpaces(s, j + 4) && k < |s| && (s[k] == '"' || s[k] == '\'')
    requires ArgumentClose(s, k + 1, s[k]) == Some(q) && closing == SkipSpaces(s, q)
    requires closing < |s| && s[closing] == ')'
    ensures UrlPatternAt(s, j, k, q, closing + 1)
  {
    ClosedArgumentIsRun(s, k + 1, s[k]);
    assert QuotedArgument(s, k, q);
  }

  lemma UnquotedTokenMatches(s: string, j: nat, k: nat, e: nat)
    requires UrlKeywordAt(s, j) && k == SkipSpaces(s, j + 4)
    requires ArgumentClose(s, k, ')') == Some(e)
    ensures UrlPatternAt(s, j, k, e - 1, e)
  {
    ClosedArgumentIsRun(s, k, ')');
  }

  /** The argument `ArgumentClose` reads is a run of the pattern's group,
      followed by `stop`. */
  lemma {:induction false} ClosedArgumentIsRun(s: string, k: nat, stop: char)
    requires k <= |s| && stop != '\\' && stop != '\n'
    ensures ArgumentClose(s, k, stop).Some? ==> EscapedRun(s, k, ArgumentClose(s, k, stop).value - 1, stop)
    decreases |s| - k
  {
    if k < |s| && ArgumentClose(s, k, stop).Some? {
      var e := ArgumentClose(s, k, stop).value;
      if s[k] == '\\' && k + 1 < |s| {
        ClosedArgumentIsRun(s, k + 2, stop);
        if s[k + 1] == '\n' {
          assert EscapedRun(s, k + 1, e - 1, stop);
        }
      } else if s[k] != stop {
        ClosedArgumentIsRun(s, k + 1, stop);
      }
    }
  }

  /** The pattern is matched by backtracking, where the scanner reads every
      backslash as an escape: in `URL(A\)` the pattern takes the backslash
      as an ordinary character and matches the whole value, while the scanner
      finds no token. */
  lemma ScannerMissesBacktrackingMatch(s: string)
    requires s == "URL(A\\)"
    ensures UrlPatternAt(s, 0, 4, 6, 7)
    ensures UrlTokenEnd(s, 0) == None
  {
    assert EscapedRun(s, 5, 6, ')') && EscapedRun(s, 4, 6, ')');
    assert SkipSpaces(s, 4) == 4;
    assert ArgumentClose(s, 4, ')') == ArgumentClose(s, 5, ')') == ArgumentClose(s, 7, ')') == None;
  }

  /** For every index of `s`, the end of the url token starting there. */
  function TokenEnds(s: string): (ends: seq<Option<nat>>)
    ensures ValidEnds(|s|, ends)
    ensures forall j :: 0 <= j < |s| ==> ends[j] == UrlTokenEnd(s, j)
  {
    seq(|s|, j requires 0 <= j < |s| => UrlTokenEnd(s, j))
  }

  /** A table of token ends for a value of length `n`: a token is never empty
      and never runs past the end. The scan below works over any such table. */
  ghost predicate ValidEnds(n: nat, ends: seq<Option<nat>>) {
    |ends| == n && forall j :: 0 <= j < n && ends[j].Some? ==> j < ends[j].value <= n
  }

  /** The first index at or after `p` where a token starts, or the end. */
  function NextStop(ends: seq<Option<nat>>, p: nat): (r: nat)
    requires p <= |ends|
    ensures p <= r <= |ends|
    ensures r < |ends| ==> ends[r].Some?
    ensures forall m :: p <= m < r ==> ends[m].None?
    decreases |ends| - p
  {
    if p == |ends| || ends[p].Some? then p else NextStop(ends, p + 1)
  }

  /** As written, the character at `p` is lowercased only when the text from
      `p` reaches the next url token, or the end, without crossing a newline
      (one that ends the value does not count, `$` matching before it). */
  predicate LineReachesStop(s: string, ends: seq<Option<nat>>, p: nat)
    requires p <= |s| == |ends|
  {
    forall m :: p <= m < NextStop(ends, p) && s[m] == '\n' ==> m == |s| - 1
  }

  /** The value from index `p` on, normalised. */
  function NormalizeFrom(s: string, ends: seq<Option<nat>>, p: nat, reading: Reading): (r: string)
    requires ValidEnds(|s|, ends) && p <= |s|
    ensures |r| == |s| - p
    decreases |s| - p
  {
    if p == |s| then []
    else match ends[p]
      case Some(e) => s[p..e] + NormalizeFrom(s, ends, e, reading)
      case None =>
        var c := if reading == Intended || LineReachesStop(s, ends, p) then LowerChar(s[p]) else s[p];
        [c] + NormalizeFrom(s, ends, p + 1, reading)
  }

  /** The spans `[start, end)` of the tokens the scan copies, from `p` on. */
  function TokenSpans(ends: seq<Option<nat>>, p: nat): (r: seq<(nat, nat)>)
    requires ValidEnds(|ends|, ends) && p <= |ends|
    ensures forall k :: 0 <= k < |r| ==> p <= r[k].0 < r[k].1 <= |ends|
    decreases |ends| - p
  {
    if p == |ends| then []
    else match ends[p]
      case Some(e) => [(p, e)] + TokenSpans(ends, e)
      case None => TokenSpans(ends, p + 1)
  }

  ghost predicate InSpans(spans: seq<(nat, nat)>, i: nat) {
    exists k :: 0 <= k < |spans| && spans[k].0 <= i < spans[k].1
  }

  lemma InSpansCons(x: (nat, nat), spans: seq<(nat, nat)>, i: nat)
    ensures InSpans([x] + spans, i) <==> (x.0 <= i < x.1 || InSpans(spans, i))
  {
    var all := [x] + spans;
    if InSpans(spans, i) {
      var k :| 0 <= k < |spans| && spans[k].0 <= i < spans[k].1;
      assert all[k + 1] == spans[k];
    }
    if InSpans(all, i) {
      var k :| 0 <= k < |all| && all[k].0 <= i < all[k].1;
      if k > 0 {
        assert all[k] == spans[k - 1];
      }
    }
    if x.0 <= i < x.1 {
      assert all[0] == x;
    }
  }

  /** The copied spans are tokens of the table, in order and disjoint, within
      `[p, |s|)`, and the scan is leftmost: no token starts at any index the
      spans leave uncovered. */
  lemma TokenSpansAreLeftmost(ends: seq<Option<nat>>, p: nat)
    requires ValidEnds(|ends|, ends) && p <= |ends|
    ensures var spans := TokenSpans(ends, p);
      && (forall k :: 0 <= k < |spans| ==> ends[spans[k].0] == Some(spans[k].1))
      && (forall k :: 0 <= k < |spans| - 1 ==> spans[k].1 <= spans[k + 1].0)
      && (forall i :: p <= i < |ends| && !InSpans(spans, i) ==> ends[i].None?)
  {
    SpansAreTokens(ends, p, TokenSpans(ends, p));
    SpansInOrder(ends, p, TokenSpans(ends, p));
    UncoveredHasNoToken(ends, p);
  }

  lemma {:induction false} SpansAreTokens(ends: seq<Option<nat>>, p: nat, spans: seq<(nat, nat)>)
    requires ValidEnds(|ends|, ends) && p <= |ends| && spans == TokenSpans(ends, p)
    ensures forall k :: 0 <= k < |spans| ==> ends[spans[k].0] == Some(spans[k].1)
    decreases |ends| - p
  {
    if p < |ends| {
      match ends[p]
      case Some(e) =>
        var rest := TokenSpans(ends, e);
        assert spans == [(p, e)] + rest;
        SpansAreTokens(ends, e, rest);
        forall k | 0 < k < |spans|
          ensures ends[spans[k].0] == Some(spans[k].1)
        {
          assert spans[k] == rest[k - 1];
          assert ends[rest[k - 1].0] == Some(rest[k - 1].1);
        }
      case None =>
        SpansAreTokens(ends, p + 1, spans);
    }
  }

  lemma {:induction false} SpansInOrder(ends: seq<Option<nat>>, p: nat, spans: seq<(nat, nat)>)
    requires ValidEnds(|ends|, ends) && p <= |ends| && spans == TokenSpans(ends, p)
    ensures forall k :: 0 <= k < |spans| - 1 ==> spans[k].1 <= spans[k + 1].0
    decreases |ends| - p
  {
    if p < |ends| {
      match ends[p]
      case Some(e) =>
        var rest := TokenSpans(ends, e);
        assert spans == [(p, e)] + rest;
        SpansInOrder(ends, e, rest);
        forall k | 0 <= k < |spans| - 1
          ensures spans[k].1 <= spans[k + 1].0
        {
          assert spans[k + 1] == rest[k];
          if k > 0 {
            assert spans[k] == rest[k - 1];
            assert rest[k - 1].1 <= rest[k].0;
          } else {
            assert e <= rest[0].0;
          }
        }
      case None =>
        SpansInOrder(ends, p + 1, spans);
    }
  }

  lemma {:induction false} UncoveredHasNoToken(ends: seq<Option<nat>>, p: nat)
    requires ValidEnds(|ends|, ends) && p <= |ends|
    ensures forall i :: p <= i < |ends| && !InSpans(TokenSpans(ends, p), i) ==> ends[i].None?
    decreases |ends| - p
  {
    if p < |ends| {
      match ends[p]
      case Some(e) =>
        var rest := TokenSpans(ends, e);
        assert TokenSpans(ends, p) == [(p, e)] + rest;
        UncoveredHasNoToken(ends, e);
        forall i | p <= i < |ends| && !InSpans([(p, e)] + rest, i)
          ensures ends[i].None?
        {
          InSpansCons((p, e), rest, i);
        }
      case None =>
        assert TokenSpans(ends, p) == TokenSpans(ends, p + 1);
        UncoveredHasNoToken(ends, p + 1);
    }
  }

  /** What the normaliser writes at index `i`, given the copied spans. */
  ghost function ExpectedChar(s: string, ends: seq<Option<nat>>, spans: seq<(nat, nat)>,
                              reading: Reading, i: nat): char
    requires i < |s| == |ends|
  {
    if InSpans(spans, i) then s[i]
    else if reading == Intended || LineReachesStop(s, ends, i) then LowerChar(s[i])
    else s[i]
  }

  /** Character by character: inside a copied token the output is the input;
      elsewhere it is the lowercased input, except, as written, where the text
      hits a newline before the next token. */
  lemma {:induction false} NormalizePointwise(s: string, ends: seq<Option<nat>>, p: nat, reading: Reading)
    requires ValidEnds(|s|, ends) && p <= |s|
    ensures forall i :: p <= i < |s| ==>
      NormalizeFrom(s, ends, p, reading)[i - p] == ExpectedChar(s, ends, TokenSpans(ends, p), reading, i)
    decreases |s| - p
  {
    if p < |s| {
      var r := NormalizeFrom(s, ends, p, reading);
      match ends[p]
      case Some(e) =>
        var rest := TokenSpans(ends, e);
        var tail := NormalizeFrom(s, ends, e, reading);
        assert r == s[p..e] + tail;
        assert TokenSpans(ends, p) == [(p, e)] + rest;
        NormalizePointwise(s, ends, e, reading);
        forall i | p <= i < |s|
          ensures r[i - p] == ExpectedChar(s, ends, [(p, e)] + rest, reading, i)
        {
          InSpansCons((p, e), rest, i);
          if i < e {
            assert r[i - p] == s[p..e][i - p] == s[i];
            assert InSpans([(p, e)] + rest, i);
          } else {
            assert r[i - p] == tail[i - e];
            assert tail[i - e] == ExpectedChar(s, ends, rest, reading, i);
          }
        }
      case None =>
        var rest := TokenSpans(ends, p + 1);
        var tail := NormalizeFrom(s, ends, p + 1, reading);
        assert TokenSpans(ends, p) == rest;
        NormalizePointwise(s, ends, p + 1, reading);
        assert !InSpans(rest, p);
        var c := if reading == Intended || LineReachesStop(s, ends, p) then LowerChar(s[p]) else s[p];
        assert r == [c] + tail;
        forall i | p <= i < |s|
          ensures r[i - p] == ExpectedChar(s, ends, rest, reading, i)
        {
          if i > p {
            assert r[i - p] == tail[i - (p + 1)];
            assert tail[i - (p + 1)] == ExpectedChar(s, ends, rest, reading, i);
          } else {
            assert r[0] == c;
          }
        }
    }
  }

  /** Without a newline before the last character, the two readings agree. */
  lemma {:induction false} ReadingsAgreeWithoutNewline(s: string, ends: seq<Option<nat>>, p: nat)
    requires ValidEnds(|s|, ends) && p <= |s|
    requires forall m :: 0 <= m < |s| - 1 ==> s[m] != '\n'
    ensures NormalizeFrom(s, ends, p, AsWritten) == NormalizeFrom(s, ends, p, Intended)
    decreases |s| - p
  {
    if p < |s| {
      match ends[p]
      case Some(e) =>
        ReadingsAgreeWithoutNewline(s, ends, e);
      case None =>
        assert LineReachesStop(s, ends, p);
        ReadingsAgreeWithoutNewline(s, ends, p + 1);
    }
  }

  /** `normalize_url_style_declaration(value)`, as intended: the result has
      the value's length, copies the leftmost url tokens verbatim (keyword,
      quotes and escapes included), and lowercases every character outside
      them, where no token starts. */
  function NormalizeUrlStyle(value: string): (r: string)
    ensures |r| == |value|
    ensures forall k :: 0 <= k < |TokenSpans(TokenEnds(value), 0)| ==>
      var span := TokenSpans(TokenEnds(value), 0)[k];
      && span.0 < span.1 <= |value|
      && UrlTokenEnd(value, span.0) == Some(span.1)
      && r[span.0..span.1] == value[span.0..span.1]
    ensures forall i :: 0 <= i < |value| && !InSpans(TokenSpans(TokenEnds(value), 0), i) ==>
      r[i] == LowerChar(value[i]) && UrlTokenEnd(value, i).None?
  {
    var ends := TokenEnds(value);
    var r := NormalizeFrom(value, ends, 0, Intended);
    NormalizeCopiesTokens(value, ends, r, TokenSpans(ends, 0));
    NormalizeLowersTheRest(value, ends, r, TokenSpans(ends, 0));
    r
  }

  /** The code as written: it only changes letter case, and it agrees with the
      intended normaliser unless a newline comes before the last character. */
  function NormalizeUrlStyleAsWritten(value: string): (r: string)
    ensures |r| == |value|
    ensures forall i :: 0 <= i < |value| ==> r[i] == value[i] || r[i] == LowerChar(value[i])
    ensures (forall m :: 0 <= m < |value| - 1 ==> value[m] != '\n') ==> r == NormalizeUrlStyle(value)
  {
    NormalizeOnlyChangesCase(value, AsWritten);
    var r := NormalizeFrom(value, TokenEnds(value), 0, AsWritten);
    if forall m :: 0 <= m < |value| - 1 ==> value[m] != '\n' then
      ReadingsAgreeWithoutNewline(value, TokenEnds(value), 0);
      r
    else r
  }

  /** The url normaliser under the chosen reading of its regular expression. */
  function NormalizeUrl(reading: Reading, value: string): (r: string)
    ensures |r| == |value|
    ensures forall i :: 0 <= i < |value| ==> r[i] == value[i] || r[i] == LowerChar(value[i])
    ensures (forall m :: 0 <= m < |value| - 1 ==> value[m] != '\n') ==> r == NormalizeUrlStyle(value)
  {
    match reading
    case AsWritten => NormalizeUrlStyleAsWritten(value)
    case Intended => NormalizeOnlyChangesCase(value, Intended); NormalizeUrlStyle(value)
  }

  /** Over any token table, the intended scan `r` copies the leftmost tokens
      verbatim... */
  lemma NormalizeCopiesTokens(s: string, ends: seq<Option<nat>>, r: string, spans: seq<(nat, nat)>)
    requires ValidEnds(|s|, ends)
    requires r == NormalizeFrom(s, ends, 0, Intended) && spans == TokenSpans(ends, 0)
    ensures forall k :: 0 <= k < |spans| ==>
      ends[spans[k].0] == Some(spans[k].1) && r[spans[k].0..spans[k].1] == s[spans[k].0..spans[k].1]
  {
    NormalizePointwise(s, ends, 0, Intended);
    TokenSpansAreLeftmost(ends, 0);
    forall k | 0 <= k < |spans|
      ensures r[spans[k].0..spans[k].1] == s[spans[k].0..spans[k].1]
    {
      CopiesSpan(s, ends, spans, r, k);
    }
  }

  lemma CopiesSpan(s: string, ends: seq<Option<nat>>, spans: seq<(nat, nat)>, r: string, k: nat)
    requires ValidEnds(|s|, ends) && |r| == |s| && spans == TokenSpans(ends, 0) && k < |spans|
    requires forall i :: 0 <= i < |s| ==> r[i - 0] == ExpectedChar(s, ends, spans, Intended, i)
    ensures r[spans[k].0..spans[k].1] == s[spans[k].0..spans[k].1]
  {
    var a, b := spans[k].0, spans[k].1;
    forall i | a <= i < b
      ensures r[i] == s[i]
    {
      assert InSpans(spans, i);
      assert r[i - 0] == ExpectedChar(s, ends, spans, Intended, i);
    }
  }

  /** ... and lowercases every other character, where no token starts. */
  lemma NormalizeLowersTheRest(s: string, ends: seq<Option<nat>>, r: string, spans: seq<(nat, nat)>)
    requires ValidEnds(|s|, ends)
    requires r == NormalizeFrom(s, ends, 0, Intended) && spans == TokenSpans(ends, 0)
    ensures forall i :: 0 <= i < |s| && !InSpans(spans, i) ==> r[i] == LowerChar(s[i]) && ends[i].None?
  {
    NormalizePointwise(s, ends, 0, Intended);
    TokenSpansAreLeftmost(ends, 0);
    forall i | 0 <= i < |s| && !InSpans(spans, i)
      ensures r[i] == LowerChar(s[i])
    {
      assert r[i - 0] == ExpectedChar(s, ends, spans, Intended, i);
    }
  }

  /** Under either reading the normaliser changes nothing but letter case. */
  lemma NormalizeOnlyChangesCase(value: string, reading: Reading)
    ensures var r := NormalizeFrom(value, TokenEnds(value), 0, reading);
      forall i :: 0 <= i < |value| ==> r[i] == value[i] || r[i] == LowerChar(value[i])
  {
    var ends := TokenEnds(value);
    var r := NormalizeFrom(value, ends, 0, reading);
    var spans := TokenSpans(ends, 0);
    NormalizePointwise(value, ends, 0, reading);
    forall i | 0 <= i < |value|
      ensures r[i] == value[i] || r[i] == LowerChar(value[i])
    {
      assert r[i - 0] == ExpectedChar(value, ends, spans, reading, i);
    }
  }

  /** Without a `(` the value holds no url token... */
  lemma NoParenNoTokens(s: string)
    requires forall j :: 0 <= j < |s| ==> s[j] != '('
    ensures forall j :: 0 <= j < |s| ==> TokenEnds(s)[j].None?
  {
  }

  /** ... so the scan copies nothing and every stretch of text runs to the
      end of the value. */
  lemma {:induction false} NoTokenSpans(ends: seq<Option<nat>>, p: nat)
    requires ValidEnds(|ends|, ends) && p <= |ends|
    requires forall j :: p <= j < |ends| ==> ends[j].None?
    ensures TokenSpans(ends, p) == [] && NextStop(ends, p) == |ends|
    decreases |ends| - p
  {
    if p < |ends| {
      NoTokenSpans(ends, p + 1);
    }
  }

  lemma {:induction false} NoTokensLowers(s: string, ends: seq<Option<nat>>, p: nat)
    requires ValidEnds(|s|, ends) && p <= |s|
    requires forall j :: p <= j < |s| ==> ends[j].None?
    ensures NormalizeFrom(s, ends, p, Intended) == Lower(s[p..])
    decreases |s| - p
  {
    if p < |s| {
      NoTokensLowers(s, ends, p + 1);
      assert s[p..] == [s[p]] + s[p + 1..];
      LowerAppend([s[p]], s[p + 1..]);
    }
  }

  /** A value without url notation is lowercased as a whole, as
      `str.lower` would. */
  lemma NormalizeUrlStyleWithoutUrl(value: string)
    requires forall j :: 0 <= j < |value| ==> value[j] != '('
    ensures NormalizeUrlStyle(value) == Lower(value)
  {
    NoParenNoTokens(value);
    NoTokensLowers(value, TokenEnds(value), 0);
    assert value[0..] == value;
  }

  /** As written, `RED\nBLUE` keeps `RED` in upper case: the non-URL group
      cannot reach the end of the value across the newline. The intended
      normaliser lowercases both words. */
  lemma NewlineStopsLowercasing()
    ensures NormalizeUrlStyleAsWritten("RED\nBLUE") == "RED\nblue"
    ensures NormalizeUrlStyle("RED\nBLUE") == "red\nblue"
  {
    AsWrittenKeepsFirstLine("RED\nBLUE");
    IntendedLowersBoth("RED\nBLUE");
  }

  lemma IntendedLowersBoth(s: string)
    requires s == "RED\nBLUE"
    ensures NormalizeUrlStyle(s) == "red\nblue"
  {
    NormalizeUrlStyleWithoutUrl(s);
    LowerRedBlue(s);
  }

  lemma LowerRedBlue(s: string)
    requires s == "RED\nBLUE"
    ensures Lower(s) == "red\nblue"
  {
    var want := "red\nblue";
    forall i | 0 <= i < |s|
      ensures Lower(s)[i] == want[i]
    {
    }
  }

  lemma AsWrittenKeepsFirstLine(s: string)
    requires s == "RED\nBLUE"
    ensures NormalizeUrlStyleAsWritten(s) == "RED\nblue"
  {
    var ends := TokenEnds(s);
    var r := NormalizeUrlStyleAsWritten(s);
    NoParenNoTokens(s);
    NoTokenSpans(ends, 0);
    NormalizePointwise(s, ends, 0, AsWritten);
    forall i | 0 <= i < |s|
      ensures r[i] == "RED\nblue"[i]
    {
      assert r[i - 0] == ExpectedChar(s, ends, [], AsWritten, i);
      AsWrittenCharAt(s, ends, i);
    }
  }

  lemma AsWrittenCharAt(s: string, ends: seq<Option<nat>>, i: nat)
    requires s == "RED\nBLUE" && ValidEnds(|s|, ends) && i < |s|
    requires forall j :: 0 <= j < |s| ==> ends[j].None?
    ensures ExpectedChar(s, ends, [], AsWritten, i) == "RED\nblue"[i]
  {
    NoTokenSpans(ends, i);
    if i < 3 {
      assert !LineReachesStop(s, ends, i) by {
        assert s[3] == '\n';
      }
    } else if i > 3 {
      assert LineReachesStop(s, ends, i);
    }
  }
}
