/**
 White space handling of text content (`handle_white_spaces`), following
 section 10.15 "White space handling" of SVG 1.1: in `preserve` mode every
 newline, carriage return and tab becomes one space; otherwise newlines and
 carriage returns are removed, tabs become spaces and runs of spaces are
 collapsed to one.
 */
module WhiteSpace {
  import opened Chars
  import opened Wrappers

  predicate IsBreak(c: char) {
    c == '\n' || c == '\r'
  }

  /** The characters `preserve` mode turns into spaces. */
  predicate IsControlSpace(c: char) {
    IsBreak(c) || c == '\t'
  }

  predicate NoControlSpace(s: string) {
    forall i :: 0 <= i < |s| ==> !IsControlSpace(s[i])
  }

  predicate NoDoubleSpace(s: string) {
    forall i :: 0 <= i < |s| - 1 ==> !(s[i] == ' ' && s[i + 1] == ' ')
  }

  /** The characters of `s` other than `' '`, in order. */
  function NonSpaces(s: string): string {
    if s == [] then [] else (if s[0] == ' ' then [] else [s[0]]) + NonSpaces(s[1..])
  }

  /** The shape of `s` with the length of its space runs forgotten: each
      character other than a space, tagged with whether a space comes right
      before it (`gap` says whether one came before `s`). */
  function RunsAfter(s: string, gap: bool): seq<(bool, char)> {
    if s == [] then []
    else if s[0] == ' ' then RunsAfter(s[1..], true)
    else [(gap, s[0])] + RunsAfter(s[1..], false)
  }

  function Runs(s: string): seq<(bool, char)> {
    RunsAfter(s, false)
  }

  /** `re.sub('[\n\r\t]', ' ', s)` */
  function ControlToSpace(s: string): (r: string)
    ensures |r| == |s| && NoControlSpace(r)
    ensures forall i :: 0 <= i < |s| ==> r[i] == if IsControlSpace(s[i]) then ' ' else s[i]
  {
    seq(|s|, i requires 0 <= i < |s| => if IsControlSpace(s[i]) then ' ' else s[i])
  }

  /** `re.sub('[\n\r]', '', s)` */
  function DropBreaks(s: string): (r: string)
    ensures |r| <= |s|
    ensures forall i :: 0 <= i < |r| ==> !IsBreak(r[i])
    ensures (forall i :: 0 <= i < |s| ==> !IsBreak(s[i])) ==> r == s
  {
    if s == [] then []
    else (if IsBreak(s[0]) then [] else [s[0]]) + DropBreaks(s[1..])
  }

  /** `re.sub('\t', ' ', s)` */
  function TabsToSpaces(s: string): (r: string)
    ensures |r| == |s|
    ensures forall i :: 0 <= i < |s| ==> r[i] == if s[i] == '\t' then ' ' else s[i]
  {
    seq(|s|, i requires 0 <= i < |s| => if s[i] == '\t' then ' ' else s[i])
  }

  /** `re.sub(' +', ' ', s)`: a space right before another space is dropped,
      so every run of spaces becomes a single space. */
  function Collapse(s: string): string {
    if |s| <= 1 then s
    else if s[0] == ' ' && s[1] == ' ' then Collapse(s[1..])
    else [s[0]] + Collapse(s[1..])
  }

  /** The result has no two adjacent spaces, keeps every other character in
      order, starts and ends with a space exactly when `s` does, and is `s`
      itself when `s` already had no two adjacent spaces. */
  function CollapseSpaces(s: string): (r: string)
    ensures |r| <= |s| && (s != [] ==> r != [])
    ensures NoDoubleSpace(r)
    ensures NonSpaces(r) == NonSpaces(s)
    ensures Runs(r) == Runs(s)
    ensures StartsWithSpace(r) <==> StartsWithSpace(s)
    ensures EndsWithSpace(r) <==> EndsWithSpace(s)
    ensures NoDoubleSpace(s) ==> r == s
    ensures (forall i :: 0 <= i < |s| ==> !IsControlSpace(s[i])) ==> NoControlSpace(r)
  {
    CollapseFacts(s);
    CollapseKeepsRuns(s, false);
    Collapse(s)
  }

  /** Dropping a space that precedes another space keeps the runs. */
  lemma {:induction false} CollapseKeepsRuns(s: string, gap: bool)
    ensures RunsAfter(Collapse(s), gap) == RunsAfter(s, gap)
    decreases |s|
  {
    if |s| > 1 {
      var rest := Collapse(s[1..]);
      if s[0] == ' ' && s[1] == ' ' {
        CollapseKeepsRuns(s[1..], gap);
        assert RunsAfter(s[1..], gap) == RunsAfter(s[2..], true);
      } else {
        assert ([s[0]] + rest)[1..] == rest;
        CollapseKeepsRuns(s[1..], s[0] == ' ');
      }
    }
  }

  /** The runs, together with whether the string starts and ends with a space,
      determine a string without two adjacent spaces: so the contract of
      `CollapseSpaces` fixes its result. */
  lemma CollapseSpacesIsDetermined(s: string, t: string)
    requires NoDoubleSpace(t) && Runs(t) == Runs(s)
    requires StartsWithSpace(t) <==> StartsWithSpace(s)
    requires EndsWithSpace(t) <==> EndsWithSpace(s)
    ensures t == CollapseSpaces(s)
  {
    RunsDetermine(t, CollapseSpaces(s), false);
  }

  lemma {:induction false} RunsDetermine(a: string, b: string, gap: bool)
    requires NoDoubleSpace(a) && NoDoubleSpace(b) && RunsAfter(a, gap) == RunsAfter(b, gap)
    requires StartsWithSpace(a) <==> StartsWithSpace(b)
    requires EndsWithSpace(a) <==> EndsWithSpace(b)
    ensures a == b
    decreases |a|
  {
    if a == [] || b == [] {
      assert RunsAfter(a, gap) == [] == RunsAfter(b, gap);
      OnlySpacesHaveNoRuns(a, gap);
      OnlySpacesHaveNoRuns(b, gap);
    } else {
      TailNoDoubleSpace(a);
      TailNoDoubleSpace(b);
      var ta, tb := a[1..], b[1..];
      var g := a[0] == ' ';
      if g {
        assert b[0] == ' ';
        assert RunsAfter(a, gap) == RunsAfter(ta, true) && RunsAfter(b, gap) == RunsAfter(tb, true);
      } else {
        assert b[0] != ' ';
        var ra, rb := RunsAfter(a, gap), RunsAfter(b, gap);
        assert ra == [(gap, a[0])] + RunsAfter(ta, false) && rb == [(gap, b[0])] + RunsAfter(tb, false);
        assert ra[0] == rb[0] && ra[1..] == rb[1..];
      }
      assert ta != [] ==> (EndsWithSpace(ta) <==> EndsWithSpace(a));
      assert tb != [] ==> (EndsWithSpace(tb) <==> EndsWithSpace(b));
      TailStart(a, ta, tb, g);
      TailStart(b, tb, ta, g);
      if ta == [] || tb == [] {
        OnlySpacesHaveNoRuns(ta, g);
        OnlySpacesHaveNoRuns(tb, g);
      } else {
        RunsDetermine(ta, tb, g);
      }
      assert a == [a[0]] + ta && b == [b[0]] + tb;
    }
  }

  /** A string with no runs is all spaces, so without two adjacent spaces it is
      empty or a single space. */
  lemma {:induction false} OnlySpacesHaveNoRuns(s: string, gap: bool)
    requires NoDoubleSpace(s)
    ensures RunsAfter(s, gap) == [] ==> s == [] || s == " "
    decreases |s|
  {
    if s != [] && s[0] == ' ' && |s| > 1 {
      assert s[1] != ' ';
      assert RunsAfter(s[1..], true) != [];
    }
  }

  /** After the first character of `a`, with `a` free of two adjacent spaces,
      a tail that starts with a space has runs unlike any tail that does not,
      unless the two are a single space against nothing. */
  lemma TailStart(a: string, ta: string, tb: string, g: bool)
    requires a != [] && ta == a[1..] && g == (a[0] == ' ') && NoDoubleSpace(a) && NoDoubleSpace(tb)
    ensures StartsWithSpace(ta) && !StartsWithSpace(tb) && RunsAfter(ta, g) == RunsAfter(tb, g) ==>
      ta == " " && tb == []
  {
    if StartsWithSpace(ta) && !StartsWithSpace(tb) {
      assert a[1] == ' ' && !g;
      if |ta| > 1 {
        assert ta[1] == a[2] != ' ';
        assert ta[1..][1..] == ta[2..];
        var ra := RunsAfter(ta, g);
        assert ra == RunsAfter(ta[1..], true) == [(true, ta[1])] + RunsAfter(ta[2..], false);
        if tb != [] {
          assert RunsAfter(tb, g) == [(g, tb[0])] + RunsAfter(tb[1..], false);
          assert RunsAfter(tb, g)[0] != ra[0];
        }
      } else {
        assert ta == " ";
        assert RunsAfter(ta, g) == RunsAfter([], true) == [];
        OnlySpacesHaveNoRuns(tb, g);
      }
    }
  }

  lemma {:induction false} CollapseFacts(s: string)
    ensures |Collapse(s)| <= |s| && (s != [] ==> Collapse(s) != [])
    ensures NoDoubleSpace(Collapse(s))
    ensures NonSpaces(Collapse(s)) == NonSpaces(s)
    ensures StartsWithSpace(Collapse(s)) <==> StartsWithSpace(s)
    ensures EndsWithSpace(Collapse(s)) <==> EndsWithSpace(s)
    ensures NoDoubleSpace(s) ==> Collapse(s) == s
    ensures (forall i :: 0 <= i < |s| ==> !IsControlSpace(s[i])) ==> NoControlSpace(Collapse(s))
    decreases |s|
  {
    if |s| > 1 {
      CollapseFacts(s[1..]);
      if s[0] == ' ' && s[1] == ' ' {
        SkipSpace(s, Collapse(s[1..]));
      } else {
        KeepFirst(s, Collapse(s[1..]));
      }
    }
  }

  /** The first of two leading spaces can go... */
  lemma SkipSpace(s: string, rest: string)
    requires |s| >= 2 && s[0] == ' ' && s[1] == ' '
    requires NonSpaces(rest) == NonSpaces(s[1..])
    requires StartsWithSpace(rest) <==> StartsWithSpace(s[1..])
    requires EndsWithSpace(rest) <==> EndsWithSpace(s[1..])
    requires (forall i :: 0 <= i < |s| - 1 ==> !IsControlSpace(s[1..][i])) ==> NoControlSpace(rest)
    ensures NonSpaces(rest) == NonSpaces(s)
    ensures StartsWithSpace(rest) <==> StartsWithSpace(s)
    ensures EndsWithSpace(rest) <==> EndsWithSpace(s)
    ensures !NoDoubleSpace(s)
    ensures (forall i :: 0 <= i < |s| ==> !IsControlSpace(s[i])) ==> NoControlSpace(rest)
  {
    assert s[1..][|s| - 2] == s[|s| - 1];
    if forall i :: 0 <= i < |s| ==> !IsControlSpace(s[i]) {
      TailNoControlSpace(s);
    }
  }

  /** ... and otherwise the first character stays in front. */
  lemma KeepFirst(s: string, rest: string)
    requires |s| >= 2 && !(s[0] == ' ' && s[1] == ' ')
    requires rest != [] && NoDoubleSpace(rest)
    requires NonSpaces(rest) == NonSpaces(s[1..])
    requires StartsWithSpace(rest) <==> StartsWithSpace(s[1..])
    requires EndsWithSpace(rest) <==> EndsWithSpace(s[1..])
    requires NoDoubleSpace(s[1..]) ==> rest == s[1..]
    requires (forall i :: 0 <= i < |s| - 1 ==> !IsControlSpace(s[1..][i])) ==> NoControlSpace(rest)
    ensures var r := [s[0]] + rest;
      && NoDoubleSpace(r)
      && NonSpaces(r) == NonSpaces(s)
      && (StartsWithSpace(r) <==> StartsWithSpace(s))
      && (EndsWithSpace(r) <==> EndsWithSpace(s))
      && (NoDoubleSpace(s) ==> r == s)
      && ((forall i :: 0 <= i < |s| ==> !IsControlSpace(s[i])) ==> NoControlSpace(r))
  {
    var r := [s[0]] + rest;
    assert r[1..] == rest;
    assert NonSpaces(r) == (if s[0] == ' ' then [] else [s[0]]) + NonSpaces(rest);
    assert s[1..][|s| - 2] == s[|s| - 1];
    assert r[|r| - 1] == rest[|rest| - 1];
    assert StartsWithSpace(rest) ==> s[1] == ' ';
    ConsNoDoubleSpace(s[0], rest);
    if NoDoubleSpace(s) {
      TailNoDoubleSpace(s);
      assert r == [s[0]] + s[1..] == s;
    }
    if forall i :: 0 <= i < |s| ==> !IsControlSpace(s[i]) {
      TailNoControlSpace(s);
      ConsNoControlSpace(s[0], rest);
    }
  }

  lemma ConsNoDoubleSpace(c: char, t: string)
    requires NoDoubleSpace(t) && !(c == ' ' && StartsWithSpace(t))
    ensures NoDoubleSpace([c] + t)
  {
    var r := [c] + t;
    forall i | 0 <= i < |r| - 1
      ensures !(r[i] == ' ' && r[i + 1] == ' ')
    {
      assert r[i + 1] == t[i];
      if i > 0 {
        assert r[i] == t[i - 1];
      }
    }
  }

  lemma TailNoDoubleSpace(s: string)
    requires s != [] && NoDoubleSpace(s)
    ensures NoDoubleSpace(s[1..])
  {
    forall i | 0 <= i < |s| - 2
      ensures !(s[1..][i] == ' ' && s[1..][i + 1] == ' ')
    {
      assert s[1..][i] == s[i + 1] && s[1..][i + 1] == s[i + 2];
    }
  }

  lemma ConsNoControlSpace(c: char, t: string)
    requires !IsControlSpace(c) && NoControlSpace(t)
    ensures NoControlSpace([c] + t)
  {
    var r := [c] + t;
    forall i | 0 < i < |r|
      ensures !IsControlSpace(r[i])
    {
      assert r[i] == t[i - 1];
    }
  }

  lemma TailNoControlSpace(s: string)
    requires s != [] && forall i :: 0 <= i < |s| ==> !IsControlSpace(s[i])
    ensures forall i :: 0 <= i < |s| - 1 ==> !IsControlSpace(s[1..][i])
  {
    forall i | 0 <= i < |s| - 1
      ensures !IsControlSpace(s[1..][i])
    {
      assert s[1..][i] == s[i + 1];
    }
  }

  /** `handle_white_spaces(string, preserve)`; `None` stands for an element
      without text. */
  function HandleWhiteSpaces(text: Option<string>, preserve: bool): (r: string)
    ensures text == None || text == Some([]) ==> r == []
    ensures preserve && text.Some? ==>
      |r| == |text.value|
      && forall i :: 0 <= i < |r| ==>
           r[i] == if IsControlSpace(text.value[i]) then ' ' else text.value[i]
    ensures !preserve ==> NoControlSpace(r) && NoDoubleSpace(r)
    ensures !preserve && text.Some? ==> |r| <= |text.value|
  {
    match text
    case None => []
    case Some(s) =>
      if s == [] then []
      else if preserve then ControlToSpace(s)
      else CollapseSpaces(TabsToSpaces(DropBreaks(s)))
  }

  /** Default mode leaves a text alone when it has no newline, carriage
      return or tab and no two adjacent spaces. */
  lemma CleanTextUnchanged(s: string)
    requires NoControlSpace(s) && NoDoubleSpace(s)
    ensures HandleWhiteSpaces(Some(s), false) == s
  {
    assert DropBreaks(s) == s;
    assert TabsToSpaces(s) == s;
  }

  /** Collapsing is idempotent. */
  lemma CollapseIdempotent(s: string)
    ensures CollapseSpaces(CollapseSpaces(s)) == CollapseSpaces(s)
  {
  }

  /** Collapsing leaves `s` alone exactly when `s` has no two adjacent spaces. */
  lemma CollapseFixedPoint(s: string)
    ensures CollapseSpaces(s) == s <==> NoDoubleSpace(s)
  {
  }

  /** In default mode, the non-space characters of the text survive in order,
      with newlines and carriage returns removed and tabs read as spaces. */
  lemma DefaultKeepsNonSpaces(s: string)
    ensures NonSpaces(HandleWhiteSpaces(Some(s), false)) == NonSpaces(TabsToSpaces(DropBreaks(s)))
  {
  }

  /** Appending one character to the input of `CollapseSpaces` either appends it
      to the output or, for a space after a space, changes nothing. */
  lemma {:induction false} CollapseSnoc(s: string, c: char)
    ensures Collapse(s + [c]) ==
      if c == ' ' && s != [] && s[|s| - 1] == ' ' then Collapse(s) else Collapse(s) + [c]
    decreases |s|
  {
    if |s| == 0 {
      assert s + [c] == [c];
    } else if |s| == 1 {
      assert (s + [c])[1..] == [c];
    } else {
      var t := s + [c];
      assert t[1..] == s[1..] + [c];
      assert t[0] == s[0] && t[1] == s[1];
      assert s[1..][|s| - 2] == s[|s| - 1];
      CollapseSnoc(s[1..], c);
    }
  }

  lemma {:induction false} DropBreaksSnoc(s: string, c: char)
    ensures DropBreaks(s + [c]) == DropBreaks(s) + (if IsBreak(c) then [] else [c])
  {
    if s != [] {
      assert (s + [c])[1..] == s[1..] + [c];
      DropBreaksSnoc(s[1..], c);
    } else {
      assert s + [c] == [c];
    }
  }

  /** The three substitutions of the default mode. */
  function DefaultPipeline(s: string): string {
    CollapseSpaces(TabsToSpaces(DropBreaks(s)))
  }

  /** One step of the single pass: a newline or carriage return is dropped, a
      tab becomes a space, and a space right after a space is skipped. */
  function PassStep(out: string, c: char): string {
    if IsBreak(c) then out
    else
      var d := if c == '\t' then ' ' else c;
      if d == ' ' && out != [] && out[|out| - 1] == ' ' then out else out + [d]
  }

  lemma TabsToSpacesSnoc(s: string, c: char)
    ensures TabsToSpaces(s + [c]) == TabsToSpaces(s) + [if c == '\t' then ' ' else c]
  {
  }

  /** Appending a character other than a line break or tab to the input of
      `CollapseSpaces` is one step of the single pass. */
  lemma CollapseStep(a: string, d: char)
    requires !IsBreak(d) && d != '\t'
    ensures CollapseSpaces(a + [d]) == PassStep(CollapseSpaces(a), d)
  {
    CollapseSnoc(a, d);
    assert EndsWithSpace(CollapseSpaces(a)) <==> EndsWithSpace(a);
  }

  /** Appending a character to the input of the default mode extends its
      output by exactly one step of the single pass. */
  lemma DefaultPipelineSnoc(s: string, c: char)
    ensures DefaultPipeline(s + [c]) == PassStep(DefaultPipeline(s), c)
  {
    DropBreaksSnoc(s, c);
    if IsBreak(c) {
      assert DropBreaks(s + [c]) == DropBreaks(s);
    } else {
      var d := if c == '\t' then ' ' else c;
      var a := TabsToSpaces(DropBreaks(s));
      TabsToSpacesSnoc(DropBreaks(s), c);
      assert TabsToSpaces(DropBreaks(s + [c])) == a + [d];
      CollapseStep(a, d);
      assert PassStep(CollapseSpaces(a), c) == PassStep(CollapseSpaces(a), d);
    }
  }

  /** The single pass over the first `i` characters of `s`. */
  function PassPrefix(s: string, i: nat): string
    requires i <= |s|
    decreases i
  {
    if i == 0 then [] else PassStep(PassPrefix(s, i - 1), s[i - 1])
  }

  /** The single pass agrees with the three substitutions on every prefix. */
  lemma {:induction false} PassPrefixIsPipeline(s: string, i: nat)
    requires i <= |s|
    ensures PassPrefix(s, i) == DefaultPipeline(s[..i])
    decreases i
  {
    if i == 0 {
      assert s[..0] == [];
    } else {
      PassPrefixIsPipeline(s, i - 1);
      assert s[..i] == s[..i - 1] + [s[i - 1]];
      DefaultPipelineSnoc(s[..i - 1], s[i - 1]);
    }
  }

  /** Over the whole text the single pass is the default mode. */
  lemma PassIsDefaultMode(s: string)
    ensures PassPrefix(s, |s|) == HandleWhiteSpaces(Some(s), false)
  {
    PassPrefixIsPipeline(s, |s|);
    assert s[..|s|] == s;
  }

  /** A single pass over the text that drops newlines, turns tabs into spaces
      and skips a space that follows a space produces exactly what the three
      substitutions of the default mode produce. */
  method DefaultWhiteSpaceOnePass(s: string) returns (out: string)
    ensures out == HandleWhiteSpaces(Some(s), false)
  {
    out := [];
    var i := 0;
    while i < |s|
      invariant 0 <= i <= |s|
      invariant out == PassPrefix(s, i)
    {
      var c := s[i];
      if !IsBreak(c) {
        var d := if c == '\t' then ' ' else c;
        if !(d == ' ' && out != [] && out[|out| - 1] == ' ') {
          out := out + [d];
        }
      }
      i := i + 1;
    }
    PassIsDefaultMode(s);
  }
}
