/**
 Character classes and the small string primitives the parser borrows from
 Python: `str.isspace`, `str.lower` (ASCII letters only), `str.strip`,
 `str.lstrip(' ')`, `str.rstrip(' ')` and `str.endswith(' ')`, plus the `\s`,
 `\w` and `\d` classes of Python's regular expressions.
 */
module Chars {

  /** Python's `str.isspace`, which is also what `\s` matches in a `str` pattern. */
  predicate IsSpace(c: char) {
    var n := c as int;
    n == 0x20 || 0x09 <= n <= 0x0d || 0x1c <= n <= 0x1f || n == 0x85 || n == 0xa0
    || n == 0x1680 || 0x2000 <= n <= 0x200a || n == 0x2028 || n == 0x2029
    || n == 0x202f || n == 0x205f || n == 0x3000
  }

  /** `\d`, restricted to ASCII. */
  predicate IsDigit(c: char) {
    '0' <= c <= '9'
  }

  /** `\w`, restricted to ASCII. */
  predicate IsWord(c: char) {
    IsDigit(c) || 'a' <= c <= 'z' || 'A' <= c <= 'Z' || c == '_'
  }

  predicate IsUpper(c: char) {
    'A' <= c <= 'Z'
  }

  /** `str.lower` on one character, for ASCII letters. */
  function LowerChar(c: char): (r: char)
    ensures !IsUpper(r)
    ensures !IsUpper(c) ==> r == c
    ensures IsUpper(c) ==> r as int == c as int + 32
  {
    if IsUpper(c) then (c as int + 32) as char else c
  }

  function Lower(s: string): (r: string)
    ensures |r| == |s|
    ensures forall i :: 0 <= i < |s| ==> r[i] == LowerChar(s[i])
  {
    seq(|s|, i requires 0 <= i < |s| => LowerChar(s[i]))
  }

  predicate NoUpper(s: string) {
    forall i :: 0 <= i < |s| ==> !IsUpper(s[i])
  }

  lemma LowerAppend(a: string, b: string)
    ensures Lower(a + b) == Lower(a) + Lower(b)
  {
  }

  /** The characters a strip removes: Python white space (`str.strip()`), or
      the space character alone (`lstrip(' ')`, `rstrip(' ')`). */
  datatype Blanks = PythonSpace | SpaceChar

  predicate Cuts(blanks: Blanks, c: char) {
    match blanks
    case PythonSpace => IsSpace(c)
    case SpaceChar => c == ' '
  }

  /** Drops the longest prefix of `s` made of `blanks`. */
  function TrimStart(s: string, blanks: Blanks): (r: string)
    ensures |r| <= |s| && r == s[|s| - |r|..]
    ensures forall i :: 0 <= i < |s| - |r| ==> Cuts(blanks, s[i])
    ensures r == [] || !Cuts(blanks, r[0])
  {
    if s != [] && Cuts(blanks, s[0]) then TrimStart(s[1..], blanks) else s
  }

  /** Drops the longest suffix of `s` made of `blanks`. */
  function TrimEnd(s: string, blanks: Blanks): (r: string)
    ensures |r| <= |s| && r == s[..|r|]
    ensures forall i :: |r| <= i < |s| ==> Cuts(blanks, s[i])
    ensures r == [] || !Cuts(blanks, r[|r| - 1])
  {
    if s != [] && Cuts(blanks, s[|s| - 1]) then TrimEnd(s[..|s| - 1], blanks) else s
  }

  /** The first index at or after `k` that is not white space. */
  function SkipSpaces(s: string, k: nat): (r: nat)
    requires k <= |s|
    ensures k <= r <= |s|
    ensures forall m :: k <= m < r ==> IsSpace(s[m])
    ensures r == |s| || !IsSpace(s[r])
    decreases |s| - k
  {
    if k < |s| && IsSpace(s[k]) then SkipSpaces(s, k + 1) else k
  }

  /** `str.strip()`. */
  function Strip(s: string): (r: string)
    ensures r == [] || (!IsSpace(r[0]) && !IsSpace(r[|r| - 1]))
  {
    TrimEnd(TrimStart(s, PythonSpace), PythonSpace)
  }

  /** `str.lstrip(' ')`: the suffix of `s` left after its leading spaces. */
  function LStripSpace(s: string): (r: string)
    ensures |r| <= |s| && r == s[|s| - |r|..]
    ensures forall i :: 0 <= i < |s| - |r| ==> s[i] == ' '
    ensures r == [] || r[0] != ' '
  {
    TrimStart(s, SpaceChar)
  }

  /** `str.rstrip(' ')`: the prefix of `s` left before its trailing spaces. */
  function RStripSpace(s: string): (r: string)
    ensures |r| <= |s| && r == s[..|r|]
    ensures forall i :: |r| <= i < |s| ==> s[i] == ' '
    ensures r == [] || r[|r| - 1] != ' '
  {
    TrimEnd(s, SpaceChar)
  }

  /** `str.endswith(' ')`. */
  predicate EndsWithSpace(s: string) {
    s != [] && s[|s| - 1] == ' '
  }

  predicate StartsWithSpace(s: string) {
    s != [] && s[0] == ' '
  }

  /** `Strip` returns the middle of `s`, from index `StripStart(s)`, with all
      surrounding Python whitespace removed, and nothing else. */
  function StripStart(s: string): (i: nat)
    ensures i <= |s|
  {
    |s| - |TrimStart(s, PythonSpace)|
  }

  lemma StripIsInfix(s: string)
    ensures StripStart(s) + |Strip(s)| <= |s|
    ensures Strip(s) == s[StripStart(s)..StripStart(s) + |Strip(s)|]
    ensures forall k :: 0 <= k < StripStart(s) ==> IsSpace(s[k])
    ensures forall k :: StripStart(s) + |Strip(s)| <= k < |s| ==> IsSpace(s[k])
  {
    var t := TrimStart(s, PythonSpace);
    var r := TrimEnd(t, PythonSpace);
    var i := |s| - |t|;
    assert r == Strip(s) && i == StripStart(s);
    assert i + |r| <= |s| && r == s[i..i + |r|] by {
      TrimBothIsInfix(s, PythonSpace, t, r, i);
    }
    forall k | 0 <= k < i || i + |r| <= k < |s|
      ensures IsSpace(s[k])
    {
      TrimBothIsInfix(s, PythonSpace, t, r, i);
      assert Cuts(PythonSpace, s[k]);
    }
  }

  /** Trimming both ends leaves a slice of `s`, and everything cut off
      is one of `blanks`. */
  lemma TrimBothIsInfix(s: string, blanks: Blanks, t: string, r: string, i: nat)
    requires t == TrimStart(s, blanks) && r == TrimEnd(t, blanks) && i == |s| - |t|
    ensures i + |r| <= |s| && r == s[i..i + |r|]
    ensures forall k :: 0 <= k < i ==> Cuts(blanks, s[k])
    ensures forall k :: i + |r| <= k < |s| ==> Cuts(blanks, s[k])
  {
    SliceOfSuffix(s, i, t, r);
    forall k | i + |r| <= k < |s|
      ensures Cuts(blanks, s[k])
    {
      assert s[k] == t[k - i];
    }
  }

  /** A prefix of a suffix is a slice. */
  lemma SliceOfSuffix(s: string, i: nat, t: string, r: string)
    requires i <= |s| && t == s[i..] && |r| <= |t| && r == t[..|r|]
    ensures i + |r| <= |s| && r == s[i..i + |r|]
    ensures forall k :: i <= k < |s| ==> s[k] == t[k - i]
  {
  }
}
