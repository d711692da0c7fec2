/** The two Java string operations the validation rules use: `String.trim` and `String.isBlank`. */
module Text {

  /** The whitespace characters that both `trim` and `isBlank` recognise:
      space, tab, line feed, vertical tab, form feed, carriage return and U+001C..U+001F. */
  predicate IsWhitespace(c: char) {
    c == ' ' || c == '\t' || c == '\n' || c == '\U{B}' || c == '\U{C}' || c == '\r'
    || ('\U{1C}' <= c <= '\U{1F}')
  }

  /** `isBlank`: empty, or nothing but whitespace. */
  predicate IsBlank(s: string) {
    forall i :: 0 <= i < |s| ==> IsWhitespace(s[i])
  }

  /** Drops the leading whitespace. */
  function TrimStart(s: string): (r: string)
    ensures |r| <= |s| && r == s[|s| - |r|..]
    ensures r == [] || !IsWhitespace(r[0])
    ensures forall i :: 0 <= i < |s| - |r| ==> IsWhitespace(s[i])
  {
    if s != [] && IsWhitespace(s[0]) then
      var r := TrimStart(s[1..]);
      assert forall i :: 1 <= i < |s| - |r| ==> s[i] == s[1..][i - 1];
      r
    else
      s
  }

  /** Drops the trailing whitespace. */
  function TrimEnd(s: string): (r: string)
    ensures |r| <= |s| && r == s[..|r|]
    ensures r == [] || !IsWhitespace(r[|r| - 1])
    ensures forall i :: |r| <= i < |s| ==> IsWhitespace(s[i])
  {
    if s != [] && IsWhitespace(s[|s| - 1]) then
      var r := TrimEnd(s[..|s| - 1]);
      assert forall i :: |r| <= i < |s| - 1 ==> s[i] == s[..|s| - 1][i];
      r
    else
      s
  }

  /** Every character of `s` before position `a` and from position `b` on is whitespace. */
  ghost predicate WhitespaceOutside(s: string, a: nat, b: nat)
    requires a <= b <= |s|
  {
    && (forall i :: 0 <= i < a ==> IsWhitespace(s[i]))
    && (forall i :: b <= i < |s| ==> IsWhitespace(s[i]))
  }

  /** `r` is `s` with a whitespace run removed from each end: some slice `s[a..b]` outside
      of which `s` holds only whitespace. */
  ghost predicate StripsEndRuns(s: string, r: string) {
    exists a, b :: 0 <= a <= b <= |s| && r == s[a..b] && WhitespaceOutside(s, a, b)
  }

  /** `trim`: the string without its leading and trailing whitespace. It is empty exactly
      when the input is blank, it neither starts nor ends with whitespace, and a string
      that already does not is returned as it is. */
  function Trim(s: string): (r: string)
    ensures |r| <= |s|
    ensures r == [] <==> IsBlank(s)
    ensures r != [] ==> !IsWhitespace(r[0]) && !IsWhitespace(r[|r| - 1])
    ensures (s == [] || (!IsWhitespace(s[0]) && !IsWhitespace(s[|s| - 1]))) ==> r == s
  {
    TrimEnd(TrimStart(s))
  }

  /** `Trim` removes nothing but a whitespace run at each end: its result is a slice
      `s[a..b]` of the input outside of which the input holds only whitespace. So the
      trimmed length is the input's length less exactly those two runs. */
  lemma TrimStripsEndRuns(s: string)
    ensures StripsEndRuns(s, Trim(s))
  {
    var t := TrimStart(s);
    EndRunsRemoved(s, |s| - |t|, TrimEnd(t));
  }

  /** Taking a prefix `r` of the suffix from `a`, when everything before `a` and everything
      of that suffix after `r` is whitespace, removes only a whitespace run at each end. */
  lemma EndRunsRemoved(s: string, a: nat, r: string)
    requires a <= |s| && |r| <= |s| - a && r == s[a..][..|r|]
    requires forall i :: 0 <= i < a ==> IsWhitespace(s[i])
    requires forall j :: |r| <= j < |s| - a ==> IsWhitespace(s[a..][j])
    ensures StripsEndRuns(s, r)
  {
    var b := a + |r|;
    SliceOfSuffix(s, a, |r|);
    SuffixWhitespace(s, a, |r|);
    assert WhitespaceOutside(s, a, b);
  }

  /** A prefix of the suffix from `a` is the slice starting at `a`. */
  lemma SliceOfSuffix(s: string, a: nat, n: nat)
    requires a + n <= |s|
    ensures s[a..][..n] == s[a..a + n]
  {
  }

  /** Whitespace at the end of the suffix from `a` is whitespace at the end of `s`. */
  lemma SuffixWhitespace(s: string, a: nat, n: nat)
    requires a + n <= |s|
    requires forall j :: n <= j < |s| - a ==> IsWhitespace(s[a..][j])
    ensures forall i :: a + n <= i < |s| ==> IsWhitespace(s[i])
  {
    forall i | a + n <= i < |s| ensures IsWhitespace(s[i]) {
      assert s[i] == s[a..][i - a];
    }
  }
}
