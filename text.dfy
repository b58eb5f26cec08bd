/**
 * The string operations the server applies to request fields and stored
 * records: JavaScript's String.prototype.trim, the lowercasing setter of the
 * email path, startsWith and a replace of the first occurrence.
 */
module Text {

  /** The characters String.prototype.trim removes: WhiteSpace and LineTerminator. */
  predicate IsWhitespace(c: char) {
    || c == '\t' || c == '\n' || c == '\U{B}' || c == '\U{C}' || c == '\r' || c == ' '
    || c == '\U{A0}' || c == '\U{1680}' || ('\U{2000}' <= c <= '\U{200A}')
    || c == '\U{2028}' || c == '\U{2029}' || c == '\U{202F}' || c == '\U{205F}'
    || c == '\U{3000}' || c == '\U{FEFF}'
  }

  /** A string made only of whitespace (the empty string included): falsy once trimmed. */
  predicate Blank(s: string) {
    forall i :: 0 <= i < |s| ==> IsWhitespace(s[i])
  }

  /** Number of whitespace characters at the start of s. */
  function LeadingWhitespace(s: string): (k: nat)
    ensures k <= |s|
    ensures forall i :: 0 <= i < k ==> IsWhitespace(s[i])
    ensures k < |s| ==> !IsWhitespace(s[k])
  {
    if s != [] && IsWhitespace(s[0]) then
      var k := 1 + LeadingWhitespace(s[1..]);
      assert forall i :: 1 <= i < k ==> s[i] == s[1..][i - 1];
      k
    else 0
  }

  /** Number of whitespace characters at the end of s. */
  function TrailingWhitespace(s: string): (k: nat)
    ensures k <= |s|
    ensures forall i :: |s| - k <= i < |s| ==> IsWhitespace(s[i])
    ensures k < |s| ==> !IsWhitespace(s[|s| - 1 - k])
  {
    if s != [] && IsWhitespace(s[|s| - 1]) then
      var k := 1 + TrailingWhitespace(s[..|s| - 1]);
      assert forall i :: |s| - k <= i < |s| - 1 ==> s[i] == s[..|s| - 1][i];
      k
    else 0
  }

  /**
   * String.prototype.trim: the part of s between its leading and its trailing
   * whitespace. Everything removed is whitespace and the result neither starts
   * nor ends with whitespace.
   */
  function Trim(s: string): (r: string)
    ensures |r| == if LeadingWhitespace(s) == |s| then 0 else |s| - TrailingWhitespace(s) - LeadingWhitespace(s)
    ensures LeadingWhitespace(s) + |r| <= |s|
    ensures r == s[LeadingWhitespace(s)..LeadingWhitespace(s) + |r|]
    ensures forall i :: LeadingWhitespace(s) + |r| <= i < |s| ==> IsWhitespace(s[i])
    ensures IsTrimmed(r)
    ensures r == [] <==> Blank(s)
  {
    var k := LeadingWhitespace(s);
    if k == |s| then
      []
    else
      var e := |s| - TrailingWhitespace(s);
      assert k < e by {
        assert !IsWhitespace(s[k]);
      }
      s[k..e]
  }

  /** A trimmed string has nothing left to trim. */
  predicate IsTrimmed(s: string) {
    s == [] || (!IsWhitespace(s[0]) && !IsWhitespace(s[|s| - 1]))
  }

  lemma TrimmedIsFixpoint(s: string)
    requires IsTrimmed(s)
    ensures Trim(s) == s
  {
    assert LeadingWhitespace(s) == 0;
    assert s != [] ==> TrailingWhitespace(s) == 0;
  }

  /** Trimming twice is trimming once (the trim setter after a trim in a route). */
  lemma TrimIdempotent(s: string)
    ensures Trim(Trim(s)) == Trim(s)
  {
    TrimmedIsFixpoint(Trim(s));
  }

  /** The lowercase setter on ASCII letters. */
  function LowerChar(c: char): (d: char)
    ensures !('A' <= d <= 'Z')
    ensures 'A' <= c <= 'Z' ==> d as int == c as int + 32 && 'a' <= d <= 'z'
    ensures !('A' <= c <= 'Z') ==> d == c
  {
    if 'A' <= c <= 'Z' then (c as int + 32) as char else c
  }

  /** Characterwise lowercase. */
  function Lower(s: string): (r: string)
    ensures |r| == |s|
    ensures forall i :: 0 <= i < |s| ==> r[i] == LowerChar(s[i])
  {
    seq(|s|, i requires 0 <= i < |s| => LowerChar(s[i]))
  }

  /** No ASCII capital letter occurs in s. */
  predicate IsLowercase(s: string) {
    forall i :: 0 <= i < |s| ==> !('A' <= s[i] <= 'Z')
  }

  /** Trimming keeps a string free of capitals. */
  lemma TrimKeepsLowercase(s: string)
    requires IsLowercase(s)
    ensures IsLowercase(Trim(s))
  {
    var r := Trim(s);
    var k := LeadingWhitespace(s);
    assert forall i :: 0 <= i < |r| ==> r[i] == s[k + i];
  }

  lemma LowerOfLowercase(s: string)
    requires IsLowercase(s)
    ensures Lower(s) == s
  {
  }

  /** String.prototype.startsWith. */
  predicate StartsWith(s: string, prefix: string) {
    |prefix| <= |s| && s[..|prefix|] == prefix
  }

  /** The pattern occurs in s at position j. */
  predicate OccursAt(s: string, pattern: string, j: nat) {
    j + |pattern| <= |s| && s[j..j + |pattern|] == pattern
  }

  /** Index of the first occurrence of pattern in s at or after position from, or -1. */
  function IndexOfFrom(s: string, pattern: string, from: nat): (r: int)
    requires from <= |s|
    ensures r != -1 ==> from <= r && OccursAt(s, pattern, r)
    ensures forall j :: from <= j && (r == -1 || j < r) ==> !OccursAt(s, pattern, j)
    decreases |s| - from
  {
    if from + |pattern| > |s| then -1
    else if OccursAt(s, pattern, from) then from
    else IndexOfFrom(s, pattern, from + 1)
  }

  /** String.prototype.replace with a string pattern: only the first occurrence is replaced. */
  function ReplaceFirst(s: string, pattern: string, replacement: string): string {
    var i := IndexOfFrom(s, pattern, 0);
    if i == -1 then s else s[..i] + replacement + s[i + |pattern|..]
  }

  /** When s starts with the pattern, replacing it by nothing strips exactly that prefix. */
  lemma ReplaceLeadingOccurrence(s: string, pattern: string)
    requires StartsWith(s, pattern)
    ensures ReplaceFirst(s, pattern, "") == s[|pattern|..]
  {
    assert s[0..|pattern|] == pattern;
  }
}
