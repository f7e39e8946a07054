/**
  The few functions of Go's `strings` package that the annotation parser
  uses, over `string` (a sequence of characters).
 */
module GoStrings {

  /** `strings.HasPrefix`: `p` is an initial segment of `s`. */
  predicate HasPrefix(s: string, p: string)
  {
    |p| <= |s| && s[..|p|] == p
  }

  /** `strings.TrimPrefix`: drops `p` from the front of `s` when it is there. */
  function TrimPrefix(s: string, p: string): (r: string)
    ensures HasPrefix(s, p) ==> p + r == s
    ensures !HasPrefix(s, p) ==> r == s
  {
    if HasPrefix(s, p) then s[|p|..] else s
  }

  /** The length of the longest prefix of `s` made only of characters in `cut`. */
  function LeadingRun(s: string, cut: set<char>): (n: nat)
    ensures n <= |s|
    ensures forall i :: 0 <= i < n ==> s[i] in cut
    ensures n < |s| ==> s[n] !in cut
  {
    if |s| > 0 && s[0] in cut then 1 + LeadingRun(s[1..], cut) else 0
  }

  /** The length of the longest suffix of `s` made only of characters in `cut`. */
  function TrailingRun(s: string, cut: set<char>): (n: nat)
    ensures n <= |s|
    ensures forall i :: |s| - n <= i < |s| ==> s[i] in cut
    ensures n < |s| ==> s[|s| - 1 - n] !in cut
  {
    if |s| > 0 && s[|s| - 1] in cut then 1 + TrailingRun(s[..|s| - 1], cut) else 0
  }

  /**
    `strings.Trim(s, cutset)`: `strings.TrimLeft` followed by `strings.TrimRight`.
    What is left neither starts nor ends with a character of `cut`.
   */
  function Trim(s: string, cut: set<char>): (r: string)
    ensures |r| <= |s|
    ensures |r| > 0 ==> r[0] !in cut && r[|r| - 1] !in cut
  {
    var t := s[LeadingRun(s, cut)..];
    t[..|t| - TrailingRun(t, cut)]
  }

  /** Trimming removes characters of `cut` from the two ends of `s`, and nothing else. */
  lemma TrimIsSlice(s: string, cut: set<char>)
    ensures exists i, j ::
              && 0 <= i <= j <= |s|
              && Trim(s, cut) == s[i..j]
              && (forall k :: 0 <= k < i || j <= k < |s| ==> s[k] in cut)
  {
    var left := LeadingRun(s, cut);
    var t := s[left..];
    var right := TrailingRun(t, cut);
    assert t[..|t| - right] == s[left..|s| - right];
    assert forall k :: |s| - right <= k < |s| ==> s[k] == t[k - left];
  }

  /** Trimming keeps every character of `s` that is not in `cut`. */
  lemma TrimKeeps(s: string, cut: set<char>, c: char)
    requires c in s && c !in cut
    ensures c in Trim(s, cut)
  {
    var left := LeadingRun(s, cut);
    var t := s[left..];
    var right := TrailingRun(t, cut);
    var i :| 0 <= i < |s| && s[i] == c;
    assert left <= i < |s| - right;
    assert t[..|t| - right][i - left] == c;
  }

  /**
    The characters `strings.TrimSpace` removes: the ASCII white space
    characters and U+0085 and U+00A0.
   */
  const Whitespace: set<char> := {' ', '\t', '\n', '\U{000B}', '\U{000C}', '\r', '\U{0085}', '\U{00A0}'}

  /** A printable ASCII character other than the space is not white space. */
  lemma NotSpace(c: char)
    requires '!' <= c <= '~'
    ensures c !in Whitespace
  {
  }

  /** `strings.TrimSpace`. */
  function TrimSpace(s: string): (r: string)
    ensures |r| > 0 ==> r[0] !in Whitespace && r[|r| - 1] !in Whitespace
  {
    Trim(s, Whitespace)
  }

  /** The position of the first occurrence of `c` in `s`. */
  function IndexOf(s: string, c: char): (k: nat)
    requires c in s
    ensures k < |s| && s[k] == c
    ensures c !in s[..k]
  {
    if s[0] == c then 0 else 1 + IndexOf(s[1..], c)
  }

  /**
    `strings.SplitN(s, sep, 2)` for a one-character separator that occurs in
    `s`: the text before its first occurrence and the text after it.
   */
  function SplitFirst(s: string, sep: char): (r: (string, string))
    requires sep in s
    ensures s == r.0 + [sep] + r.1
    ensures sep !in r.0
    ensures s[..|r.0| + 1] == r.0 + [sep] && s[|r.0| + 1..] == r.1
  {
    var k := IndexOf(s, sep);
    assert s == s[..k] + [sep] + s[k + 1..];
    assert s[..k + 1] == s[..k] + [sep];
    (s[..k], s[k + 1..])
  }
}
