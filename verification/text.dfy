/**
 The string primitives the server and the client lean on: ECMAScript's
 `String.prototype.trim`, `startsWith` and `replace` with a string pattern.
 Strings are sequences of code points; no normalisation is involved.
 */
module Text {

  import opened Wrappers

  /** ECMAScript WhiteSpace and LineTerminator code points, the set `trim` strips:
      TAB, VT, FF, SP, NBSP, ZWNBSP, the Unicode Zs category, LF, CR, LS and PS. */
  predicate IsSpace(c: char) {
    || c == '\t' || c == '\n' || c == '\U{000B}' || c == '\U{000C}' || c == '\r'
    || c == ' ' || c == '\U{00A0}' || c == '\U{1680}'
    || ('\U{2000}' <= c <= '\U{200A}')
    || c == '\U{2028}' || c == '\U{2029}' || c == '\U{202F}' || c == '\U{205F}'
    || c == '\U{3000}' || c == '\U{FEFF}'
  }

  predicate AllSpace(s: string) {
    forall k :: 0 <= k < |s| ==> IsSpace(s[k])
  }

  lemma AllSpaceConcat(x: string, y: string)
    requires AllSpace(x) && AllSpace(y)
    ensures AllSpace(x + y)
  {
  }

  /** Number of leading white-space characters of `s`. */
  function LeadingSpace(s: string): (n: nat)
    ensures n <= |s|
    ensures AllSpace(s[..n])
    ensures n < |s| ==> !IsSpace(s[n])
  {
    if |s| == 0 || !IsSpace(s[0]) then 0
    else
      var m := LeadingSpace(s[1..]);
      assert s[1..][..m] == s[1..m + 1];
      1 + m
  }

  /** Number of trailing white-space characters of `s`. */
  function TrailingSpace(s: string): (n: nat)
    ensures n <= |s|
    ensures AllSpace(s[|s| - n..])
    ensures n < |s| ==> !IsSpace(s[|s| - n - 1])
  {
    if |s| == 0 || !IsSpace(s[|s| - 1]) then 0
    else
      var m := TrailingSpace(s[..|s| - 1]);
      assert s[..|s| - 1][|s| - 1 - m..] == s[|s| - 1 - m..|s| - 1];
      1 + m
  }

  /** `s.trim()`: `s` without its leading and trailing white space. */
  function Trim(s: string): (r: string)
    ensures LeadingSpace(s) + |r| <= |s|
    ensures r == s[LeadingSpace(s)..LeadingSpace(s) + |r|]
    ensures AllSpace(s[..LeadingSpace(s)]) && AllSpace(s[LeadingSpace(s) + |r|..])
    ensures Trimmed(r)
  {
    var a := LeadingSpace(s);
    var t := s[a..];
    var b := TrailingSpace(t);
    assert t[|t| - b..] == s[a + |t| - b..];
    t[..|t| - b]
  }

  /** A string trims to the empty string exactly when it is all white space. */
  lemma {:induction false} TrimEmptyIffAllSpace(s: string)
    ensures Trim(s) == "" <==> AllSpace(s)
  {
    var a, r := LeadingSpace(s), Trim(s);
    if |r| == 0 {
      assert s[a + |r|..] == s[a..];
      assert s == s[..a] + s[a..];
      AllSpaceConcat(s[..a], s[a..]);
    } else {
      assert r[0] == s[a] && !IsSpace(r[0]);
    }
  }

  /** Neither starts nor ends with white space. */
  predicate Trimmed(s: string) {
    |s| == 0 || (!IsSpace(s[0]) && !IsSpace(s[|s| - 1]))
  }

  /** A string without surrounding white space is its own trim. */
  lemma TrimmedIsFixed(s: string)
    requires Trimmed(s)
    ensures Trim(s) == s
  {
    if |s| > 0 {
      assert LeadingSpace(s) == 0;
      assert TrailingSpace(s) == 0;
    }
  }

  /** Trimming is idempotent. */
  lemma TrimIdempotent(s: string)
    ensures Trim(Trim(s)) == Trim(s)
  {
    TrimmedIsFixed(Trim(s));
  }

  /** `s.startsWith(p)`. */
  predicate StartsWith(s: string, p: string) {
    |p| <= |s| && s[..|p|] == p
  }

  predicate OccursAt(s: string, p: string, i: nat) {
    i + |p| <= |s| && s[i..i + |p|] == p
  }

  /** `s.indexOf(p)`: the first position where `p` occurs in `s`, if any. */
  function IndexOf(s: string, p: string, from: nat := 0): (r: Option<nat>)
    requires from <= |s|
    ensures r.Some? ==> from <= r.value && OccursAt(s, p, r.value)
    ensures forall i :: from <= i && (r.None? || i < r.value) ==> !OccursAt(s, p, i)
    decreases |s| - from
  {
    if OccursAt(s, p, from) then Some(from)
    else if from + |p| >= |s| then None
    else IndexOf(s, p, from + 1)
  }

  /** `s.replace(p, q)` with a string pattern: replaces the first occurrence only. */
  function ReplaceFirst(s: string, p: string, q: string): string {
    match IndexOf(s, p)
    case None => s
    case Some(i) => s[..i] + q + s[i + |p|..]
  }

  /** Removing a prefix `s` starts with, then putting it back, gives `s` again:
      the first occurrence of the prefix is the prefix itself. */
  lemma StripPrefixRoundTrip(s: string, p: string)
    requires StartsWith(s, p)
    ensures ReplaceFirst(s, p, "") == s[|p|..]
    ensures p + ReplaceFirst(s, p, "") == s
  {
    assert OccursAt(s, p, 0);
    assert s == p + s[|p|..];
  }
}
