/** The answer typed by the player is normalised before any check:
    lower-cased, then stripped of leading and trailing whitespace and newlines.
    Lower-casing is modelled for the ASCII letters only; the whitespace set is
    the one of `CharacterSet.whitespacesAndNewlines` (Unicode categories Zs, Zl
    and Zp, the controls U+0009 to U+000D, and U+0085). */
module Normalization {

  predicate IsUpper(c: char) {
    'A' <= c <= 'Z'
  }

  /** The characters of `CharacterSet.whitespacesAndNewlines`. */
  const Whitespace: set<char> := {
    '\t', '\n', '\U{B}', '\U{C}', '\r', ' ', '\U{85}', '\U{A0}', '\U{1680}',
    '\U{2000}', '\U{2001}', '\U{2002}', '\U{2003}', '\U{2004}', '\U{2005}',
    '\U{2006}', '\U{2007}', '\U{2008}', '\U{2009}', '\U{200A}',
    '\U{2028}', '\U{2029}', '\U{202F}', '\U{205F}', '\U{3000}'
  }

  predicate IsWhitespace(c: char) {
    c in Whitespace
  }

  function LowerChar(c: char): (d: char)
    ensures !IsUpper(d)
    ensures IsUpper(c) ==> d as int == c as int + 32
    ensures !IsUpper(c) ==> d == c
  {
    if IsUpper(c) then (c as int + 32) as char else c
  }

  /** `String.lowercased()` on ASCII letters: same length, every upper-case
      letter replaced by its lower-case form, nothing else touched. */
  function Lowercased(s: string): (r: string)
    ensures |r| == |s|
    ensures forall i :: 0 <= i < |s| ==> r[i] == LowerChar(s[i])
    ensures forall c :: c in r ==> !IsUpper(c)
  {
    var r := seq(|s|, i requires 0 <= i < |s| => LowerChar(s[i]));
    assert forall c :: c in r ==> exists i :: 0 <= i < |r| && r[i] == c;
    r
  }

  /** The position of the first character at or after `k` that is not
      whitespace, or `|s|` when there is none. */
  function TrimStartIndex(s: string, k: nat): (i: nat)
    requires k <= |s|
    ensures k <= i <= |s|
    ensures forall n :: k <= n < i ==> IsWhitespace(s[n])
    ensures i < |s| ==> !IsWhitespace(s[i])
    decreases |s| - k
  {
    if k == |s| || !IsWhitespace(s[k]) then k else TrimStartIndex(s, k + 1)
  }

  /** The position just after the last character before `k`, and not
      before `lo`, that is not whitespace, or `lo` when there is none. */
  function TrimEndIndex(s: string, lo: nat, k: nat): (j: nat)
    requires lo <= k <= |s|
    ensures lo <= j <= k
    ensures forall n :: j <= n < k ==> IsWhitespace(s[n])
    ensures lo < j ==> !IsWhitespace(s[j - 1])
  {
    if k == lo || !IsWhitespace(s[k - 1]) then k else TrimEndIndex(s, lo, k - 1)
  }

  /** `trimmingCharacters(in: .whitespacesAndNewlines)`: the part of `s`
      between its leading and its trailing whitespace. */
  function Trimmed(s: string): (r: string)
    ensures |r| <= |s|
    ensures forall c :: c in r ==> c in s
    ensures r != [] ==> !IsWhitespace(r[0]) && !IsWhitespace(r[|r| - 1])
  {
    var i := TrimStartIndex(s, 0);
    var j := TrimEndIndex(s, i, |s|);
    assert forall c :: c in s[i..j] ==> c in s;
    s[i..j]
  }

  /** A normalised string: no ASCII upper-case letter, and no whitespace at
      either end. */
  predicate IsNormalized(s: string) {
    && (forall c :: c in s ==> !IsUpper(c))
    && (s != [] ==> !IsWhitespace(s[0]) && !IsWhitespace(s[|s| - 1]))
  }

  /** The normalisation applied to the player's answer: lower-case, then trim. */
  function Normalize(s: string): (r: string)
    ensures IsNormalized(r)
    ensures |r| <= |s|
  {
    Trimmed(Lowercased(s))
  }

  /** Trimming keeps one contiguous piece of the input, removes only
      whitespace around it, and leaves no whitespace at either end. */
  lemma TrimmedIsCore(s: string) returns (i: nat, j: nat)
    ensures i <= j <= |s| && Trimmed(s) == s[i..j]
    ensures forall k :: 0 <= k < i ==> IsWhitespace(s[k])
    ensures forall k :: j <= k < |s| ==> IsWhitespace(s[k])
    ensures i < j ==> !IsWhitespace(s[i]) && !IsWhitespace(s[j - 1])
  {
    i := TrimStartIndex(s, 0);
    j := TrimEndIndex(s, i, |s|);
  }

  /** Normalised strings are exactly the fixed points of normalisation. */
  lemma NormalizeFixesNormalized(s: string)
    ensures Normalize(s) == s <==> IsNormalized(s)
  {
    if IsNormalized(s) {
      assert Lowercased(s) == s;
      assert TrimStartIndex(s, 0) == 0;
      assert TrimEndIndex(s, 0, |s|) == |s|;
      assert s[0..|s|] == s;
    }
  }

  /** Normalising twice is normalising once. */
  lemma NormalizeIdempotent(s: string)
    ensures Normalize(Normalize(s)) == Normalize(s)
  {
    NormalizeFixesNormalized(Normalize(s));
  }
}
