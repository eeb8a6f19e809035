/** Character classes used by the three patterns, and the regular shape
    `k+(-k+)*` (runs of a class joined by single hyphens). */
module Chars {

  /** The bracket classes that occur in the patterns. */
  datatype CharClass =
    | Digit      // [0-9]
    | Letter     // [a-zA-Z]
    | Lower      // [a-z]
    | Alnum      // [a-zA-Z0-9]
    | PathChar   // [a-zA-Z0-9-_&=\.%?/]
    | QueryChar  // [a-zA-Z0-9-_&=\.%?]

  predicate IsDigit(c: char) { '0' <= c <= '9' }

  predicate IsLower(c: char) { 'a' <= c <= 'z' }

  predicate IsLetter(c: char) { 'a' <= c <= 'z' || 'A' <= c <= 'Z' }

  predicate IsAlnum(c: char) { IsLetter(c) || IsDigit(c) }

  /** The characters the hostname pattern accepts in front of a hostname: `["'/]`. */
  predicate IsDelimiter(c: char) { c == '"' || c == '\'' || c == '/' }

  predicate InClass(c: char, k: CharClass) {
    match k
    case Digit => IsDigit(c)
    case Letter => IsLetter(c)
    case Lower => IsLower(c)
    case Alnum => IsAlnum(c)
    case PathChar => IsAlnum(c) || c in "-_&=.%?/"
    case QueryChar => IsAlnum(c) || c in "-_&=.%?"
  }

  predicate AllIn(s: string, k: CharClass) {
    forall i | 0 <= i < |s| :: InClass(s[i], k)
  }

  /** Length of the longest prefix of `s` drawn from class `k`. */
  function RunLength(s: string, k: CharClass): (n: nat)
    ensures n <= |s|
    ensures AllIn(s[..n], k)
    ensures n < |s| ==> !InClass(s[n], k)
    decreases |s|
  {
    if |s| == 0 || !InClass(s[0], k) then 0
    else
      var m := RunLength(s[1..], k);
      assert s[1..][..m] == s[1..m + 1];
      1 + m
  }

  /** The regular language `k+(-k+)*`: a maximal run of `k`, then either the end
      or a hyphen and the same shape again. Because `-` is in none of the classes
      this is used with, the leading run is forced to be maximal. */
  predicate HyphenJoined(s: string, k: CharClass)
    decreases |s|
  {
    var n := RunLength(s, k);
    0 < n && (n == |s| || (s[n] == '-' && HyphenJoined(s[n + 1..], k)))
  }

  /** The explicit shape of a hyphen-joined word: non-empty, only class
      characters and hyphens, no leading, trailing or doubled hyphen. */
  predicate HyphenShape(s: string, k: CharClass) {
    && |s| > 0
    && InClass(s[0], k)
    && InClass(s[|s| - 1], k)
    && (forall i | 0 <= i < |s| :: InClass(s[i], k) || s[i] == '-')
    && (forall i | 0 <= i < |s| - 1 :: s[i] == '-' ==> s[i + 1] != '-')
  }

  /** Every word of `k+(-k+)*` is hyphen-shaped. */
  lemma {:induction false} JoinedIsShaped(s: string, k: CharClass)
    requires !InClass('-', k)
    requires HyphenJoined(s, k)
    ensures HyphenShape(s, k)
    decreases |s|
  {
    var n := RunLength(s, k);
    assert s[..n][0] == s[0];
    if n == |s| {
      assert s[..n] == s;
    } else {
      var rest := s[n + 1..];
      assert s[..n][n - 1] == s[n - 1];
      JoinedIsShaped(rest, k);
      forall i | 0 <= i < |s|
        ensures InClass(s[i], k) || s[i] == '-'
      {
        if i < n { assert s[..n][i] == s[i]; }
        else if i > n { assert rest[i - n - 1] == s[i]; }
      }
      forall i | 0 <= i < |s| - 1
        ensures s[i] == '-' ==> s[i + 1] != '-'
      {
        if i < n - 1 { assert s[..n][i] == s[i]; }
        else if i == n - 1 { assert s[..n][i] == s[i]; }
        else if i == n { assert s[i + 1] == rest[0]; }
        else { assert s[i] == rest[i - n - 1] && s[i + 1] == rest[i - n]; }
      }
      assert s[|s| - 1] == rest[|rest| - 1];
    }
  }

  /** Every hyphen-shaped word is in `k+(-k+)*`. */
  lemma {:induction false} ShapedIsJoined(s: string, k: CharClass)
    requires !InClass('-', k)
    requires HyphenShape(s, k)
    ensures HyphenJoined(s, k)
    decreases |s|
  {
    var n := RunLength(s, k);
    assert n > 0;
    if n < |s| {
      var rest := s[n + 1..];
      assert s[n] == '-';
      assert s[..n][n - 1] == s[n - 1];
      assert n + 1 < |s|;
      assert rest[0] == s[n + 1];
      forall i | 0 <= i < |rest|
        ensures InClass(rest[i], k) || rest[i] == '-'
      {
        assert rest[i] == s[n + 1 + i];
      }
      forall i | 0 <= i < |rest| - 1
        ensures rest[i] == '-' ==> rest[i + 1] != '-'
      {
        assert rest[i] == s[n + 1 + i] && rest[i + 1] == s[n + 2 + i];
      }
      assert rest[|rest| - 1] == s[|s| - 1];
      ShapedIsJoined(rest, k);
    }
  }

  /** `k+(-k+)*` accepts exactly the hyphen-shaped words. */
  lemma HyphenJoinedIffShape(s: string, k: CharClass)
    requires !InClass('-', k)
    ensures HyphenJoined(s, k) <==> HyphenShape(s, k)
  {
    if HyphenJoined(s, k) {
      JoinedIsShaped(s, k);
    }
    if HyphenShape(s, k) {
      ShapedIsJoined(s, k);
    }
  }
}
