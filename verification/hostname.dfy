/** The hostname pattern `["'/]([a-zA-Z0-9]+(-[a-zA-Z0-9]+)*\.)+[a-zA-Z]+`
    and the top-level-domain pattern `\.([a-zA-Z]+(-[a-zA-Z]+)*)$`. */
module Hostname {
  import opened Results
  import opened Chars
  import opened Text

  /** One label: `[a-zA-Z0-9]+(-[a-zA-Z0-9]+)*`. */
  predicate IsLabel(s: string) {
    HyphenJoined(s, Alnum)
  }

  /** The final label: `[a-zA-Z]+`. */
  predicate IsFinalLabel(s: string) {
    |s| > 0 && AllIn(s, Letter)
  }

  /** `(label\.)+[a-zA-Z]+`. A label has no period, so the first label ends at
      the first period; what follows is the final label or another domain. */
  predicate IsDomain(s: string)
    decreases |s|
  {
    var i := IndexOf(s, '.');
    && i < |s|
    && IsLabel(s[..i])
    && (IsFinalLabel(s[i + 1..]) || IsDomain(s[i + 1..]))
  }

  /** A domain read as the pieces between its periods: at least one label,
      then the final label. */
  predicate DomainPieces(parts: seq<string>) {
    && |parts| >= 2
    && (forall j | 0 <= j < |parts| - 1 :: IsLabel(parts[j]))
    && IsFinalLabel(Last(parts))
  }

  /** Putting a label in front of pieces gives a domain's pieces exactly when
      the pieces are a lone final label or already a domain's pieces. */
  lemma PiecesCons(a: string, p: seq<string>)
    requires |p| > 0
    ensures DomainPieces([a] + p) <==>
      IsLabel(a) && ((|p| == 1 && IsFinalLabel(p[0])) || DomainPieces(p))
  {
    var q := [a] + p;
    assert Last(q) == Last(p);
    assert q[0] == a;
    if DomainPieces(q) && |p| > 1 {
      forall j | 0 <= j < |p| - 1 ensures IsLabel(p[j]) {
        assert p[j] == q[j + 1];
      }
    }
    if IsLabel(a) && DomainPieces(p) {
      forall j | 0 <= j < |q| - 1 ensures IsLabel(q[j]) {
        if j > 0 { assert q[j] == p[j - 1]; }
      }
    }
  }

  /** A string is a domain exactly when its pieces at `.` are labels followed
      by a final all-letter label. */
  lemma {:induction false} DomainIffPieces(s: string)
    ensures IsDomain(s) <==> DomainPieces(Split(s, '.'))
    decreases |s|
  {
    var i := IndexOf(s, '.');
    if i < |s| {
      var rest := s[i + 1..];
      SplitFirst(s, '.');
      DomainIffPieces(rest);
      SplitSingle(rest, '.');
      if IsFinalLabel(rest) {
        forall k | 0 <= k < |rest| ensures rest[k] != '.' {
          assert InClass(rest[k], Letter);
        }
      }
      PiecesCons(s[..i], Split(rest, '.'));
    } else {
      SplitSingle(s, '.');
    }
  }

  /** The whole hostname pattern: a delimiter, then a domain. */
  predicate IsHostname(s: string) {
    |s| > 0 && IsDelimiter(s[0]) && IsDomain(s[1..])
  }

  /** The all-letter label a hostname ends with. */
  function FinalLabel(h: string): string
    requires IsHostname(h)
  {
    Last(Split(h[1..], '.'))
  }

  /** What `\.([a-zA-Z]+(-[a-zA-Z]+)*)$` matches from some start: a period and
      letter runs joined by single hyphens, reaching the end of the string. */
  predicate IsTldSuffix(t: string) {
    |t| > 0 && t[0] == '.' && HyphenJoined(t[1..], Letter)
  }

  /** The leftmost start, at or after `from`, of a match of the top-level-domain
      pattern in `h` (the pattern is anchored at the end, so the start fixes the
      match). */
  function FindTld(h: string, from: nat): (r: Option<nat>)
    requires from <= |h|
    ensures r.Some? ==> from <= r.value < |h| && IsTldSuffix(h[r.value..])
    ensures r.Some? ==> forall i | from <= i < r.value :: !IsTldSuffix(h[i..])
    ensures r.None? ==> forall i | from <= i <= |h| :: !IsTldSuffix(h[i..])
    decreases |h| - from
  {
    if IsTldSuffix(h[from..]) then Some(from)
    else if from == |h| then None
    else FindTld(h, from + 1)
  }

  /** The characters a domain is made of. */
  predicate IsDomainChar(c: char) {
    IsAlnum(c) || c == '-' || c == '.'
  }

  /** `tld` is the last label of `h`: it ends `h`, and a period stands just
      before it. */
  predicate EndsWithLabel(h: string, tld: string) {
    |tld| < |h| && h[|h| - |tld| - 1] == '.' && h[|h| - |tld|..] == tld
  }

  /** Every label of a domain is non-empty and alphanumeric, without leading,
      trailing or doubled hyphen. */
  lemma DomainLabels(d: string)
    requires IsDomain(d)
    ensures var parts := Split(d, '.');
      forall j | 0 <= j < |parts| - 1 :: HyphenShape(parts[j], Alnum)
  {
    DomainIffPieces(d);
    var parts := Split(d, '.');
    forall j | 0 <= j < |parts| - 1 ensures HyphenShape(parts[j], Alnum) {
      HyphenJoinedIffShape(parts[j], Alnum);
    }
  }

  /** A domain ends with a period and its last piece, which is a non-empty
      run of letters. */
  lemma DomainLastLabel(d: string)
    requires IsDomain(d)
    ensures IsFinalLabel(Last(Split(d, '.')))
    ensures EndsWithLabel(d, Last(Split(d, '.')))
  {
    DomainIffPieces(d);
    SplitLastSuffix(d, '.');
  }

  /** A domain starts with a letter or digit. */
  lemma DomainStart(d: string)
    requires IsDomain(d)
    ensures |d| > 0 && IsAlnum(d[0])
  {
    var i := IndexOf(d, '.');
    var n := RunLength(d[..i], Alnum);
    assert InClass(d[..i][0], Alnum);
  }

  /** A domain is made of letters, digits, hyphens and periods, and ends with
      a letter. */
  lemma {:induction false} DomainChars(d: string)
    requires IsDomain(d)
    ensures forall k | 0 <= k < |d| :: IsDomainChar(d[k])
    ensures IsLetter(d[|d| - 1])
    decreases |d|
  {
    var i := IndexOf(d, '.');
    var first := d[..i];
    var rest := d[i + 1..];
    HyphenJoinedIffShape(first, Alnum);
    if !IsFinalLabel(rest) {
      DomainChars(rest);
    }
    forall k | 0 <= k < |d| ensures IsDomainChar(d[k]) {
      if k < i {
        assert d[k] == first[k];
      } else if k > i {
        assert d[k] == rest[k - i - 1];
      }
    }
    assert d[|d| - 1] == rest[|rest| - 1];
  }

  /** What every hostname match looks like: a leading delimiter, then a
      domain, ending with a period and the final label. */
  lemma HostnameShape(h: string)
    requires IsHostname(h)
    ensures IsDelimiter(h[0])
    ensures IsFinalLabel(FinalLabel(h))
    ensures EndsWithLabel(h, FinalLabel(h))
  {
    var d := h[1..];
    DomainLastLabel(d);
    assert h == [h[0]] + d;
    EndsWithLabelExtend(h[0], d, FinalLabel(h));
  }

  /** A last label stays last when text is put in front. */
  lemma EndsWithLabelExtend(c: char, d: string, l: string)
    requires EndsWithLabel(d, l)
    ensures EndsWithLabel([c] + d, l)
  {
    var h := [c] + d;
    assert h[|h| - |l| - 1] == d[|d| - |l| - 1];
    assert h[|h| - |l|..] == d[|d| - |l|..];
  }

  /** A string ends with at most one all-letter label. */
  lemma LastLabelUnique(h: string, a: string, b: string)
    requires AllIn(a, Letter) && EndsWithLabel(h, a)
    requires AllIn(b, Letter) && EndsWithLabel(h, b)
    ensures a == b
  {
    forall k | |h| - |a| <= k < |h| ensures h[k] != '.' {
      assert h[k] == a[k - (|h| - |a|)];
    }
    forall k | |h| - |b| <= k < |h| ensures h[k] != '.' {
      assert h[k] == b[k - (|h| - |b|)];
    }
  }

  /** The top-level-domain pattern cannot match from a position with a
      period further on: its letters and hyphens stop there. */
  lemma NoTldAcrossDot(h: string, i: nat, j: nat)
    requires i < j < |h| && h[j] == '.'
    ensures !IsTldSuffix(h[i..])
  {
    var t := h[i..];
    HyphenJoinedIffShape(t[1..], Letter);
    assert t[1..][j - i - 1] == '.';
  }

  /** In a hostname the top-level-domain pattern first matches at the period in
      front of the final label, so the text after that period is the final
      label: the match is never empty and dropping its period is safe. */
  lemma HostnameTld(h: string)
    requires IsHostname(h)
    ensures FindTld(h, 0) == Some(|h| - |FinalLabel(h)| - 1)
    ensures h[|h| - |FinalLabel(h)|..] == FinalLabel(h)
  {
    HostnameShape(h);
    var l := FinalLabel(h);
    var m := |h| - |l| - 1;
    assert h[m..][1..] == l;
    HyphenJoinedIffShape(l, Letter);
    assert IsTldSuffix(h[m..]);
    forall i | 0 <= i < m ensures !IsTldSuffix(h[i..]) {
      NoTldAcrossDot(h, i, m);
    }
    var r := FindTld(h, 0);
    assert r.Some?;
  }
}
