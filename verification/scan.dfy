/** The global, non-overlapping, leftmost scan of a text with one of the three
    patterns (Go's `FindAllString(text, -1)`), and the single leftmost search
    (`FindString`). */
module Scan {
  import opened Results

  /** A pattern, as the set of strings it matches in full. The three patterns
      are `IsIp`, `IsHostname` and `IsUrl`. */
  type Language = string -> bool

  /** The half-open position range `[start, end)` of one match in the text. */
  datatype Span = Span(start: nat, end: nat)

  /** No match of `lang` in `s` starts at any position of `[lo, hi)`. */
  ghost predicate NoMatchStartsIn(lang: Language, s: string, lo: nat, hi: nat) {
    forall i, k | lo <= i < hi && i < k <= |s| :: !lang(s[i..k])
  }

  /** No longer match of `lang` starts where `span` does. */
  ghost predicate Longest(lang: Language, s: string, span: Span) {
    forall k | span.start <= span.end < k <= |s| :: !lang(s[span.start..k])
  }

  /** `spans` is a leftmost scan of `s` with `lang` beginning at `from`: each span
      is a match that starts at the first position, at or after the end of the
      previous one, where any match starts; after the last one no match starts. */
  ghost predicate IsScanFrom(lang: Language, s: string, from: nat, spans: seq<Span>)
    decreases |spans|
  {
    if |spans| == 0 then NoMatchStartsIn(lang, s, from, |s|)
    else
      && from <= spans[0].start < spans[0].end <= |s|
      && lang(s[spans[0].start..spans[0].end])
      && NoMatchStartsIn(lang, s, from, spans[0].start)
      && IsScanFrom(lang, s, spans[0].end, spans[1..])
  }

  /** What the regular-expression engine guarantees of `FindAllString`. */
  ghost predicate IsScan(lang: Language, s: string, spans: seq<Span>) {
    IsScanFrom(lang, s, 0, spans)
  }

  predicate Within(s: string, spans: seq<Span>) {
    forall j | 0 <= j < |spans| :: spans[j].start <= spans[j].end <= |s|
  }

  /** The matched substrings, in scan order. */
  function Matched(s: string, spans: seq<Span>): (found: seq<string>)
    requires Within(s, spans)
    ensures |found| == |spans|
    ensures forall j | 0 <= j < |spans| :: found[j] == s[spans[j].start..spans[j].end]
  {
    seq(|spans|, j requires 0 <= j < |spans| => s[spans[j].start..spans[j].end])
  }

  /** A scan yields matches that lie inside the text, are non-empty, belong to
      the language, come in increasing position and do not overlap. */
  lemma {:induction false} ScanShape(lang: Language, s: string, from: nat, spans: seq<Span>)
    requires IsScanFrom(lang, s, from, spans)
    ensures Within(s, spans)
    ensures forall j | 0 <= j < |spans| ::
      from <= spans[j].start < spans[j].end && lang(s[spans[j].start..spans[j].end])
    ensures forall j | 0 <= j < |spans| - 1 :: spans[j].end <= spans[j + 1].start
    decreases |spans|
  {
    if |spans| > 0 {
      ScanShape(lang, s, spans[0].end, spans[1..]);
      assert forall j | 1 <= j < |spans| :: spans[j] == spans[1..][j - 1];
    }
  }

  /** The end of the longest match of `lang` that starts at `i` and ends at or
      before `k`, if there is one. */
  function LongestAt(lang: Language, s: string, i: nat, k: nat): (r: Option<nat>)
    requires i <= k <= |s|
    ensures r.Some? ==> i < r.value <= k && lang(s[i..r.value])
    ensures r.Some? ==> forall e | r.value < e <= k :: !lang(s[i..e])
    ensures r.None? ==> forall e | i < e <= k :: !lang(s[i..e])
    decreases k - i
  {
    if k == i then None
    else if lang(s[i..k]) then Some(k)
    else LongestAt(lang, s, i, k - 1)
  }

  /** The leftmost match of `lang` at or after `from`, taken as long as possible. */
  function FirstMatch(lang: Language, s: string, from: nat): (r: Option<Span>)
    requires from <= |s|
    ensures r.Some? ==> from <= r.value.start < r.value.end <= |s|
    ensures r.Some? ==> lang(s[r.value.start..r.value.end])
    ensures r.Some? ==> NoMatchStartsIn(lang, s, from, r.value.start) && Longest(lang, s, r.value)
    ensures r.None? ==> NoMatchStartsIn(lang, s, from, |s|)
    decreases |s| - from
  {
    if from == |s| then None
    else
      match LongestAt(lang, s, from, |s|)
      case Some(e) => Some(Span(from, e))
      case None => FirstMatch(lang, s, from + 1)
  }

  /** When some prefix of `s` matches, the leftmost match is a matching prefix
      at least that long. */
  lemma FirstMatchOfPrefix(lang: Language, s: string, k: nat)
    requires 0 < k <= |s| && lang(s[..k])
    ensures FirstMatch(lang, s, 0).Some?
    ensures var sp := FirstMatch(lang, s, 0).value;
      sp.start == 0 && k <= sp.end <= |s| && lang(s[..sp.end])
  {
    assert s[0..k] == s[..k];
    var sp := FirstMatch(lang, s, 0).value;
    assert sp.start == 0;
    assert s[sp.start..sp.end] == s[..sp.end];
  }

  /** ... and no longer prefix matches. */
  lemma FirstMatchIsLongestPrefix(lang: Language, s: string, k: nat)
    requires 0 < k <= |s| && lang(s[..k])
    ensures FirstMatch(lang, s, 0).Some?
    ensures var sp := FirstMatch(lang, s, 0).value;
      forall e | sp.end < e <= |s| :: !lang(s[..e])
  {
    FirstMatchOfPrefix(lang, s, k);
    var sp := FirstMatch(lang, s, 0).value;
    assert forall e | sp.end < e <= |s| :: s[sp.start..e] == s[..e];
  }

  /** The leftmost-longest global scan. */
  function FindAll(lang: Language, s: string, from: nat): (spans: seq<Span>)
    requires from <= |s|
    ensures IsScanFrom(lang, s, from, spans)
    ensures forall j | 0 <= j < |spans| :: Longest(lang, s, spans[j])
    decreases |s| - from
  {
    match FirstMatch(lang, s, from)
    case None => []
    case Some(sp) =>
      var rest := FindAll(lang, s, sp.end);
      assert ([sp] + rest)[1..] == rest;
      [sp] + rest
  }

  /** Every text has a scan, so requiring one constrains only the engine. */
  lemma ScanExists(lang: Language, s: string)
    ensures exists spans :: IsScan(lang, s, spans)
  {
    var spans := FindAll(lang, s, 0);
    assert IsScan(lang, s, spans);
  }

  /** A match that starts where no earlier one does and is the longest there
      is the one `FirstMatch` finds. */
  lemma FirstMatchIsLeftmostLongest(lang: Language, s: string, from: nat, sp: Span)
    requires from <= sp.start < sp.end <= |s|
    requires lang(s[sp.start..sp.end])
    requires NoMatchStartsIn(lang, s, from, sp.start)
    requires Longest(lang, s, sp)
    ensures FirstMatch(lang, s, from) == Some(sp)
  {
    var first := FirstMatch(lang, s, from);
    assert first.Some?;
    var fp := first.value;
    assert lang(s[fp.start..fp.end]);
    assert fp.start == sp.start;
    assert fp.end == sp.end;
  }

  /** A leftmost scan that takes the longest match at every start is unique:
      it is `FindAll`. */
  lemma {:induction false} LongestScanUnique(lang: Language, s: string, from: nat, spans: seq<Span>)
    requires from <= |s|
    requires IsScanFrom(lang, s, from, spans)
    requires forall j | 0 <= j < |spans| :: Longest(lang, s, spans[j])
    ensures spans == FindAll(lang, s, from)
    decreases |spans|
  {
    if |spans| > 0 {
      var sp := spans[0];
      FirstMatchIsLeftmostLongest(lang, s, from, sp);
      assert forall j | 0 <= j < |spans| - 1 :: spans[1..][j] == spans[j + 1];
      LongestScanUnique(lang, s, sp.end, spans[1..]);
    }
  }
}
