/** The extractor: its configuration, its accumulated results, and the three
    extraction operations. */
module Extraction {
  import opened Results
  import opened Chars
  import opened Text
  import opened Ip
  import opened Hostname
  import opened UrlGrammar
  import opened Scan

  /** One discovered URL: the matched text and its hostname with the leading
      delimiter removed, and the top-level domain as matched. */
  datatype Url = Url(url: string, hostname: string, tld: string)

  /** The accumulator. Each operation appends to its own sequence only. */
  datatype Extractor = Extractor(ips: seq<string>, urls: seq<Url>, validateTlds: bool)

  /** A value passed to the constructor's untyped options. */
  datatype Value = BoolValue(b: bool) | IntValue(i: int) | StringValue(s: string) | NilValue

  const BadOptionMessage: string := "First parameter must be of type boolean"

  /** Builds an extractor from the optional settings. Only position 0 is read:
      a boolean there sets `validateTlds` (default true), anything else aborts
      the construction, and later positions are ignored. */
  method NewExtractor(options: seq<Value>) returns (r: Result<Extractor>)
    ensures |options| == 0 ==> r == Ok(Extractor([], [], true))
    ensures |options| > 0 && options[0].BoolValue? ==> r == Ok(Extractor([], [], options[0].b))
    ensures |options| > 0 && !options[0].BoolValue? ==> r == Panic(BadOptionMessage)
  {
    var validateTlds := true;
    var index := 0;
    while index < |options|
      invariant 0 <= index <= |options|
      invariant index > 0 ==> options[0].BoolValue? && validateTlds == options[0].b
      invariant index == 0 ==> validateTlds
    {
      if index == 0 {
        match options[index]
        case BoolValue(b) =>
          validateTlds := b;
        case _ =>
          return Panic(BadOptionMessage);
      }
      index := index + 1;
    }
    return Ok(Extractor([], [], validateTlds));
  }

  /** The addresses in `text`, in scan order and with duplicates. */
  function FoundIps(text: string): (found: seq<string>)
    ensures forall k | 0 <= k < |found| :: IsIp(found[k])
  {
    var spans := FindAll(IsIp, text, 0);
    ScanShape(IsIp, text, 0, spans);
    Matched(text, spans)
  }

  /** Appends every address found in `text`. */
  function ExtractIps(e: Extractor, text: string): (r: Extractor)
    ensures r.urls == e.urls && r.validateTlds == e.validateTlds
    ensures e.ips <= r.ips
    ensures forall k | |e.ips| <= k < |r.ips| :: IsIp(r.ips[k])
  {
    e.(ips := e.ips + FoundIps(text))
  }

  /** What happens to one URL candidate. `Crash` is the run-time panic of
      slicing an empty top-level-domain match; it carries Go's run-time error
      text for `tldMatch[1:]` on an empty string. */
  datatype Step = Skip | Keep(url: Url) | Crash(message: string)

  const SliceOutOfRange: string := "runtime error: slice bounds out of range [1:0]"

  /** The leftmost hostname match in `raw`, or "" when there is none. */
  function HostnameMatch(raw: string): (h: string)
    ensures h == "" || IsHostname(h)
  {
    match FirstMatch(IsHostname, raw, 0)
    case None => ""
    case Some(sp) => raw[sp.start..sp.end]
  }

  /** The match of the top-level-domain pattern in `h`, period included, or ""
      when there is none. */
  function TldMatch(h: string): (t: string)
    ensures t == "" || (|t| >= 2 && t[0] == '.' && |t| <= |h| && t == h[|h| - |t|..])
  {
    match FindTld(h, 0)
    case None => ""
    case Some(i) => h[i..]
  }

  /** The body of the loop over URL candidates: find the hostname and its
      top-level domain, apply the optional top-level-domain gate, strip one
      leading delimiter, and build the record. */
  function ProcessCandidate(validateTlds: bool, validTlds: set<string>, raw: string): (step: Step)
    ensures step.Keep? ==> |step.url.tld| > 0
    ensures step.Keep? && validateTlds ==> step.url.tld in validTlds
    ensures step.Skip? ==> validateTlds
  {
    var rawHostname := HostnameMatch(raw);
    var tldMatch := TldMatch(rawHostname);
    if |tldMatch| == 0 then Crash(SliceOutOfRange)
    else
      var tld := tldMatch[1..];
      if tld !in validTlds && validateTlds then Skip
      else if IsDelimiter(raw[0]) then Keep(Url(raw[1..], rawHostname[1..], tld))
      else Keep(Url(raw, rawHostname, tld))
  }

  /** A stored record: the hostname is a bare domain that begins the URL, and
      the top-level domain is the hostname's final all-letter label. */
  predicate WellFormedUrl(u: Url) {
    && u.hostname <= u.url
    && IsDomain(u.hostname)
    && IsFinalLabel(u.tld)
    && EndsWithLabel(u.hostname, u.tld)
  }

  /** What a stored record guarantees its reader beyond its definition: neither
      text starts with a delimiter, and the top-level domain is exactly the
      last piece of the hostname between periods. */
  lemma WellFormedUrlFacts(u: Url)
    requires WellFormedUrl(u)
    ensures |u.hostname| > 0 && |u.url| > 0
    ensures !IsDelimiter(u.hostname[0]) && !IsDelimiter(u.url[0])
    ensures u.tld == Last(Split(u.hostname, '.'))
  {
    DomainStart(u.hostname);
    assert u.url[0] == u.hostname[0];
    DomainLastLabel(u.hostname);
    LastLabelUnique(u.hostname, u.tld, Last(Split(u.hostname, '.')));
  }

  /** In a URL match the hostname search succeeds at position 0, so the raw
      hostname is a hostname that begins the candidate. */
  lemma UrlHostnameIsPrefix(raw: string)
    requires IsUrl(raw)
    ensures |raw| > 0 && IsDelimiter(raw[0])
    ensures IsHostname(HostnameMatch(raw)) && HostnameMatch(raw) <= raw
    ensures HostnameMatch(raw)[1..] <= raw[1..]
  {
    UrlStartsWithHostname(raw);
    var k :| 1 <= k <= |raw| && IsHostname(raw[..k]);
    FirstMatchOfPrefix(IsHostname, raw, k);
  }

  /** In a URL match the hostname search finds the longest prefix of the
      candidate that is a hostname. */
  lemma HostnameMatchIsLongestPrefix(raw: string)
    requires IsUrl(raw)
    ensures IsHostname(HostnameMatch(raw)) && HostnameMatch(raw) <= raw
    ensures forall k | |HostnameMatch(raw)| < k <= |raw| :: !IsHostname(raw[..k])
  {
    UrlStartsWithHostname(raw);
    var k :| 1 <= k <= |raw| && IsHostname(raw[..k]);
    FirstMatchOfPrefix(IsHostname, raw, k);
    FirstMatchIsLongestPrefix(IsHostname, raw, k);
  }

  /** The record a URL candidate should become: exactly one leading delimiter
      removed from both texts, and the final label of the hostname as the
      top-level domain. */
  function Normalize(raw: string): (u: Url)
    requires IsUrl(raw)
    ensures |raw| > 0 && IsDelimiter(raw[0]) && raw == [raw[0]] + u.url
    ensures HostnameMatch(raw) == [raw[0]] + u.hostname
    ensures WellFormedUrl(u)
  {
    UrlHostnameIsPrefix(raw);
    var host := HostnameMatch(raw);
    DomainLastLabel(host[1..]);
    Url(raw[1..], host[1..], FinalLabel(host))
  }

  /** On a URL candidate the loop body never panics: it skips the candidate
      exactly when the gate is on and the top-level domain, in the case it was
      matched, is not in the table, and otherwise keeps the normalized record. */
  lemma CandidateOutcome(validateTlds: bool, validTlds: set<string>, raw: string)
    requires IsUrl(raw)
    ensures ProcessCandidate(validateTlds, validTlds, raw) ==
      if validateTlds && Normalize(raw).tld !in validTlds then Skip else Keep(Normalize(raw))
  {
    UrlStartsWithHostname(raw);
    UrlHostnameIsPrefix(raw);
    var host := HostnameMatch(raw);
    HostnameTld(host);
    var l := FinalLabel(host);
    assert TldMatch(host) == host[|host| - |l| - 1..];
    assert TldMatch(host)[1..] == l;
  }

  /** One pass of the loop body on a URL candidate. */
  function Advance(e: Extractor, validTlds: set<string>, raw: string): (r: Extractor)
    requires IsUrl(raw)
    ensures r == if e.validateTlds && Normalize(raw).tld !in validTlds then e
                 else e.(urls := e.urls + [Normalize(raw)])
  {
    CandidateOutcome(e.validateTlds, validTlds, raw);
    match ProcessCandidate(e.validateTlds, validTlds, raw)
    case Skip => e
    case Keep(u) => e.(urls := e.urls + [u])
  }

  lemma AppendAssociates<T>(a: seq<T>, b: seq<T>, c: seq<T>)
    ensures a + b + c == a + (b + c)
  {
  }

  /** Every candidate is a match of the URL pattern. */
  ghost predicate AllUrls(raws: seq<string>)
    decreases |raws|
  {
    |raws| == 0 || (IsUrl(raws[0]) && AllUrls(raws[1..]))
  }

  /** The records the loop should keep, in candidate order: the normalized
      record of every candidate the top-level-domain gate lets through. */
  function Kept(validateTlds: bool, validTlds: set<string>, raws: seq<string>): (us: seq<Url>)
    requires AllUrls(raws)
    ensures |us| <= |raws|
    ensures !validateTlds ==> |us| == |raws|
    decreases |raws|
  {
    if |raws| == 0 then []
    else
      var u := Normalize(raws[0]);
      var rest := Kept(validateTlds, validTlds, raws[1..]);
      if validateTlds && u.tld !in validTlds then rest else [u] + rest
  }

  /** Every record of `us` is well formed. */
  predicate AllWellFormed(us: seq<Url>)
    decreases |us|
  {
    |us| == 0 || (WellFormedUrl(us[0]) && AllWellFormed(us[1..]))
  }

  /** Every record of `us` has its top-level domain in the table. */
  predicate AllGated(us: seq<Url>, validTlds: set<string>) {
    forall k | 0 <= k < |us| :: us[k].tld in validTlds
  }

  /** `AllWellFormed` speaks of every position. */
  lemma {:induction false} AllWellFormedAt(us: seq<Url>, k: nat)
    requires AllWellFormed(us)
    requires k < |us|
    ensures WellFormedUrl(us[k])
    decreases k
  {
    if k > 0 {
      AllWellFormedAt(us[1..], k - 1);
    }
  }

  /** Every kept record is well formed. */
  lemma {:induction false} KeptWellFormed(validateTlds: bool, validTlds: set<string>, raws: seq<string>)
    requires AllUrls(raws)
    ensures AllWellFormed(Kept(validateTlds, validTlds, raws))
    decreases |raws|
  {
    if |raws| > 0 {
      var us := Kept(validateTlds, validTlds, raws);
      var u := Normalize(raws[0]);
      var rest := Kept(validateTlds, validTlds, raws[1..]);
      KeptWellFormed(validateTlds, validTlds, raws[1..]);
      if !(validateTlds && u.tld !in validTlds) {
        assert us == [u] + rest;
        assert us[0] == u && us[1..] == rest;
      }
    }
  }

  lemma GatedCons(u: Url, rest: seq<Url>, validTlds: set<string>)
    requires u.tld in validTlds && AllGated(rest, validTlds)
    ensures AllGated([u] + rest, validTlds)
  {
    assert forall k | 1 <= k < |rest| + 1 :: ([u] + rest)[k] == rest[k - 1];
  }

  /** With the gate on, every kept record has its top-level domain in the
      table. */
  lemma {:induction false} KeptGated(validTlds: set<string>, raws: seq<string>)
    requires AllUrls(raws)
    ensures AllGated(Kept(true, validTlds, raws), validTlds)
    decreases |raws|
  {
    if |raws| > 0 {
      var us := Kept(true, validTlds, raws);
      var u := Normalize(raws[0]);
      var rest := Kept(true, validTlds, raws[1..]);
      KeptGated(validTlds, raws[1..]);
      if u.tld in validTlds {
        GatedCons(u, rest, validTlds);
      }
    }
  }

  /** The loop over URL candidates, in match order: it appends exactly the
      records `Kept` describes and touches nothing else. */
  function AddCandidates(e: Extractor, validTlds: set<string>, raws: seq<string>): (r: Extractor)
    requires AllUrls(raws)
    ensures r.ips == e.ips && r.validateTlds == e.validateTlds
    ensures r.urls == e.urls + Kept(e.validateTlds, validTlds, raws)
    decreases |raws|
  {
    if |raws| == 0 then e
    else
      var u := Normalize(raws[0]);
      var rest := Kept(e.validateTlds, validTlds, raws[1..]);
      var next := Advance(e, validTlds, raws[0]);
      if e.validateTlds && u.tld !in validTlds then
        AddCandidates(next, validTlds, raws[1..])
      else
        AppendAssociates(e.urls, [u], rest);
        AddCandidates(next, validTlds, raws[1..])
  }

  /** The substrings of a URL scan are URL candidates. */
  lemma {:induction false} AllUrlsIntro(raws: seq<string>)
    requires forall j | 0 <= j < |raws| :: IsUrl(raws[j])
    ensures AllUrls(raws)
    decreases |raws|
  {
    if |raws| > 0 {
      assert forall j | 0 <= j < |raws| - 1 :: raws[1..][j] == raws[j + 1];
      AllUrlsIntro(raws[1..]);
    }
  }

  /** The substrings of a URL scan, in scan order: the URL candidates. */
  function UrlCandidates(text: string, spans: seq<Span>): (raws: seq<string>)
    requires IsScan(IsUrl, text, spans)
    ensures Within(text, spans) && raws == Matched(text, spans)
    ensures |raws| == |spans|
    ensures AllUrls(raws)
  {
    ScanShape(IsUrl, text, 0, spans);
    AllUrlsIntro(Matched(text, spans));
    Matched(text, spans)
  }

  /** Appends a record for every URL match in `text` (in scan order) whose
      top-level domain passes the optional gate. `spans` is the engine's scan
      of `text` with the URL pattern. */
  function ExtractHostnames(e: Extractor, validTlds: set<string>, text: string, spans: seq<Span>): (r: Extractor)
    requires IsScan(IsUrl, text, spans)
    ensures r.ips == e.ips && r.validateTlds == e.validateTlds
    ensures e.urls <= r.urls
    ensures Within(text, spans) && AllUrls(Matched(text, spans))
    ensures r.urls == e.urls + Kept(e.validateTlds, validTlds, Matched(text, spans))
    ensures |r.urls| <= |e.urls| + |spans|
    ensures !e.validateTlds ==> |r.urls| == |e.urls| + |spans|
  {
    ScanShape(IsUrl, text, 0, spans);
    AddCandidates(e, validTlds, UrlCandidates(text, spans))
  }

  /** Every record `ExtractHostnames` appends is well formed, and with the gate
      on its top-level domain is in the table. */
  lemma ExtractHostnamesRecords(e: Extractor, validTlds: set<string>, text: string, spans: seq<Span>)
    requires IsScan(IsUrl, text, spans)
    ensures var r := ExtractHostnames(e, validTlds, text, spans);
      AllWellFormed(r.urls[|e.urls|..])
    ensures var r := ExtractHostnames(e, validTlds, text, spans);
      e.validateTlds ==> AllGated(r.urls[|e.urls|..], validTlds)
  {
    var raws := UrlCandidates(text, spans);
    KeptWellFormed(e.validateTlds, validTlds, raws);
    if e.validateTlds {
      KeptGated(validTlds, raws);
    }
    var r := ExtractHostnames(e, validTlds, text, spans);
    assert r.urls[|e.urls|..] == Kept(e.validateTlds, validTlds, raws);
  }

  /** Both extractions, addresses first. */
  function ExtractHostnamesIps(e: Extractor, validTlds: set<string>, text: string, spans: seq<Span>): (r: Extractor)
    requires IsScan(IsUrl, text, spans)
    ensures r.ips == ExtractIps(e, text).ips
    ensures r.urls == ExtractHostnames(e, validTlds, text, spans).urls
    ensures r.validateTlds == e.validateTlds
  {
    ExtractHostnames(ExtractIps(e, text), validTlds, text, spans)
  }
}
