/** Properties relating the extraction operations to each other and to the
    engine's scans, and worked examples. */
module Properties {
  import opened Chars
  import opened Text
  import opened Ip
  import opened Hostname
  import opened UrlGrammar
  import opened Scan
  import opened Extraction

  /** A text that is exactly one address yields exactly that address. */
  lemma ExtractIpsWholeAddress(e: Extractor, s: string)
    requires IsIp(s)
    ensures ExtractIps(e, s).ips == e.ips + [s]
  {
    IpHasThreeDots(s);
    var sp := Span(0, |s|);
    assert s[sp.start..sp.end] == s;
    assert IsScanFrom(IsIp, s, |s|, []);
    assert IsScanFrom(IsIp, s, 0, [sp]);
    LongestScanUnique(IsIp, s, 0, [sp]);
  }

  /** Any scan that, like Go's engine on the address pattern, takes the
      leftmost match and the longest one there, yields the same addresses. */
  lemma ExtractIpsMatchesEngine(e: Extractor, text: string, spans: seq<Span>)
    requires IsScan(IsIp, text, spans)
    requires forall j | 0 <= j < |spans| :: Longest(IsIp, text, spans[j])
    ensures Within(text, spans)
    ensures ExtractIps(e, text).ips == e.ips + Matched(text, spans)
  {
    ScanShape(IsIp, text, 0, spans);
    LongestScanUnique(IsIp, text, 0, spans);
  }

  /** What an extraction appends does not depend on what was accumulated
      before: addresses depend only on the text. */
  lemma ExtractIpsAccumulates(e: Extractor, text: string)
    ensures ExtractIps(e, text).ips == e.ips + ExtractIps(Extractor([], [], true), text).ips
  {
    var found := FoundIps(text);
    assert ExtractIps(e, text).ips == e.ips + found;
    assert ExtractIps(Extractor([], [], true), text).ips == [] + found;
    assert [] + found == found;
  }

  /** What an extraction appends does not depend on what was accumulated
      before: records depend only on the text and the gate setting. */
  lemma ExtractHostnamesAccumulates(e: Extractor, validTlds: set<string>, text: string, spans: seq<Span>)
    requires IsScan(IsUrl, text, spans)
    ensures ExtractHostnames(e, validTlds, text, spans).urls ==
      e.urls + ExtractHostnames(Extractor([], [], e.validateTlds), validTlds, text, spans).urls
  {
    var kept := Kept(e.validateTlds, validTlds, UrlCandidates(text, spans));
    assert ExtractHostnames(e, validTlds, text, spans).urls == e.urls + kept;
    assert ExtractHostnames(Extractor([], [], e.validateTlds), validTlds, text, spans).urls == [] + kept;
    assert [] + kept == kept;
  }

  /** The two extractions touch different fields, so their order does not
      matter: hostnames then addresses is the combined call. */
  lemma ExtractionsCommute(e: Extractor, validTlds: set<string>, text: string, spans: seq<Span>)
    requires IsScan(IsUrl, text, spans)
    ensures ExtractIps(ExtractHostnames(e, validTlds, text, spans), text) ==
      ExtractHostnamesIps(e, validTlds, text, spans)
  {
    var h := ExtractHostnames(e, validTlds, text, spans);
    ExtractHostnamesAccumulates(e, validTlds, text, spans);
    ExtractHostnamesAccumulates(ExtractIps(e, text), validTlds, text, spans);
    ExtractIpsAccumulates(e, text);
    ExtractIpsAccumulates(h, text);
  }
}
