# urlextract in Dafny

A model of `urlextract`, a small Go package that pulls IPv4 addresses and URL-like
hostnames out of free text (typically the text of a web page). The package has
three regular expressions and an accumulator:

- the **address pattern**: four octets `25[0-5] | 2[0-4][0-9] | [01]?[0-9][0-9]?`
  joined by periods;
- the **hostname pattern**: a delimiter `"`, `'` or `/`, one or more labels
  (alphanumeric runs joined by single hyphens), each followed by a period, then
  a final all-letter label;
- the **URL pattern**: a hostname, optionally followed by a path that ends in a
  period and a lower-case extension, and an optional `?query`;
- the **`Extractor`**: `Ips`, `Urls` and the `ValidateTlds` switch. `ExtractIps`
  appends every address match. `ExtractHostnames` takes every URL match, looks
  up its hostname and top-level domain (TLD), drops it when the TLD gate is on
  and the TLD is not in the table, strips one leading delimiter, and appends a
  `Url` record.

The Dafny modules follow that structure:

| module | file | contents |
|---|---|---|
| `Results` | results.dfy | `Option`, and `Result` with a `Panic` case for Go's `panic` |
| `Chars` | chars.dfy | the character classes of the patterns; `k+(-k+)*` as `HyphenJoined` |
| `Text` | text.dfy | `IndexOf`, `Split` and `Join` at a separator, with round-trip lemmas |
| `Ip` | ip.dfy | the octet and address languages |
| `Hostname` | hostname.dfy | labels, domains, the hostname language, the TLD search |
| `UrlGrammar` | url_grammar.dfy | path groups, file suffix, query, the URL language |
| `Scan` | scan.dfy | a pattern as a language; the global non-overlapping leftmost scan (`FindAllString`) and the single search (`FindString`) |
| `Extraction` | extraction.dfy | `Url`, `Extractor`, `NewExtractor`, `ExtractIps`, the loop body and loop of `ExtractHostnames`, `ExtractHostnamesIps` |
| `Properties` | properties.dfy | laws relating the operations to each other and to the engine |

### How the regular-expression engine is modelled

Each pattern is an exact predicate on strings (a `Scan.Language`). Go's engine
is leftmost-first: at the leftmost position where a match starts, it takes the
match its alternation and greediness prefer.

For the address pattern, the preferred match is always the longest one. The
first three octets must each be followed by a period, so each has one possible
length. For the last octet, the alternatives are tried longest first: 3, 3,
then 3, 2, 2, 1.

For the hostname pattern it is also the longest one. One more label always ends
further right than the final letter run it replaces.

For the TLD pattern, which is anchored at `$`, the start fixes the match.

So these three are computed by `Scan.FindAll` and `Scan.FirstMatch`, which take
the leftmost match and the longest one there.

For the URL pattern the two disagree. On `/x.a/b.c?d.e1`, the engine's greedy
path run backtracks only to the last period followed by a lower-case letter and
stops after `.e`, while the longest match (path `/b`, extension `.c`, query
`?d.e1`) runs to the end. So the URL scan is a parameter `spans`
of `ExtractHostnames`, and all that is assumed of it is `Scan.IsScan`:
- the spans lie inside the text, in increasing order, without overlap;
- each span is a match;
- each span starts at the first position where any match starts;
- no match starts after the last span.

`Scan.ScanExists` shows that this requirement can always be met.

### The empty top-level-domain match

The code slices `tldMatch[1:]`, which panics at run time when the match is
empty (urlextract.go:80, 95). `Extraction.ProcessCandidate` keeps that path:
it yields `Crash("runtime error: slice bounds out of range [1:0]")`.
`Extraction.CandidateOutcome` proves the path is unreachable for every match of
the URL pattern.

## Model

| member | source | states |
|---|---|---|
| Chars.HyphenJoinedIffShape | urlextract.go:17 | `[a-zA-Z0-9]+(-[a-zA-Z0-9]+)*` (and the letters-only TLD form) accepts exactly the non-empty words of class characters and hyphens with no leading, trailing or doubled hyphen |
| Chars.JoinedIsShaped | urlextract.go:17 | every string the repetition `k+(-k+)*` accepts is a non-empty run of class characters and hyphens with no leading, trailing or doubled hyphen |
| Chars.ShapedIsJoined | urlextract.go:17 | every non-empty run of class characters and hyphens with no leading, trailing or doubled hyphen is accepted by `k+(-k+)*` |
| Ip.OctetIffValue | urlextract.go:7-11 | a string is an octet exactly when it has 1 to 3 decimal digits and its value is at most 255, leading zeros allowed |
| Ip.OctetExamples | urlextract.go:8-11 | "007", "099", "255" and "0" are octets; "256", "300", "" and "1000" are not |
| Ip.IpFromOctets | urlextract.go:11 | any four octets joined by periods form an address match |
| Ip.IpIsJoinedOctets | urlextract.go:11 | an address match is its four period-free pieces, each an octet, joined by periods |
| Ip.IpIffFourOctets | urlextract.go:9-11 | a string is an address match if and only if it is four octets joined by periods |
| Ip.IpHasThreeDots | urlextract.go:11 | an address match contains exactly three periods |
| Hostname.DomainIffPieces | urlextract.go:15-17 | the label-by-label domain grammar accepts exactly the strings whose pieces between periods are at least one label followed by a non-empty all-letter final label |
| Hostname.DomainLabels | urlextract.go:15-17 | every label of a domain is non-empty alphanumeric with no leading, trailing or doubled hyphen |
| Hostname.DomainLastLabel | urlextract.go:16-17 | a domain ends with a period and then its last piece, a non-empty run of letters, with no period after it |
| Hostname.DomainStart | urlextract.go:17 | a domain starts with a letter or a digit, never with a delimiter |
| Hostname.DomainChars | urlextract.go:17 | a domain consists of letters, digits, hyphens and periods and ends with a letter |
| Hostname.HostnameShape | urlextract.go:13-17 | a hostname match starts with `"`, `'` or `/` and ends with a period followed by its non-empty all-letter final label |
| Hostname.LastLabelUnique | urlextract.go:76 | a string ends with at most one all-letter label preceded by a period |
| Hostname.FindTld | urlextract.go:76-77 | the search returns the leftmost position from which the rest is a period and hyphen-joined letters, or none when no position qualifies |
| Hostname.NoTldAcrossDot | urlextract.go:76 | the anchored TLD pattern cannot match from a position that has a later period |
| Hostname.HostnameTld | urlextract.go:76-77 | in every hostname match the TLD search finds the period just before the final label, so the match is non-empty and `[1:]` yields the final label |
| UrlGrammar.PathGroupsCollapse | urlextract.go:26 | `(/[a-zA-Z0-9-_&=\.%?/]*)*` accepts exactly the empty string and the strings of path characters that start with `/` |
| UrlGrammar.HostnameIsUrl | urlextract.go:26 | every hostname match is also a URL match (the file part is optional) |
| UrlGrammar.UrlStartsWithHostname | urlextract.go:19-26 | every URL match starts with a delimiter and has a hostname match as a prefix |
| Scan.ScanShape | urlextract.go:72 | a scan's spans lie in the text, are non-empty matches of the pattern, and come in increasing, non-overlapping order |
| Scan.LongestAt | urlextract.go:63 | the end of the longest match from a given start, or none when no match starts there |
| Scan.FirstMatch | urlextract.go:75 | the leftmost match, longest at its start; none exactly when no match starts at or after the position |
| Scan.FirstMatchOfPrefix | urlextract.go:75 | when some prefix matches, the search succeeds at position 0 with a matching prefix at least as long |
| Scan.FirstMatchIsLongestPrefix | urlextract.go:75 | when some prefix matches, no prefix longer than the one found matches |
| Scan.FirstMatchIsLeftmostLongest | urlextract.go:75 | a match that starts where no earlier one does and is longest there is the one the search returns |
| Scan.FindAll | urlextract.go:63 | a leftmost scan of the text in which every span is the longest match at its start |
| Scan.ScanExists | urlextract.go:72 | every text has a leftmost scan for every pattern |
| Scan.LongestScanUnique | urlextract.go:63 | there is only one leftmost scan that takes the longest match at every start |
| Extraction.NewExtractor | urlextract.go:28-41 | no options gives empty results with the gate on; a boolean first option sets the gate; any other first option panics with "First parameter must be of type boolean"; later options are ignored |
| Extraction.FoundIps | urlextract.go:62-63 | every address found is an address match |
| Extraction.ExtractIps | urlextract.go:61-67 | the old addresses stay as a prefix and every appended entry is an address match; `Urls` and `ValidateTlds` are unchanged |
| Extraction.HostnameMatch | urlextract.go:75 | the result is empty or a hostname match |
| Extraction.TldMatch | urlextract.go:76-77 | the result is empty, or a period and at least one more character that form a suffix of the hostname |
| Extraction.ProcessCandidate | urlextract.go:74-96 | a kept record has a non-empty TLD, and one that is in the table when the gate is on; a skip happens only with the gate on |
| Extraction.WellFormedUrlFacts | urlextract.go:84-95 | a stored record starts with no delimiter in either text, and its TLD is the last period-separated piece of its hostname |
| Extraction.UrlHostnameIsPrefix | urlextract.go:75-89 | on a URL match the raw hostname is a hostname match that begins the candidate, so stripping one character from both keeps it a prefix |
| Extraction.HostnameMatchIsLongestPrefix | urlextract.go:75 | on a URL match the raw hostname is the longest prefix of the candidate that is a hostname match |
| Extraction.Normalize | urlextract.go:86-95 | the record drops exactly one leading delimiter from the candidate and from its raw hostname, and is well formed: the hostname is a domain that prefixes the URL and the TLD is its final label |
| Extraction.CandidateOutcome | urlextract.go:74-95 | on a URL match the loop body never panics: it skips exactly when the gate is on and the TLD is not in the table, and otherwise keeps the normalized record |
| Extraction.Advance | urlextract.go:79-96 | one candidate leaves the extractor unchanged when the gate rejects it and otherwise appends exactly its record |
| Extraction.Kept | urlextract.go:79-82 | at most one record per candidate, and exactly one each when the gate is off |
| Extraction.KeptWellFormed | urlextract.go:84-95 | every kept record is well formed |
| Extraction.KeptGated | urlextract.go:79-82 | with the gate on, every kept record's TLD is in the table |
| Extraction.AddCandidates | urlextract.go:74-97 | the loop appends exactly the kept records, in candidate order, and leaves `Ips` and `ValidateTlds` alone |
| Extraction.UrlCandidates | urlextract.go:72 | candidate j is exactly the text of span j of the URL scan, in scan order, and each candidate is a URL match |
| Extraction.ExtractHostnames | urlextract.go:69-97 | only `Urls` grows: the old records stay and are followed by exactly the normalized records of the URL matches the gate lets through, in match order; at most one record per match, exactly one each with the gate off; `Ips` and `ValidateTlds` are unchanged |
| Extraction.ExtractHostnamesRecords | urlextract.go:69-97 | every appended record is well formed, and with the gate on its TLD is in the table |
| Extraction.ExtractHostnamesIps | urlextract.go:56-59 | the combined call has the addresses `ExtractIps` alone would produce and the records `ExtractHostnames` alone would produce |
| Properties.ExtractIpsWholeAddress | urlextract.go:61-66 | a text that is a single address yields exactly that address |
| Properties.ExtractIpsMatchesEngine | urlextract.go:62-66 | any scan that takes the leftmost, longest address match each time yields the same appended addresses, in scan order and with duplicates |
| Properties.ExtractIpsAccumulates | urlextract.go:64-66 | the appended addresses do not depend on what was accumulated before |
| Properties.ExtractHostnamesAccumulates | urlextract.go:74-96 | the appended records depend only on the text, the scan and the gate setting |
| Properties.ExtractionsCommute | urlextract.go:56-59 | running `ExtractHostnames` and then `ExtractIps` gives the same extractor as `ExtractHostnamesIps` |

## Left out

- The regular-expression engine: its compilation and backtracking, and recompiling the patterns on every call (urlextract.go:62, 70-71, 76). The patterns are exact languages. The address, hostname and TLD searches are computed as leftmost-longest, which equals Go's leftmost-first for these three patterns (argued above; not proved).
- Extraction.ExtractHostnames: the URL scan is a parameter, required only to be a leftmost scan, because Go's leftmost-first choice is not the longest match for this pattern. The records follow the given spans exactly, but which span lengths the engine picks, and so the records for a concrete text, is not derived.
- The `ValidTlds` table (urlextract.go:80) is external data: it is a `set<string>` parameter. Membership is exact and case-sensitive, as in the Go map.
- Go's `panic` is a value: `Result.Panic` from `NewExtractor`, and `Step.Crash` from the loop body. Aborting the goroutine is not modelled.
- Pointer identity of the `[]*Url` entries (urlextract.go:52, 96): records are plain values.
- The methods mutate their receiver in place. Here each operation returns the new `Extractor`.
- Go strings are byte sequences. Here they are `seq<char>`. Every pattern class is ASCII, and the only byte-level operations are on the ASCII delimiter and period, so this changes nothing for the characters the patterns can match.
- The untyped `...interface{}` options are a `Value` datatype with boolean, integer, string and nil cases, which is enough to tell a boolean from anything else.
