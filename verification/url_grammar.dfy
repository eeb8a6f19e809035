/** The URL pattern: a hostname, optionally followed by
    `(/[a-zA-Z0-9-_&=\.%?/]*)*(\.[a-z]+)(\?[a-zA-Z0-9-_&=\.%?]*){0,1}`. */
module UrlGrammar {
  import opened Chars
  import opened Hostname

  /** `(/[a-zA-Z0-9-_&=\.%?/]*)*`: zero or more groups, each a slash and a run
      of path characters. */
  predicate PathGroups(p: string)
    decreases |p|
  {
    |p| == 0 ||
    (p[0] == '/' && exists j | 1 <= j <= |p| :: AllIn(p[1..j], PathChar) && PathGroups(p[j..]))
  }

  /** The slash is itself a path character, so the repeated groups collapse
      into one: empty, or a slash followed by path characters. */
  lemma {:induction false} PathGroupsCollapse(p: string)
    ensures PathGroups(p) <==> (|p| == 0 || (p[0] == '/' && AllIn(p, PathChar)))
    decreases |p|
  {
    if |p| > 0 && p[0] == '/' {
      if AllIn(p, PathChar) {
        assert AllIn(p[1..|p|], PathChar) by {
          forall i | 0 <= i < |p| - 1 ensures InClass(p[1..|p|][i], PathChar) {
            assert p[1..|p|][i] == p[i + 1];
          }
        }
        assert p[|p|..] == [];
        assert PathGroups(p[|p|..]);
      }
      if PathGroups(p) {
        var j :| 1 <= j <= |p| && AllIn(p[1..j], PathChar) && PathGroups(p[j..]);
        PathGroupsCollapse(p[j..]);
        forall i | 0 <= i < |p| ensures InClass(p[i], PathChar) {
          if 0 < i < j { assert p[i] == p[1..j][i - 1]; }
          else if i >= j { assert p[i] == p[j..][i - j]; }
        }
      }
    }
  }

  /** `(\?[a-zA-Z0-9-_&=\.%?]*){0,1}` */
  predicate IsQuery(q: string) {
    |q| == 0 || (q[0] == '?' && AllIn(q[1..], QueryChar))
  }

  /** The optional file part: path groups, a period and a lower-case extension,
      then an optional query. */
  predicate IsFileSuffix(x: string) {
    exists i, j | 0 <= i && i + 1 < j <= |x| ::
      PathGroups(x[..i]) && x[i] == '.' && AllIn(x[i + 1..j], Lower) && IsQuery(x[j..])
  }

  /** The whole URL pattern: a hostname and, optionally, a file part. */
  predicate IsUrl(s: string) {
    exists k | 1 <= k <= |s| :: IsHostname(s[..k]) && (k == |s| || IsFileSuffix(s[k..]))
  }

  /** A bare hostname is already a URL match. */
  lemma HostnameIsUrl(s: string)
    requires IsHostname(s)
    ensures IsUrl(s)
  {
    assert s[..|s|] == s;
  }

  /** A URL match begins with a hostname match, so its first character is one
      of the three delimiters. */
  lemma UrlStartsWithHostname(s: string)
    requires IsUrl(s)
    ensures |s| > 0 && IsDelimiter(s[0])
    ensures exists k | 1 <= k <= |s| :: IsHostname(s[..k])
  {
    var k :| 1 <= k <= |s| && IsHostname(s[..k]) && (k == |s| || IsFileSuffix(s[k..]));
    assert s[..k][0] == s[0];
  }
}
