/** Splitting a string at a separator character and joining it back. The IP
    and hostname grammars are sequences of dot-free pieces joined by `.`, so
    both are stated through `Split` and `Join`. */
module Text {

  /** Index of the first occurrence of `c` in `s`, or `|s|` when there is none. */
  function IndexOf(s: string, c: char): (i: nat)
    ensures i <= |s|
    ensures c !in s[..i]
    ensures i < |s| ==> s[i] == c
    decreases |s|
  {
    if |s| == 0 then 0
    else if s[0] == c then 0
    else
      var j := IndexOf(s[1..], c);
      assert s[..j + 1] == [s[0]] + s[1..][..j];
      1 + j
  }

  /** The pieces `sep` joins: `Join(pieces, sep)` again. */
  function Join(pieces: seq<string>, sep: char): string
    requires |pieces| > 0
    decreases |pieces|
  {
    if |pieces| == 1 then pieces[0] else pieces[0] + [sep] + Join(pieces[1..], sep)
  }

  /** The maximal `sep`-free pieces of `s`, in order; there is always at least one. */
  function Split(s: string, sep: char): (pieces: seq<string>)
    ensures |pieces| > 0
    ensures Join(pieces, sep) == s
    decreases |s|
  {
    var i := IndexOf(s, sep);
    if i == |s| then
      assert s[..i] == s;
      [s]
    else
      var rest := Split(s[i + 1..], sep);
      assert s == s[..i] + [sep] + s[i + 1..];
      [s[..i]] + rest
  }

  function Last(pieces: seq<string>): string
    requires |pieces| > 0
  {
    pieces[|pieces| - 1]
  }

  /** The number of `sep` characters in `s`. */
  function Count(s: string, c: char): nat
    decreases |s|
  {
    if |s| == 0 then 0 else (if s[0] == c then 1 else 0) + Count(s[1..], c)
  }

  lemma {:induction false} CountAppend(a: string, b: string, c: char)
    ensures Count(a + b, c) == Count(a, c) + Count(b, c)
    decreases |a|
  {
    if |a| == 0 {
      assert a + b == b;
    } else {
      assert (a + b)[1..] == a[1..] + b;
      CountAppend(a[1..], b, c);
    }
  }

  lemma {:induction false} CountAbsent(s: string, c: char)
    requires c !in s
    ensures Count(s, c) == 0
    decreases |s|
  {
    if |s| > 0 {
      assert c !in s[1..];
      CountAbsent(s[1..], c);
    }
  }

  /** A string without the separator is a single piece, and only such a string. */
  lemma SplitSingle(s: string, sep: char)
    ensures |Split(s, sep)| == 1 <==> sep !in s
    ensures sep !in s ==> Split(s, sep) == [s]
  {
    var i := IndexOf(s, sep);
    if i < |s| {
      assert s[i] in s;
    }
  }

  /** The first piece ends at the first separator, and the remaining pieces
      are the split of what follows it. */
  lemma SplitFirst(s: string, sep: char)
    requires IndexOf(s, sep) < |s|
    ensures Split(s, sep) == [s[..IndexOf(s, sep)]] + Split(s[IndexOf(s, sep) + 1..], sep)
  {
  }

  /** No piece of a split contains the separator. */
  lemma {:induction false} SplitPiecesOmitSeparator(s: string, sep: char)
    ensures forall j | 0 <= j < |Split(s, sep)| :: sep !in Split(s, sep)[j]
    decreases |s|
  {
    var i := IndexOf(s, sep);
    if i < |s| {
      SplitPiecesOmitSeparator(s[i + 1..], sep);
      assert Split(s, sep) == [s[..i]] + Split(s[i + 1..], sep);
    }
  }

  /** Splitting a join of separator-free pieces gives the pieces back. */
  lemma {:induction false} SplitJoin(pieces: seq<string>, sep: char)
    requires |pieces| > 0
    requires forall j | 0 <= j < |pieces| :: sep !in pieces[j]
    ensures Split(Join(pieces, sep), sep) == pieces
    decreases |pieces|
  {
    var s := Join(pieces, sep);
    var p := pieces[0];
    if |pieces| == 1 {
      assert IndexOf(s, sep) == |s| by { assert s[..|s|] == s; }
    } else {
      var rest := Join(pieces[1..], sep);
      assert s == p + [sep] + rest;
      var i := IndexOf(s, sep);
      assert s[..|p|] == p;
      assert s[|p|] == sep;
      assert i == |p| by {
        assert s[..|p|] == p;
      }
      assert s[i + 1..] == rest;
      SplitJoin(pieces[1..], sep);
    }
  }

  /** A join of `n` separator-free pieces contains exactly `n - 1` separators. */
  lemma {:induction false} JoinCount(pieces: seq<string>, sep: char)
    requires |pieces| > 0
    requires forall j | 0 <= j < |pieces| :: sep !in pieces[j]
    ensures Count(Join(pieces, sep), sep) == |pieces| - 1
    decreases |pieces|
  {
    CountAbsent(pieces[0], sep);
    if |pieces| > 1 {
      var rest := Join(pieces[1..], sep);
      CountAppend(pieces[0] + [sep], rest, sep);
      CountAppend(pieces[0], [sep], sep);
      assert Count([sep], sep) == 1 by { assert [sep][1..] == []; }
      JoinCount(pieces[1..], sep);
    }
  }

  /** A join of two or more pieces ends with the separator and the last piece. */
  lemma {:induction false} JoinLast(pieces: seq<string>, sep: char)
    requires |pieces| >= 2
    ensures Join(pieces, sep) == Join(pieces[..|pieces| - 1], sep) + [sep] + Last(pieces)
    decreases |pieces|
  {
    var init := pieces[..|pieces| - 1];
    if |pieces| > 2 {
      JoinLast(pieces[1..], sep);
      assert pieces[1..][..|pieces| - 2] == init[1..];
      assert Last(pieces[1..]) == Last(pieces);
      assert init[0] == pieces[0];
    } else {
      assert init == [pieces[0]];
      assert pieces[1..] == [Last(pieces)];
    }
  }

  /** When `s` has a separator, it ends with the separator followed by its
      last piece. */
  lemma SplitLastSuffix(s: string, sep: char)
    requires |Split(s, sep)| >= 2
    ensures |Last(Split(s, sep))| < |s|
    ensures s[|s| - |Last(Split(s, sep))| - 1] == sep
    ensures s[|s| - |Last(Split(s, sep))|..] == Last(Split(s, sep))
  {
    var parts := Split(s, sep);
    var l := Last(parts);
    JoinLast(parts, sep);
    var front := Join(parts[..|parts| - 1], sep);
    assert s == front + [sep] + l;
    assert s[|s| - |l|..] == l;
  }
}
