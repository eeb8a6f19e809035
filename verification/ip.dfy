/** The IPv4 address pattern: `O(\.O){3}` with the octet pattern
    `O = 25[0-5]|2[0-4][0-9]|[01]?[0-9][0-9]?`. */
module Ip {
  import opened Chars
  import opened Text

  /** `[0-9][0-9]?` */
  predicate DigitThenOptionalDigit(s: string) {
    (|s| == 1 || |s| == 2) && AllIn(s, Digit)
  }

  /** The octet pattern, one disjunct per alternative of the regular expression. */
  predicate IsOctet(s: string) {
    || (|s| == 3 && s[0] == '2' && s[1] == '5' && '0' <= s[2] <= '5')
    || (|s| == 3 && s[0] == '2' && '0' <= s[1] <= '4' && IsDigit(s[2]))
    || (|s| > 0 && (s[0] == '0' || s[0] == '1') && DigitThenOptionalDigit(s[1..]))
    || DigitThenOptionalDigit(s)
  }

  function DigitValue(c: char): nat
    requires IsDigit(c)
  {
    c as int - '0' as int
  }

  /** The number a string of decimal digits denotes (leading zeros allowed). */
  function DecimalValue(s: string): nat
    requires AllIn(s, Digit)
  {
    if |s| == 0 then 0 else 10 * DecimalValue(s[..|s| - 1]) + DigitValue(s[|s| - 1])
  }

  /** The octet pattern accepts exactly the strings of one to three decimal
      digits whose value is at most 255, leading zeros included. */
  lemma OctetIffValue(s: string)
    ensures IsOctet(s) <==> (1 <= |s| <= 3 && AllIn(s, Digit) && DecimalValue(s) <= 255)
  {
    if 1 <= |s| <= 3 && AllIn(s, Digit) {
      var a := DigitValue(s[0]);
      if |s| >= 2 {
        assert s[..|s| - 1][..|s| - 2] == s[..|s| - 2];
      }
      if |s| == 1 {
        assert DecimalValue(s[..0]) == 0;
        assert DecimalValue(s) == a;
      } else if |s| == 2 {
        assert s[..1][..0] == [];
        assert DecimalValue(s[..1]) == a;
        assert DecimalValue(s) <= 99;
      } else {
        var b := DigitValue(s[1]);
        var c := DigitValue(s[2]);
        assert s[..1][..0] == [];
        assert DecimalValue(s[..1]) == a;
        assert DecimalValue(s[..2]) == 10 * a + b;
        assert DecimalValue(s) == 100 * a + 10 * b + c;
      }
    }
    if IsOctet(s) {
      assert 1 <= |s| <= 3;
      assert AllIn(s, Digit) by {
        if |s| > 0 && (s[0] == '0' || s[0] == '1') && DigitThenOptionalDigit(s[1..]) {
          forall i | 0 <= i < |s| ensures IsDigit(s[i]) {
            if i > 0 { assert s[1..][i - 1] == s[i]; }
          }
        }
      }
    }
  }

  /** The address pattern: the string splits at `.` into exactly four octets. */
  predicate IsIp(s: string) {
    var parts := Split(s, '.');
    |parts| == 4 && forall j | 0 <= j < 4 :: IsOctet(parts[j])
  }

  lemma OctetHasNoDot(s: string)
    requires IsOctet(s)
    ensures '.' !in s
  {
    OctetIffValue(s);
    assert forall i | 0 <= i < |s| :: IsDigit(s[i]);
  }

  /** Four octets joined by periods form an address. */
  lemma IpFromOctets(a: string, b: string, c: string, d: string)
    requires IsOctet(a) && IsOctet(b) && IsOctet(c) && IsOctet(d)
    ensures IsIp(Join([a, b, c, d], '.'))
  {
    OctetHasNoDot(a);
    OctetHasNoDot(b);
    OctetHasNoDot(c);
    OctetHasNoDot(d);
    SplitJoin([a, b, c, d], '.');
  }

  /** An address is its four pieces joined by periods. */
  lemma IpIsJoinedOctets(s: string)
    requires IsIp(s)
    ensures var p := Split(s, '.');
      && IsOctet(p[0]) && IsOctet(p[1]) && IsOctet(p[2]) && IsOctet(p[3])
      && s == Join([p[0], p[1], p[2], p[3]], '.')
  {
    var p := Split(s, '.');
    assert p == [p[0], p[1], p[2], p[3]];
  }

  /** A string is an address exactly when it is four octets joined by periods. */
  lemma IpIffFourOctets(s: string)
    ensures IsIp(s) <==>
      exists a, b, c, d | IsOctet(a) && IsOctet(b) && IsOctet(c) && IsOctet(d)
        :: s == Join([a, b, c, d], '.')
  {
    if IsIp(s) {
      IpIsJoinedOctets(s);
    }
    if exists a, b, c, d | IsOctet(a) && IsOctet(b) && IsOctet(c) && IsOctet(d)
        :: s == Join([a, b, c, d], '.') {
      var a, b, c, d :| IsOctet(a) && IsOctet(b) && IsOctet(c) && IsOctet(d)
        && s == Join([a, b, c, d], '.');
      IpFromOctets(a, b, c, d);
    }
  }

  /** An address contains exactly three periods. */
  lemma {:induction false} IpHasThreeDots(s: string)
    requires IsIp(s)
    ensures Count(s, '.') == 3
  {
    var p := Split(s, '.');
    SplitPiecesOmitSeparator(s, '.');
    JoinCount(p, '.');
  }

  /** Octets with leading zeros are accepted; values past 255 are not. */
  lemma OctetExamples()
    ensures IsOctet("007") && IsOctet("099") && IsOctet("255") && IsOctet("0")
    ensures !IsOctet("256") && !IsOctet("300") && !IsOctet("") && !IsOctet("1000")
  {
  }
}
