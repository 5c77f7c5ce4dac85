/**
 * ECMAScript's `Number::toString` restricted to integers: an optional `-`
 * followed by the decimal digits of the magnitude, with no leading zero.
 * `Parse` is its canonical inverse.
 */
module Decimal {
  import opened Wrappers

  predicate IsDigit(c: char) {
    '0' <= c <= '9'
  }

  predicate AllDigits(s: string) {
    forall k :: 0 <= k < |s| ==> IsDigit(s[k])
  }

  function DigitChar(d: int): (c: char)
    requires 0 <= d < 10
    ensures IsDigit(c)
  {
    (48 + d) as char
  }

  /** The decimal digits of `n`, most significant first. */
  function NatToString(n: nat): (r: string)
    ensures |r| >= 1 && AllDigits(r)
    ensures |r| > 1 ==> r[0] != '0'
    decreases n
  {
    if n < 10 then [DigitChar(n)] else NatToString(n / 10) + [DigitChar(n % 10)]
  }

  /** `String(n)` for an integral JavaScript number `n`. */
  function FromInt(n: int): (r: string)
    ensures |r| >= 1 && (r[0] == '-' || IsDigit(r[0]))
    ensures r[0] == '-' <==> n < 0
    ensures IsCanonical(if n < 0 then r[1..] else r)
  {
    if n < 0 then "-" + NatToString(-n) else NatToString(n)
  }

  /** The number a string of decimal digits denotes. */
  function Value(s: string): nat
    requires AllDigits(s)
    decreases |s|
  {
    if s == [] then 0 else Value(s[..|s| - 1]) * 10 + (s[|s| - 1] as int - 48)
  }

  /** Digits without a superfluous leading zero. */
  predicate IsCanonical(s: string) {
    |s| >= 1 && AllDigits(s) && (|s| > 1 ==> s[0] != '0')
  }

  /** Reads an integer written the way `FromInt` writes it; anything else is `None`. */
  function Parse(s: string): Option<int>
  {
    if |s| >= 1 && s[0] == '-' then
      if IsCanonical(s[1..]) && s[1..] != "0" then Some(-(Value(s[1..]) as int)) else None
    else if IsCanonical(s) then Some(Value(s))
    else None
  }

  lemma {:induction false} ValueNatToString(n: nat)
    ensures Value(NatToString(n)) == n
    decreases n
  {
    if n >= 10 {
      var p := NatToString(n / 10);
      var s := NatToString(n);
      assert s[..|s| - 1] == p;
      ValueNatToString(n / 10);
    }
  }

  lemma {:induction false} CanonicalPositive(s: string)
    requires IsCanonical(s) && |s| > 1
    ensures Value(s) >= 1
    decreases |s|
  {
    var p := s[..|s| - 1];
    if |p| > 1 {
      assert p[0] == s[0];
      CanonicalPositive(p);
    } else {
      assert p == [s[0]];
      assert Value(p) == Value(p[..0]) * 10 + (s[0] as int - 48);
    }
  }

  lemma {:induction false} NatToStringValue(s: string)
    requires IsCanonical(s)
    ensures NatToString(Value(s)) == s
    decreases |s|
  {
    if |s| > 1 {
      var p := s[..|s| - 1];
      var d := s[|s| - 1] as int - 48;
      assert IsCanonical(p) by { assert p[0] == s[0]; }
      if |p| > 1 {
        CanonicalPositive(p);
      } else {
        assert p == [s[0]];
        assert Value(p) == Value(p[..0]) * 10 + (s[0] as int - 48);
      }
      NatToStringValue(p);
      assert Value(s) / 10 == Value(p) && Value(s) % 10 == d;
      assert s == p + [s[|s| - 1]];
    } else {
      assert s[..0] == [];
      assert s == [s[0]];
    }
  }

  /** `Parse` reads back what `FromInt` writes. */
  lemma ParseFromInt(n: int)
    ensures Parse(FromInt(n)) == Some(n)
  {
    if n < 0 {
      var m := NatToString(-n);
      assert FromInt(n)[1..] == m;
      ValueNatToString(-n);
      assert m != "0";
    } else {
      ValueNatToString(n);
    }
  }

  /** `Parse` accepts nothing but what `FromInt` writes. */
  lemma FromIntParse(s: string, n: int)
    requires Parse(s) == Some(n)
    ensures FromInt(n) == s
  {
    if |s| >= 1 && s[0] == '-' {
      NatToStringValue(s[1..]);
      assert s == "-" + s[1..];
      assert Value(s[1..]) != 0 by {
        if |s[1..]| > 1 {
          CanonicalPositive(s[1..]);
        } else {
          assert s[1..] == [s[1]];
          assert Value(s[1..]) == Value(s[1..][..0]) * 10 + (s[1] as int - 48);
        }
      }
    } else {
      NatToStringValue(s);
    }
  }

  lemma RoundTrip(s: string, n: int)
    ensures Parse(s) == Some(n) <==> FromInt(n) == s
  {
    if Parse(s) == Some(n) {
      FromIntParse(s, n);
    }
    if FromInt(n) == s {
      ParseFromInt(n);
    }
  }
}
