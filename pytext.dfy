/**
 * The three Python string operations the request handlers apply to form
 * fields, over ASCII text: `str.strip()`, `str.isdigit()` and `int(s)` on a
 * digit string, plus `str(n)`, which is how a stored age is written back into
 * the pre-filled update form.
 */
module PyText {

  /** `str.isspace()` on one ASCII character: tab, newline, vertical tab,
      form feed, carriage return, the separators 0x1C-0x1F, and space. */
  predicate IsSpace(c: char) {
    9 <= c as int <= 13 || 28 <= c as int <= 31 || c == ' '
  }

  /** A string that `str.strip()` leaves as it is. */
  predicate IsStripped(s: string) {
    s == [] || (!IsSpace(s[0]) && !IsSpace(s[|s| - 1]))
  }

  /** `str.lstrip()`: drops the leading whitespace. */
  function StripLeft(s: string): (r: string)
    ensures |r| <= |s|
    ensures r == [] || !IsSpace(r[0])
  {
    if s != [] && IsSpace(s[0]) then StripLeft(s[1..]) else s
  }

  /** `str.rstrip()`: drops the trailing whitespace; what is left is a prefix
      of the input. */
  function StripRight(s: string): (r: string)
    ensures |r| <= |s| && r == s[..|r|]
    ensures r == [] || !IsSpace(r[|r| - 1])
  {
    if s != [] && IsSpace(s[|s| - 1]) then StripRight(s[..|s| - 1]) else s
  }

  /** `str.strip()`: neither end of the result is whitespace. */
  function Strip(s: string): (r: string)
    ensures IsStripped(r)
  {
    var left := StripLeft(s);
    var r := StripRight(left);
    assert r == [] || r[0] == left[0];
    r
  }

  /** `lstrip` removes a prefix made only of whitespace. */
  lemma {:induction false} StripLeftCutsSpace(s: string)
    ensures var r := StripLeft(s);
      && r == s[|s| - |r|..]
      && forall i :: 0 <= i < |s| - |r| ==> IsSpace(s[i])
  {
    if s != [] && IsSpace(s[0]) {
      StripLeftCutsSpace(s[1..]);
      var r := StripLeft(s);
      forall i | 1 <= i < |s| - |r|
        ensures IsSpace(s[i])
      {
        assert s[i] == s[1..][i - 1];
      }
    }
  }

  /** `rstrip` removes a suffix made only of whitespace. */
  lemma {:induction false} StripRightCutsSpace(s: string)
    ensures var r := StripRight(s);
      forall i :: |r| <= i < |s| ==> IsSpace(s[i])
  {
    if s != [] && IsSpace(s[|s| - 1]) {
      StripRightCutsSpace(s[..|s| - 1]);
    }
  }

  /** `strip` returns the slice `s[a..a + |r|]` of its input, where `a` is the
      length of the leading whitespace, and everything it cut off on either
      side is whitespace. */
  lemma StripCutsSpace(s: string)
    ensures var r, a := Strip(s), |s| - |StripLeft(s)|;
      && a + |r| <= |s|
      && r == s[a..a + |r|]
      && (forall i :: 0 <= i < a ==> IsSpace(s[i]))
      && (forall i :: a + |r| <= i < |s| ==> IsSpace(s[i]))
  {
    var left := StripLeft(s);
    var r := StripRight(left);
    var a := |s| - |left|;
    assert r == Strip(s);
    assert left == s[a..] && (forall i :: 0 <= i < a ==> IsSpace(s[i])) by {
      StripLeftCutsSpace(s);
    }
    assert r == s[a..a + |r|] by {
      assert r == left[..|r|];
    }
    assert forall i :: |r| <= i < |left| ==> IsSpace(left[i]) by {
      StripRightCutsSpace(left);
    }
    forall i | a + |r| <= i < |s|
      ensures IsSpace(s[i])
    {
      assert s[i] == left[i - a];
    }
  }

  /** Stripping an already stripped string changes nothing. */
  lemma StripFixesStripped(s: string)
    requires IsStripped(s)
    ensures Strip(s) == s
  {
    assert StripLeft(s) == s;
    assert StripRight(s) == s;
  }

  /** `s.strip().strip() == s.strip()`. */
  lemma StripIdempotent(s: string)
    ensures Strip(Strip(s)) == Strip(s)
  {
    StripFixesStripped(Strip(s));
  }

  /** One ASCII decimal digit. */
  predicate IsDigit(c: char) {
    '0' <= c <= '9'
  }

  predicate AllDigits(s: string) {
    forall i :: 0 <= i < |s| ==> IsDigit(s[i])
  }

  /** `str.isdigit()`: true only for a non-empty string of digits. */
  predicate IsDigitString(s: string) {
    |s| > 0 && AllDigits(s)
  }

  /** `int(s)` for a string of decimal digits; leading zeros are allowed. */
  function DecimalValue(s: string): nat
    requires AllDigits(s)
  {
    if s == [] then 0 else 10 * DecimalValue(s[..|s| - 1]) + (s[|s| - 1] as int - '0' as int)
  }

  /** A digit string has a positive value exactly when one of its digits is
      not '0'. */
  lemma {:induction false} DecimalValuePositive(s: string)
    requires AllDigits(s)
    ensures DecimalValue(s) > 0 <==> exists i :: 0 <= i < |s| && s[i] != '0'
  {
    if s != [] {
      var init := s[..|s| - 1];
      DecimalValuePositive(init);
      if DecimalValue(s) > 0 && s[|s| - 1] == '0' {
        var i :| 0 <= i < |init| && init[i] != '0';
        assert s[i] != '0';
      }
      if (exists i :: 0 <= i < |s| && s[i] != '0') && s[|s| - 1] == '0' {
        var i :| 0 <= i < |s| && s[i] != '0';
        assert init[i] != '0';
      }
    }
  }

  function DigitChar(d: nat): (c: char)
    requires d < 10
    ensures IsDigit(c)
  {
    ('0' as int + d) as char
  }

  /** `str(n)` for a natural number: its shortest decimal representation. */
  function NatToDecimal(n: nat): (s: string)
    ensures IsDigitString(s)
    ensures s[0] != '0' || n == 0
  {
    if n < 10 then [DigitChar(n)] else NatToDecimal(n / 10) + [DigitChar(n % 10)]
  }

  /** `int(str(n)) == n`. */
  lemma {:induction false} DecimalRoundTrip(n: nat)
    ensures DecimalValue(NatToDecimal(n)) == n
  {
    if n >= 10 {
      var s := NatToDecimal(n);
      DecimalRoundTrip(n / 10);
      assert s[..|s| - 1] == NatToDecimal(n / 10);
    }
  }

  /** `str(n)` has no surrounding whitespace, so `strip` leaves it as it is. */
  lemma DecimalIsStripped(n: nat)
    ensures Strip(NatToDecimal(n)) == NatToDecimal(n)
  {
    var s := NatToDecimal(n);
    assert IsDigit(s[0]) && IsDigit(s[|s| - 1]);
    StripFixesStripped(s);
  }

  /** `str(int(s))` is no longer than the digit string `s`: reading drops
      only leading zeros. */
  lemma {:induction false} DecimalLengthBound(s: string)
    requires IsDigitString(s)
    ensures |NatToDecimal(DecimalValue(s))| <= |s|
  {
    var init := s[..|s| - 1];
    var n := DecimalValue(s);
    if n >= 10 {
      assert n / 10 == DecimalValue(init);
      DecimalLengthBound(init);
    }
  }
}
