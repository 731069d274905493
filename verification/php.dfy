/**
 * The two pieces of PHP language behaviour the facade depends on:
 * `empty()` applied to a string, and the normalisation of array keys
 * that look like decimal integers into integer keys.
 */
module Php {

  /** PHP_INT_MAX on a 64-bit build. */
  const IntMax: int := 0x7FFF_FFFF_FFFF_FFFF

  /** `empty($s)` for a string: only "" and "0" are falsy strings in PHP. */
  predicate IsEmpty(s: string)
  {
    s == "" || s == "0"
  }

  predicate IsDigit(c: char)
  {
    '0' <= c <= '9'
  }

  predicate AllDigits(s: string)
  {
    forall i :: 0 <= i < |s| ==> IsDigit(s[i])
  }

  /** The value of a string of decimal digits. */
  function DigitsValue(s: string): (v: nat)
    requires AllDigits(s)
  {
    if s == [] then 0
    else DigitsValue(s[..|s| - 1]) * 10 + (s[|s| - 1] as int - '0' as int)
  }

  /** The digits of a key, without its leading minus sign if it has one. */
  function Magnitude(s: string): string
  {
    if |s| > 0 && s[0] == '-' then s[1..] else s
  }

  /**
   * True when PHP stores the string `s`, used as an array key, as an
   * integer key: an optional '-', then decimal digits with no leading zero
   * ("0" itself is allowed, "-0" is not), within the 64-bit integer range.
   */
  predicate IsIntegerKey(s: string)
  {
    var m := Magnitude(s);
    && |m| > 0
    && AllDigits(m)
    && !(m[0] == '0' && |s| > 1)
    && (if s[0] == '-' then DigitsValue(m) <= IntMax + 1 else DigitsValue(m) <= IntMax)
  }

  /** The smallest 64-bit integer, PHP_INT_MIN. */
  const IntMin: int := -IntMax - 1

  /** The canonical decimal spelling of a natural number, as PHP prints it. */
  function NatDigits(n: nat): (s: string)
    decreases n
  {
    if n < 10 then [('0' as int + n) as char]
    else NatDigits(n / 10) + [('0' as int + n % 10) as char]
  }

  /** The canonical decimal spelling of an integer: a '-' for negatives, never "-0". */
  function DecimalString(n: int): string
  {
    if n < 0 then "-" + NatDigits(-n) else NatDigits(n)
  }

  /** The integer PHP stores for an integer-like key. */
  function KeyValue(s: string): int
    requires IsIntegerKey(s)
  {
    if s[0] == '-' then -(DigitsValue(Magnitude(s)) as int) else DigitsValue(s)
  }

  /** Appending a digit multiplies the value by ten and adds that digit. */
  lemma DigitsValueSnoc(p: string, c: char)
    requires AllDigits(p) && IsDigit(c)
    ensures AllDigits(p + [c])
    ensures DigitsValue(p + [c]) == DigitsValue(p) * 10 + (c as int - '0' as int)
  {
    assert (p + [c])[..|p|] == p;
  }

  /** A spelled-out natural is a non-empty digit string, without a leading zero, with that value. */
  lemma {:induction false} NatDigitsSpellsValue(n: nat)
    ensures |NatDigits(n)| > 0 && AllDigits(NatDigits(n))
    ensures NatDigits(n)[0] == '0' ==> n == 0 && |NatDigits(n)| == 1
    ensures DigitsValue(NatDigits(n)) == n
    decreases n
  {
    var s := NatDigits(n);
    if n < 10 {
      assert s[..0] == [];
    } else {
      var p := NatDigits(n / 10);
      NatDigitsSpellsValue(n / 10);
      assert s == p + [('0' as int + n % 10) as char];
      DigitsValueSnoc(p, ('0' as int + n % 10) as char);
      assert s[0] == p[0];
    }
  }

  /** A digit string that does not start with '0' has a positive value. */
  lemma {:induction false} NoLeadingZeroIsPositive(s: string)
    requires |s| > 0 && AllDigits(s) && s[0] != '0'
    ensures DigitsValue(s) >= 1
    decreases |s|
  {
    if |s| > 1 {
      NoLeadingZeroIsPositive(s[..|s| - 1]);
    }
  }

  /** Spelling out the value of a digit string without a leading zero gives the string back. */
  lemma {:induction false} DigitsRoundTrip(s: string)
    requires |s| > 0 && AllDigits(s)
    requires s[0] == '0' ==> |s| == 1
    ensures NatDigits(DigitsValue(s)) == s
    decreases |s|
  {
    if |s| > 1 {
      var p := s[..|s| - 1];
      NoLeadingZeroIsPositive(p);
      DigitsRoundTrip(p);
      assert s == p + [s[|s| - 1]];
    } else {
      assert s[..0] == [];
    }
  }

  /**
   * Every integer-like key is the canonical spelling of an integer in the
   * 64-bit range: PHP's conversion of the key loses nothing.
   */
  lemma IntegerKeyRoundTrip(s: string)
    requires IsIntegerKey(s)
    ensures IntMin <= KeyValue(s) <= IntMax
    ensures DecimalString(KeyValue(s)) == s
  {
    var m := Magnitude(s);
    DigitsRoundTrip(m);
    if s[0] == '-' {
      NoLeadingZeroIsPositive(m);
      assert s == "-" + m;
    }
  }

  /** The canonical spelling of every integer in the 64-bit range is an integer-like key of that value. */
  lemma DecimalStringIsIntegerKey(n: int)
    requires IntMin <= n <= IntMax
    ensures IsIntegerKey(DecimalString(n))
    ensures KeyValue(DecimalString(n)) == n
  {
    var s := DecimalString(n);
    if n < 0 {
      NatDigitsSpellsValue(-n);
      assert Magnitude(s) == NatDigits(-n);
    } else {
      NatDigitsSpellsValue(n);
      assert s[0] != '-';
    }
  }

  // The values of the leading digits of PHP_INT_MAX, six digits at a time.

  lemma IntMaxLead6()
    ensures AllDigits("922337") && DigitsValue("922337") == 922337
  {
    DigitsValueSnoc([], '9');
    assert [] + ['9'] == "9";
    DigitsValueSnoc("9", '2');
    assert "9" + ['2'] == "92";
    DigitsValueSnoc("92", '2');
    assert "92" + ['2'] == "922";
    DigitsValueSnoc("922", '3');
    assert "922" + ['3'] == "9223";
    DigitsValueSnoc("9223", '3');
    assert "9223" + ['3'] == "92233";
    DigitsValueSnoc("92233", '7');
    assert "92233" + ['7'] == "922337";
  }

  lemma IntMaxLead12()
    ensures AllDigits("922337203685") && DigitsValue("922337203685") == 922337203685
  {
    IntMaxLead6();
    DigitsValueSnoc("922337", '2');
    assert "922337" + ['2'] == "9223372";
    DigitsValueSnoc("9223372", '0');
    assert "9223372" + ['0'] == "92233720";
    DigitsValueSnoc("92233720", '3');
    assert "92233720" + ['3'] == "922337203";
    DigitsValueSnoc("922337203", '6');
    assert "922337203" + ['6'] == "9223372036";
    DigitsValueSnoc("9223372036", '8');
    assert "9223372036" + ['8'] == "92233720368";
    DigitsValueSnoc("92233720368", '5');
    assert "92233720368" + ['5'] == "922337203685";
  }

  lemma IntMaxLead18()
    ensures AllDigits("922337203685477580") && DigitsValue("922337203685477580") == 922337203685477580
  {
    IntMaxLead12();
    DigitsValueSnoc("922337203685", '4');
    assert "922337203685" + ['4'] == "9223372036854";
    DigitsValueSnoc("9223372036854", '7');
    assert "9223372036854" + ['7'] == "92233720368547";
    DigitsValueSnoc("92233720368547", '7');
    assert "92233720368547" + ['7'] == "922337203685477";
    DigitsValueSnoc("922337203685477", '5');
    assert "922337203685477" + ['5'] == "9223372036854775";
    DigitsValueSnoc("9223372036854775", '8');
    assert "9223372036854775" + ['8'] == "92233720368547758";
    DigitsValueSnoc("92233720368547758", '0');
    assert "92233720368547758" + ['0'] == "922337203685477580";
  }

  /** The edges of PHP's integer-key rule: sign, leading zeros and the 64-bit range. */
  lemma IntegerKeyBoundaries()
    ensures IsIntegerKey("0") && IsIntegerKey("-7")
    ensures IsIntegerKey("9223372036854775807") && IsIntegerKey("-9223372036854775808")
    ensures !IsIntegerKey("-0") && !IsIntegerKey("01") && !IsIntegerKey("")
    ensures !IsIntegerKey("9223372036854775808") && !IsIntegerKey("-9223372036854775809")
  {
    var lead := "922337203685477580";
    IntMaxLead18();
    DigitsValueSnoc(lead, '7');
    assert lead + ['7'] == "9223372036854775807";
    DigitsValueSnoc(lead, '8');
    assert lead + ['8'] == "9223372036854775808";
    DigitsValueSnoc(lead, '9');
    assert lead + ['9'] == "9223372036854775809";
    assert Magnitude("-9223372036854775808") == "9223372036854775808";
    assert Magnitude("-9223372036854775809") == "9223372036854775809";
    assert Magnitude("-7") == "7";
    DigitsValueSnoc([], '7');
    assert [] + ['7'] == "7";
    DigitsValueSnoc([], '0');
    assert [] + ['0'] == "0";
  }
}
