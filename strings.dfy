/**
 * The few string operations the extension relies on, written out over
 * `seq<char>`: `String.prototype.includes`, ASCII `toLowerCase`, and the
 * decimal rendering of an integer inside a template literal.
 */
module Strings {
  import opened Wrappers

  /** `needle` occurs in `s` starting at position `i`. */
  predicate OccursAt(s: string, needle: string, i: nat) {
    i + |needle| <= |s| && s[i..i + |needle|] == needle
  }

  /** `s.includes(needle)`: tries each starting position from the front. */
  predicate Contains(s: string, needle: string)
    decreases |s|
  {
    (|needle| <= |s| && s[..|needle|] == needle) || (|s| > 0 && Contains(s[1..], needle))
  }

  /** `Contains` holds exactly when the needle occurs at some position. */
  lemma {:induction false} ContainsIffOccurs(s: string, needle: string)
    ensures Contains(s, needle) <==> exists i: nat :: OccursAt(s, needle, i)
    decreases |s|
  {
    if |needle| <= |s| && s[..|needle|] == needle {
      assert OccursAt(s, needle, 0);
    } else if |s| > 0 {
      ContainsIffOccurs(s[1..], needle);
      if Contains(s[1..], needle) {
        var j: nat :| OccursAt(s[1..], needle, j);
        assert s[1..][j..j + |needle|] == s[j + 1..j + 1 + |needle|];
        assert OccursAt(s, needle, j + 1);
      }
      if i: nat :| OccursAt(s, needle, i) {
        assert i != 0;
        assert s[1..][i - 1..i - 1 + |needle|] == s[i..i + |needle|];
        assert OccursAt(s[1..], needle, i - 1);
      }
    }
  }

  /** A string that contains `mid` contains everything `mid` contains. */
  lemma ContainsTransitive(s: string, mid: string, needle: string)
    requires Contains(s, mid) && Contains(mid, needle)
    ensures Contains(s, needle)
  {
    ContainsIffOccurs(s, mid);
    ContainsIffOccurs(mid, needle);
    var i: nat :| OccursAt(s, mid, i);
    var j: nat :| OccursAt(mid, needle, j);
    assert s[i..i + |mid|] == mid;
    forall k | 0 <= k < |needle|
      ensures s[i + j..i + j + |needle|][k] == needle[k]
    {
      assert mid[j + k] == needle[k];
      assert s[i..i + |mid|][j + k] == s[i + j + k];
    }
    assert OccursAt(s, needle, i + j);
    ContainsIffOccurs(s, needle);
  }

  /** A needle with a character that `s` lacks does not occur in `s`. */
  lemma MissingCharNotContained(s: string, needle: string, c: char)
    requires c in needle && c !in s
    ensures !Contains(s, needle)
  {
    var k :| 0 <= k < |needle| && needle[k] == c;
    forall i: nat | i + |needle| <= |s|
      ensures !OccursAt(s, needle, i)
    {
      assert s[i..i + |needle|][k] == s[i + k];
    }
    ContainsIffOccurs(s, needle);
  }

  /** A needle longer than `s` does not occur in it. */
  lemma {:induction false} LongerNotContained(s: string, needle: string)
    requires |needle| > |s|
    ensures !Contains(s, needle)
    decreases |s|
  {
    if |s| > 0 {
      LongerNotContained(s[1..], needle);
    }
  }

  /** A string contains whatever is spliced into it. */
  lemma ContainsSpliced(before: string, needle: string, after: string)
    ensures Contains(before + needle + after, needle)
  {
    var s := before + needle + after;
    assert s[|before|..|before| + |needle|] == needle;
    assert OccursAt(s, needle, |before|);
    ContainsIffOccurs(s, needle);
  }

  /** `a + x + b + y` contains both `x` and `y`. */
  lemma ContainsBothSpliced(a: string, x: string, b: string, y: string)
    ensures Contains(a + x + b + y, x) && Contains(a + x + b + y, y)
  {
    ContainsSpliced(a, x, b + y);
    assert a + x + b + y == a + x + (b + y);
    ContainsSpliced(a + x + b, y, "");
    assert a + x + b + y == a + x + b + y + "";
  }

  /** ASCII lower-casing of one character. */
  function LowerChar(c: char): char {
    if 'A' <= c <= 'Z' then (c as int - 'A' as int + 'a' as int) as char else c
  }

  /** `s.toLowerCase()` restricted to ASCII letters. */
  function ToLower(s: string): (r: string)
    ensures |r| == |s|
  {
    seq(|s|, i requires 0 <= i < |s| => LowerChar(s[i]))
  }

  function DigitChar(d: nat): char
    requires d < 10
  {
    "0123456789"[d]
  }

  predicate IsDigit(c: char) {
    '0' <= c <= '9'
  }

  function DigitValue(c: char): nat
    requires IsDigit(c)
  {
    c as int - '0' as int
  }

  /** Decimal digits of `n`, most significant first, without leading zeros. */
  function NatToDecimal(n: nat): string
    decreases n
  {
    if n < 10 then [DigitChar(n)] else NatToDecimal(n / 10) + [DigitChar(n % 10)]
  }

  /** `${i}` for an integer `i`, as JavaScript prints a safe integer: sign, then all its digits. */
  function IntToDecimal(i: int): string {
    if i < 0 then "-" + NatToDecimal(-i) else NatToDecimal(i)
  }

  /** The value of a string of decimal digits. */
  function DecimalValue(s: string): nat
    requires forall k :: 0 <= k < |s| ==> IsDigit(s[k])
  {
    if s == [] then 0 else DecimalValue(s[..|s| - 1]) * 10 + DigitValue(s[|s| - 1])
  }

  predicate AllDigits(s: string) {
    |s| > 0 && forall k :: 0 <= k < |s| ==> IsDigit(s[k])
  }

  /** Reads an optionally signed decimal integer. */
  function ParseInt(s: string): Option<int> {
    if |s| > 0 && s[0] == '-' && AllDigits(s[1..]) then Some(0 - DecimalValue(s[1..]) as int)
    else if AllDigits(s) then Some(DecimalValue(s))
    else None
  }

  lemma {:induction false} NatToDecimalRoundTrip(n: nat)
    ensures AllDigits(NatToDecimal(n))
    ensures DecimalValue(NatToDecimal(n)) == n
    decreases n
  {
    if n >= 10 {
      NatToDecimalRoundTrip(n / 10);
      var s := NatToDecimal(n);
      assert s[..|s| - 1] == NatToDecimal(n / 10);
    }
  }

  /** The decimal text of an integer reads back as that integer. */
  lemma IntToDecimalRoundTrip(i: int)
    ensures ParseInt(IntToDecimal(i)) == Some(i)
  {
    if i < 0 {
      var digits := NatToDecimal(-i);
      NatToDecimalRoundTrip(-i);
      var s := "-" + digits;
      assert s[0] == '-' && s[1..] == digits;
      assert ParseInt(s) == Some(0 - DecimalValue(digits) as int);
    } else {
      var digits := NatToDecimal(i);
      NatToDecimalRoundTrip(i);
      assert IsDigit(digits[0]);
    }
  }

  /** `${w}rem`: a CSS length in rem units. */
  function RemText(w: int): string {
    IntToDecimal(w) + "rem"
  }

  /** Reads back a length written by `RemText`. */
  function ParseRem(s: string): Option<int> {
    if |s| >= 3 && s[|s| - 3..] == "rem" then ParseInt(s[..|s| - 3]) else None
  }

  /** A rem length reads back as the width it was written from. */
  lemma RemRoundTrip(w: int)
    ensures ParseRem(RemText(w)) == Some(w)
  {
    var s := RemText(w);
    assert s[..|s| - 3] == IntToDecimal(w);
    IntToDecimalRoundTrip(w);
  }

  /** Different widths are written as different lengths. */
  lemma RemTextInjective(v: int, w: int)
    requires RemText(v) == RemText(w)
    ensures v == w
  {
    RemRoundTrip(v);
    RemRoundTrip(w);
  }
}
