/**
 * The pure text handling of the stat counter in script.js: the `.` and `+` tests,
 * the digit-strip parse `parseInt(text.replace(/[^\d]/g, ""))`, rounding up with
 * `Math.ceil`, and the conversion of the displayed number back to text.
 */
module StatText {
  import opened Optional
  import opened JsString

  /** `\d` in a JavaScript regular expression: the ASCII digits only. */
  predicate IsDigit(c: char) {
    '0' <= c <= '9'
  }

  predicate AllDigits(s: string) {
    forall k :: 0 <= k < |s| ==> IsDigit(s[k])
  }

  /** `text.includes(".")`: a stat with a decimal point (a grade-point value) is never animated. */
  predicate HasDecimalPoint(text: string): (r: bool)
    ensures r <==> '.' in text
  {
    IncludesChar(text, '.');
    Includes(text, ".")
  }

  /** `text.includes("+")`: every intermediate frame gets a `+` when the original has one anywhere. */
  predicate HasPlus(text: string): (r: bool)
    ensures r <==> '+' in text
  {
    IncludesChar(text, '+');
    Includes(text, "+")
  }

  /** `text.replace(/[^\d]/g, "")`: the digit characters of `text`, in order. */
  function StripNonDigits(text: string): (d: string)
    ensures AllDigits(d)
    ensures |d| <= |text|
    ensures AllDigits(text) ==> d == text
  {
    if text == [] then []
    else (if IsDigit(text[0]) then [text[0]] else []) + StripNonDigits(text[1..])
  }

  /** Stripping distributes over concatenation, so it keeps exactly the digits in order. */
  lemma {:induction false} StripNonDigitsAppend(a: string, b: string)
    ensures StripNonDigits(a + b) == StripNonDigits(a) + StripNonDigits(b)
  {
    if a == [] {
      assert a + b == b;
    } else {
      assert (a + b)[1..] == a[1..] + b;
      StripNonDigitsAppend(a[1..], b);
    }
  }

  /** No digit at all exactly when the stripped text is empty. */
  lemma {:induction false} StripNonDigitsEmpty(text: string)
    ensures StripNonDigits(text) == [] <==> forall k :: 0 <= k < |text| ==> !IsDigit(text[k])
  {
    if text != [] {
      StripNonDigitsEmpty(text[1..]);
      assert forall k :: 1 <= k < |text| ==> text[k] == text[1..][k - 1];
    }
  }

  function DigitValue(c: char): (v: nat)
    requires IsDigit(c)
    ensures v < 10
  {
    (c as int) - ('0' as int)
  }

  function DigitChar(v: nat): (c: char)
    requires v < 10
    ensures IsDigit(c) && DigitValue(c) == v
  {
    (('0' as int) + v) as char
  }

  /** The number a string of decimal digits denotes, most significant digit first. */
  function DecimalValue(d: string): nat
    requires AllDigits(d)
  {
    if d == [] then 0 else DecimalValue(d[..|d| - 1]) * 10 + DigitValue(d[|d| - 1])
  }

  /** `parseInt` on a string of digits only: NaN (None) for the empty string. */
  function ParseDigits(d: string): (r: Option<nat>)
    requires AllDigits(d)
    ensures r.None? <==> d == []
  {
    if d == [] then None else Some(DecimalValue(d))
  }

  /** The counter's target, `parseInt` of the text's digits; None stands for NaN. */
  function Target(text: string): Option<nat> {
    ParseDigits(StripNonDigits(text))
  }

  /**
   * The target is NaN exactly when the text has no digit; otherwise it is the decimal value
   * of the text's digits in order.
   */
  lemma TargetOfText(text: string)
    ensures Target(text).None? <==> forall k :: 0 <= k < |text| ==> !IsDigit(text[k])
    ensures Target(text).Some? ==> Target(text).value == DecimalValue(StripNonDigits(text))
  {
    StripNonDigitsEmpty(text);
  }

  /** `String(n)` for a non-negative integer: decimal digits, no leading zero. */
  function NatToString(n: nat): (s: string)
    ensures AllDigits(s) && |s| >= 1
    ensures s[0] == '0' ==> n == 0
  {
    if n < 10 then [DigitChar(n)] else NatToString(n / 10) + [DigitChar(n % 10)]
  }

  /** Reading a number's decimal text back gives the number. */
  lemma {:induction false} NatToStringRoundTrip(n: nat)
    ensures DecimalValue(NatToString(n)) == n
  {
    var s := NatToString(n);
    if n < 10 {
      assert s[..0] == [];
    } else {
      NatToStringRoundTrip(n / 10);
      assert s[..|s| - 1] == NatToString(n / 10);
    }
  }

  /** `Math.ceil`: the least integer at or above `x`. */
  method Ceil(x: real) returns (r: int)
    ensures r as real - 1.0 < x <= r as real
  {
    r := x.Floor;
    if r as real != x {
      r := r + 1;
    }
  }

  /** The text of an intermediate frame: the rounded-up value, then `+` when the original has one. */
  function FrameText(value: nat, plus: bool): string {
    NatToString(value) + (if plus then "+" else "")
  }

  /** A frame's text, read back as a stat text, has the displayed value as its target. */
  lemma FrameTextTarget(value: nat, plus: bool)
    ensures Target(FrameText(value, plus)) == Some(value)
    ensures plus <==> FrameText(value, plus)[|FrameText(value, plus)| - 1] == '+'
  {
    var digits := NatToString(value);
    var suffix: string := if plus then "+" else "";
    assert FrameText(value, plus) == digits + suffix;
    StripNonDigitsAppend(digits, suffix);
    assert StripNonDigits(suffix) == [] by {
      if plus {
        assert suffix[1..] == [];
      }
    }
    assert StripNonDigits(digits + suffix) == digits;
    NatToStringRoundTrip(value);
  }
}
