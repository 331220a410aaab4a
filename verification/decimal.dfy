/**
 * Unsigned decimal numerals: reading a run of ASCII digits and writing a number
 * zero-padded to a minimum width, as luxon does for the `dd`, `MM` and `yyyy` tokens
 * (left padding, which never truncates).
 */
module Decimal {

  /** The ASCII digits '0'..'9' (a JavaScript `\d`). */
  predicate IsDigit(c: char)
  {
    '0' <= c <= '9'
  }

  predicate AllDigits(s: string)
  {
    forall i :: 0 <= i < |s| ==> IsDigit(s[i])
  }

  function DigitValue(c: char): nat
    requires IsDigit(c)
  {
    (c as int) - ('0' as int)
  }

  function DigitChar(d: nat): (c: char)
    requires d < 10
    ensures IsDigit(c) && DigitValue(c) == d
  {
    (('0' as int) + d) as char
  }

  function Pow10(n: nat): (r: nat)
    ensures r >= 1
  {
    if n == 0 then 1 else 10 * Pow10(n - 1)
  }

  /** The number a run of digits denotes; it is below `10^|s|`. */
  function Value(s: string): (n: nat)
    requires AllDigits(s)
    ensures n < Pow10(|s|)
  {
    if s == [] then 0 else Value(s[..|s| - 1]) * 10 + DigitValue(s[|s| - 1])
  }

  /** The decimal digits of `n`, with leading zeros up to `width`; a longer number is not cut. */
  function Pad(n: nat, width: nat): (r: string)
    ensures AllDigits(r)
    ensures |r| >= 1 && |r| >= width
    decreases n + width
  {
    if n < 10 && width <= 1 then [DigitChar(n)]
    else Pad(n / 10, if width == 0 then 0 else width - 1) + [DigitChar(n % 10)]
  }

  /** Writing a number and reading it back gives the number. */
  lemma {:induction false} ValuePad(n: nat, width: nat)
    ensures Value(Pad(n, width)) == n
    decreases n + width
  {
    if !(n < 10 && width <= 1) {
      var p := Pad(n / 10, if width == 0 then 0 else width - 1);
      ValuePad(n / 10, if width == 0 then 0 else width - 1);
      assert Pad(n, width)[..|Pad(n, width)| - 1] == p;
    }
  }

  /** Reading a non-empty run of digits and writing it back at the same width gives the run. */
  lemma {:induction false} PadValue(s: string)
    requires AllDigits(s) && s != []
    ensures Pad(Value(s), |s|) == s
  {
    var p := s[..|s| - 1];
    var n := Value(s);
    if |s| == 1 {
      assert s == [s[0]];
    } else {
      PadValue(p);
      assert n / 10 == Value(p);
      assert n % 10 == DigitValue(s[|s| - 1]);
      assert p + [s[|s| - 1]] == s;
    }
  }

  /** A number below `10^width` is written in exactly `width` digits. */
  lemma {:induction false} PadLength(n: nat, width: nat)
    requires width >= 1 && n < Pow10(width)
    ensures |Pad(n, width)| == width
  {
    if !(n < 10 && width <= 1) {
      if width > 1 {
        PadLength(n / 10, width - 1);
      }
    }
  }
}
