/**
 * Rendering of a tenths-of-a-decibel value as the `%d.%d` pair
 * `v/10`, `v%10` of the published message: one fraction digit, no rounding.
 */
module FixedPoint {
  import opened Common

  /** The integer part and the single fraction digit of a tenths value. */
  function Split(v: nat): (parts: (nat, nat))
    ensures parts.1 < 10
    ensures 10 * parts.0 + parts.1 == v
  {
    (v / 10, v % 10)
  }

  predicate IsDigit(c: char)
  {
    '0' <= c <= '9'
  }

  predicate AllDigits(s: string)
  {
    forall i :: 0 <= i < |s| ==> IsDigit(s[i])
  }

  function DigitChar(d: nat): (c: char)
    requires d < 10
    ensures IsDigit(c)
  {
    ('0' as int + d) as char
  }

  function DigitValue(c: char): (d: nat)
    requires IsDigit(c)
    ensures d < 10
  {
    c as int - '0' as int
  }

  /** `printf("%d", n)` for a non-negative `n`: decimal digits without leading zeros. */
  function Decimal(n: nat): (s: string)
    ensures |s| >= 1 && AllDigits(s)
    ensures s[0] == '0' <==> n == 0
    ensures n < 10 <==> |s| == 1
  {
    if n < 10 then [DigitChar(n)] else Decimal(n / 10) + [DigitChar(n % 10)]
  }

  /** The number a string of decimal digits denotes. */
  function Value(s: string): nat
    requires AllDigits(s)
  {
    if s == [] then 0 else Value(s[..|s| - 1]) * 10 + DigitValue(s[|s| - 1])
  }

  /** `%d.%d` of `v/10` and `v%10`. */
  function Render(v: nat): string
  {
    Decimal(Split(v).0) + "." + Decimal(Split(v).1)
  }

  /** Reads a rendered value back: digits, a point, one digit. */
  function Parse(s: string): Option<nat>
  {
    if |s| >= 3 && s[|s| - 2] == '.' && IsDigit(s[|s| - 1]) && AllDigits(s[..|s| - 2])
    then Some(Value(s[..|s| - 2]) * 10 + DigitValue(s[|s| - 1]))
    else None
  }

  /** The digits `%d` prints denote the number printed. */
  lemma {:induction false} ValueOfDecimal(n: nat)
    ensures Value(Decimal(n)) == n
  {
    var s := Decimal(n);
    if n >= 10 {
      ValueOfDecimal(n / 10);
      assert s[..|s| - 1] == Decimal(n / 10);
    }
  }

  /**
   * The rendering loses nothing: it is an integer part, a point and exactly
   * one digit, and reading it back gives the tenths value itself (no rounding).
   */
  lemma {:induction false} ParseRender(v: nat)
    ensures |Render(v)| >= 3 && Render(v)[|Render(v)| - 2] == '.'
    ensures Render(v)[|Render(v)| - 1] == DigitChar(v % 10)
    ensures Parse(Render(v)) == Some(v)
  {
    var s := Render(v);
    var whole := Decimal(v / 10);
    assert s == whole + "." + [DigitChar(v % 10)];
    assert s[..|s| - 2] == whole;
    ValueOfDecimal(v / 10);
  }

  /** One of the published examples: 452 tenths is rendered "45.2". */
  lemma RenderExample()
    ensures Render(452) == "45.2"
    ensures Render(1500) == "150.0"
  {
  }
}
