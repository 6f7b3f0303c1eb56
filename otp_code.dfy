/** The text of a one-time passcode: `str(random.randint(1000, 9999))`.
    The random draw is a parameter; this module gives Python's decimal
    rendering of a non-negative integer, its inverse, and the facts about
    the four-digit codes the issuing handler produces. */
module OtpCode {

  const MinCode: int := 1000
  const MaxCode: int := 9999

  predicate IsDigit(c: char) {
    '0' <= c <= '9'
  }

  predicate AllDigits(s: string) {
    forall k :: 0 <= k < |s| ==> IsDigit(s[k])
  }

  function DigitChar(d: nat): (c: char)
    requires d < 10
    ensures IsDigit(c) && c as int - '0' as int == d
  {
    ('0' as int + d) as char
  }

  function DigitValue(c: char): (d: nat)
    requires IsDigit(c)
    ensures d < 10 && DigitChar(d) == c
  {
    c as int - '0' as int
  }

  /** Python's `str(n)` for `n >= 0`: most significant digit first, no
      leading zero except for `n == 0` itself. */
  function Decimal(n: nat): (s: string)
    decreases n
    ensures 1 <= |s| && AllDigits(s)
    ensures n > 0 ==> s[0] != '0'
  {
    if n < 10 then [DigitChar(n)] else Decimal(n / 10) + [DigitChar(n % 10)]
  }

  /** The value of a string of decimal digits (`int(s)` for such strings). */
  function ParseDecimal(s: string): nat
    requires AllDigits(s)
  {
    if s == [] then 0 else ParseDecimal(s[..|s| - 1]) * 10 + DigitValue(s[|s| - 1])
  }

  /** Reading back the decimal text of `n` yields `n`: distinct draws give
      distinct codes. */
  lemma {:induction false} DecimalRoundTrip(n: nat)
    ensures ParseDecimal(Decimal(n)) == n
  {
    var s := Decimal(n);
    if n < 10 {
      assert s[..|s| - 1] == [];
    } else {
      assert s[..|s| - 1] == Decimal(n / 10);
      DecimalRoundTrip(n / 10);
    }
  }

  /** The decimal text of `n` is as long as the number of digits of `n`;
      for four-digit numbers that is four characters. */
  lemma {:induction false} DecimalLength(n: nat, width: nat)
    requires 1 <= width
    requires (if width == 1 then 0 else Pow10(width - 1)) <= n < Pow10(width)
    ensures |Decimal(n)| == width
  {
    if width > 1 {
      assert n >= 10;
      DecimalLength(n / 10, width - 1);
    }
  }

  function Pow10(k: nat): (p: nat)
    ensures p >= 1
  {
    if k == 0 then 1 else 10 * Pow10(k - 1)
  }

  /** The code stored for a draw in `MinCode..MaxCode`: four decimal digits,
      no leading zero, whose value is the draw. */
  function CodeText(drawn: int): (code: string)
    requires MinCode <= drawn <= MaxCode
    ensures |code| == 4 && AllDigits(code) && code[0] != '0'
    ensures ParseDecimal(code) == drawn
  {
    assert Pow10(3) == 1000 && Pow10(4) == 10000;
    DecimalLength(drawn, 4);
    DecimalRoundTrip(drawn);
    Decimal(drawn)
  }

  /** Two draws give the same code text only when they are the same draw. */
  lemma CodeTextInjective(a: int, b: int)
    requires MinCode <= a <= MaxCode && MinCode <= b <= MaxCode
    ensures CodeText(a) == CodeText(b) <==> a == b
  {
  }
}
