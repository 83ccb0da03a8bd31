/** Decimal numerals as the standard streams print and read them. */
module Decimal {
  function DigitChar(d: nat): char
    requires d < 10
  {
    "0123456789"[d]
  }

  predicate IsDigit(c: char) {
    '0' <= c <= '9'
  }

  function DigitValue(c: char): nat
    requires IsDigit(c)
  {
    (c - '0') as nat
  }

  /** `n` in decimal, without leading zeros. */
  function Print(n: nat): (s: string)
    ensures s != [] && forall c :: c in s ==> IsDigit(c)
  {
    if n < 10 then [DigitChar(n)] else Print(n / 10) + [DigitChar(n % 10)]
  }

  /** The value of a string of digits. */
  function ValueOf(s: string): nat
    requires forall c :: c in s ==> IsDigit(c)
  {
    if s == [] then 0 else 10 * ValueOf(s[..|s| - 1]) + DigitValue(s[|s| - 1])
  }

  lemma DigitRoundTrip(d: nat)
    requires d < 10
    ensures IsDigit(DigitChar(d)) && DigitValue(DigitChar(d)) == d
  {
  }

  lemma {:induction false} ValueOfPrint(n: nat)
    ensures ValueOf(Print(n)) == n
  {
    if n >= 10 {
      ValueOfPrint(n / 10);
      DigitRoundTrip(n % 10);
      assert Print(n)[..|Print(n)| - 1] == Print(n / 10);
    } else {
      DigitRoundTrip(n);
      assert Print(n)[..0] == [];
    }
  }

  /** The units come last, the digits before them are those of the tenth, and there is no leading zero. */
  lemma PrintShowsDigits(n: nat)
    ensures Print(n)[|Print(n)| - 1] as nat == '0' as nat + n % 10
    ensures n >= 10 ==> Print(n)[..|Print(n)| - 1] == Print(n / 10)
    ensures n < 10 ==> |Print(n)| == 1
    ensures n > 0 ==> Print(n)[0] != '0'
    decreases n
  {
    DigitRoundTrip(n % 10);
    if n >= 10 {
      PrintShowsDigits(n / 10);
      assert Print(n)[..|Print(n)| - 1] == Print(n / 10);
      assert Print(n)[0] == Print(n / 10)[0];
    }
  }
}
