/**
 * `ordinal(n)` from the utilities: the number written in decimal followed by
 * its English ordinal suffix ("1st", "2nd", "3rd", "4th", "11th", "21st").
 * Python's `math.floor(n/10)` and `n % 10` round toward negative infinity;
 * with the positive divisor 10 they agree with Dafny's `/` and `%`.
 */
module Ordinal {

  /** The letters the suffix is sliced from: `Letters[i]` and `Letters[i + 4]`. */
  const Letters: string := "tsnrhtdd"

  predicate IsDigit(c: char)
  {
    '0' <= c <= '9'
  }

  /** The decimal digits of a non-negative number, most significant first. */
  function Digits(n: nat): (s: string)
    ensures |s| >= 1
    ensures forall i :: 0 <= i < |s| ==> IsDigit(s[i])
    ensures s[0] == '0' ==> n == 0
    decreases n
  {
    var d := [('0' as int + n % 10) as char];
    if n < 10 then d else Digits(n / 10) + d
  }

  /** `"%d" % n`: a minus sign for a negative number, then its digits. */
  function Decimal(n: int): string
  {
    if n < 0 then "-" + Digits(-n) else Digits(n)
  }

  /** The value of a non-empty string of digits. */
  function ParseDigits(s: string): nat
    requires forall i :: 0 <= i < |s| ==> IsDigit(s[i])
  {
    if s == [] then 0
    else
      var d := s[|s| - 1] as int - '0' as int;
      assert IsDigit(s[|s| - 1]);
      10 * ParseDigits(s[..|s| - 1]) + d
  }

  /** The value of a decimal numeral with an optional leading minus sign. */
  function ParseDecimal(s: string): int
    requires |s| >= 1
    requires forall i :: 0 < i < |s| ==> IsDigit(s[i])
    requires s[0] == '-' || IsDigit(s[0])
  {
    if s[0] == '-' then -(ParseDigits(s[1..]) as int) else ParseDigits(s)
  }

  /** Reading the digits back gives the number. */
  lemma {:induction false} DigitsRoundTrip(n: nat)
    ensures ParseDigits(Digits(n)) == n
    decreases n
  {
    var s := Digits(n);
    if n >= 10 {
      DigitsRoundTrip(n / 10);
      assert s[..|s| - 1] == Digits(n / 10);
    }
  }

  /** Reading `"%d" % n` back gives `n`. */
  lemma DecimalRoundTrip(n: int)
    ensures var s := Decimal(n);
      |s| >= 1 && (s[0] == '-' || IsDigit(s[0])) && (forall i :: 0 < i < |s| ==> IsDigit(s[i])) &&
      ParseDecimal(s) == n
  {
    if n < 0 {
      DigitsRoundTrip(-n);
      ReadNegative(Digits(-n));
    } else {
      DigitsRoundTrip(n);
    }
  }

  /** A minus sign before the digits `d` reads back as minus their value. */
  lemma ReadNegative(d: string)
    requires forall i :: 0 <= i < |d| ==> IsDigit(d[i])
    ensures var s := "-" + d;
      (forall i :: 0 < i < |s| ==> IsDigit(s[i])) && ParseDecimal(s) == -(ParseDigits(d) as int)
  {
    assert ("-" + d)[1..] == d;
  }

  /**
   * Where the suffix starts in `Letters`: the units digit of `n` when the
   * tens digit is not 1 and the units digit is below 4, and 0 otherwise.
   * The two tests count as 1 when they hold and 0 when they do not; the
   * product of the two with `n` is taken modulo 10.
   */
  function SuffixIndex(n: int): (i: nat)
    ensures i < 4
  {
    var notTeen := if (n / 10) % 10 != 1 then 1 else 0;
    var small := if n % 10 < 4 then 1 else 0;
    (notTeen * small * n) % 10
  }

  /**
   * `"tsnrhtdd"[i::4]`: "th" when the tens digit is 1 (11th, 12th, 13th),
   * otherwise "st", "nd", "rd" for a units digit of 1, 2, 3, and "th" for
   * any other units digit.
   */
  function Suffix(n: int): (s: string)
    ensures (n / 10) % 10 == 1 ==> s == "th"
    ensures (n / 10) % 10 != 1 && n % 10 == 1 ==> s == "st"
    ensures (n / 10) % 10 != 1 && n % 10 == 2 ==> s == "nd"
    ensures (n / 10) % 10 != 1 && n % 10 == 3 ==> s == "rd"
    ensures n % 10 == 0 || n % 10 >= 4 ==> s == "th"
  {
    var i := SuffixIndex(n);
    [Letters[i], Letters[i + 4]]
  }

  /** `ordinal(n)`: the decimal numeral of `n` followed by its suffix. */
  function OrdinalString(n: int): (s: string)
    ensures |s| >= 3 && s[|s| - 2..] == Suffix(n)
  {
    Decimal(n) + Suffix(n)
  }

  /**
   * An ordinal is the decimal numeral of `n`, which reads back as `n`,
   * followed by the two-letter suffix.
   */
  lemma OrdinalSplits(n: int)
    ensures var s := OrdinalString(n);
      |s| >= 3 && s[|s| - 2..] == Suffix(n) && s[..|s| - 2] == Decimal(n) &&
      ParseDecimal(s[..|s| - 2]) == n
  {
    DecimalRoundTrip(n);
    var s := OrdinalString(n);
    assert s[..|s| - 2] == Decimal(n);
  }

  /** The first ordinals, and zero. */
  lemma OrdinalUnits()
    ensures OrdinalString(0) == "0th" && OrdinalString(1) == "1st" && OrdinalString(2) == "2nd"
    ensures OrdinalString(3) == "3rd" && OrdinalString(4) == "4th"
  {
    assert Decimal(0) == "0" && Suffix(0) == "th";
    assert Decimal(1) == "1" && Suffix(1) == "st";
    assert Decimal(2) == "2" && Suffix(2) == "nd";
    assert Decimal(3) == "3" && Suffix(3) == "rd";
    assert Decimal(4) == "4" && Suffix(4) == "th";
  }

  /** The teens take "th". */
  lemma OrdinalTeens()
    ensures OrdinalString(11) == "11th" && OrdinalString(12) == "12th" && OrdinalString(13) == "13th"
  {
    assert Digits(11) == Digits(1) + ['1'];
    assert Digits(12) == Digits(1) + ['2'];
    assert Digits(13) == Digits(1) + ['3'];
  }

  /** Past the teens the suffix follows the units digit again, and a tens digit of 1 wins over it. */
  lemma OrdinalPastTeens()
    ensures OrdinalString(21) == "21st" && OrdinalString(112) == "112th" && OrdinalString(122) == "122nd"
  {
    assert Digits(21) == Digits(2) + ['1'];
    assert Digits(11) == Digits(1) + ['1'];
    assert Digits(112) == Digits(11) + ['2'];
    assert Digits(12) == Digits(1) + ['2'];
    assert Digits(122) == Digits(12) + ['2'];
  }
}
