/** Python's `str(n)` for integers and the hexadecimal digits read by
    `int(text, 16)`. */
module PyInt {

  /** ASCII decimal digit (the model's reading of `\d`). */
  predicate IsDigit(c: char)
  {
    '0' <= c <= '9'
  }

  predicate AllDigits(s: string)
  {
    forall i :: 0 <= i < |s| ==> IsDigit(s[i])
  }

  predicate IsHexDigit(c: char)
  {
    IsDigit(c) || ('a' <= c <= 'f') || ('A' <= c <= 'F')
  }

  function DigitValue(c: char): (v: nat)
    requires IsDigit(c)
    ensures v < 10
  {
    c as int - '0' as int
  }

  function HexValue(c: char): (v: nat)
    requires IsHexDigit(c)
    ensures v < 16
    ensures IsDigit(c) ==> v == DigitValue(c)
  {
    if IsDigit(c) then DigitValue(c)
    else if 'a' <= c <= 'f' then c as int - 'a' as int + 10
    else c as int - 'A' as int + 10
  }

  /** The character `str.lower()` gives for an ASCII character. */
  function LowerAscii(c: char): char
  {
    if 'A' <= c <= 'Z' then (c as int + 32) as char else c
  }

  function LowerAll(s: string): (r: string)
    ensures |r| == |s|
  {
    seq(|s|, i requires 0 <= i < |s| => LowerAscii(s[i]))
  }

  /** The lower-case hex digit of a value below 16, as `format(v, 'x')` writes it. */
  function HexDigitOf(v: nat): (c: char)
    requires v < 16
    ensures IsHexDigit(c) && HexValue(c) == v
  {
    if v < 10 then ('0' as int + v) as char else ('a' as int + v - 10) as char
  }

  /** Reading a hex digit and writing it back in lower case loses only its case. */
  lemma HexDigitRoundTrip(c: char)
    requires IsHexDigit(c)
    ensures HexDigitOf(HexValue(c)) == LowerAscii(c)
  {
  }

  /** `format(v, '02x')` for a byte value. */
  function HexPair(v: nat): (s: string)
    requires v < 256
    ensures |s| == 2
  {
    [HexDigitOf(v / 16), HexDigitOf(v % 16)]
  }

  function DigitOf(v: nat): (c: char)
    requires v < 10
    ensures IsDigit(c) && DigitValue(c) == v
  {
    ('0' as int + v) as char
  }

  /** The number a string of decimal digits denotes. */
  function DecimalValue(s: string): nat
    requires AllDigits(s)
  {
    if |s| == 0 then 0 else 10 * DecimalValue(s[..|s| - 1]) + DigitValue(s[|s| - 1])
  }

  /** Decimal text as `str` writes a non-negative int: digits only, and no
      leading zero except in "0" itself. */
  predicate IsCanonicalDecimal(s: string)
  {
    |s| > 0 && AllDigits(s) && (s[0] == '0' ==> |s| == 1)
  }

  /** `str(n)` for n >= 0. */
  function NatToDecimal(n: nat): string
  {
    if n < 10 then [DigitOf(n)] else NatToDecimal(n / 10) + [DigitOf(n % 10)]
  }

  /** `str` writes a canonical decimal that denotes `n`. */
  lemma {:induction false} NatToDecimalFacts(n: nat)
    ensures IsCanonicalDecimal(NatToDecimal(n)) && DecimalValue(NatToDecimal(n)) == n
    decreases n
  {
    if n >= 10 {
      var prefix := NatToDecimal(n / 10);
      NatToDecimalFacts(n / 10);
      var s := prefix + [DigitOf(n % 10)];
      assert s == NatToDecimal(n);
      assert s[..|s| - 1] == prefix;
      assert s[0] == prefix[0];
      assert |prefix| == 1 ==> DecimalValue(prefix) == DigitValue(prefix[0]);
    }
  }

  /** `str(n)` for any int: a minus sign before the digits of a negative number. */
  function IntToDecimal(n: int): string
  {
    if n < 0 then "-" + NatToDecimal(-n) else NatToDecimal(n)
  }

  /** `str(n)` is the canonical decimal of `n`, after a minus sign when `n` is
      negative. */
  lemma IntToDecimalFacts(n: int)
    ensures var s := IntToDecimal(n);
            n >= 0 ==> IsCanonicalDecimal(s) && DecimalValue(s) == n
    ensures var s := IntToDecimal(n);
            n < 0 ==> |s| >= 2 && s[0] == '-' && IsCanonicalDecimal(s[1..]) && DecimalValue(s[1..]) == -n
  {
    if n < 0 {
      NatToDecimalFacts(-n);
      var t := NatToDecimal(-n);
      assert IntToDecimal(n) == "-" + t;
      assert ("-" + t)[1..] == t;
    } else {
      NatToDecimalFacts(n);
    }
  }

  /** Canonical decimal text is the text `str` gives for its value: reading and
      writing decimals are inverse to each other. */
  lemma {:induction false} DecimalRoundTrip(s: string)
    requires IsCanonicalDecimal(s)
    ensures NatToDecimal(DecimalValue(s)) == s
    decreases |s|
  {
    var n := DecimalValue(s);
    if |s| == 1 {
      assert s[..|s| - 1] == [];
      assert DecimalValue(s[..|s| - 1]) == 0;
      assert n == DigitValue(s[0]) && n < 10;
      assert [DigitOf(n)] == s;
    } else {
      var prefix := s[..|s| - 1];
      assert prefix[0] == s[0];
      assert IsCanonicalDecimal(prefix);
      DecimalPositive(prefix);
      DecimalRoundTrip(prefix);
      assert n / 10 == DecimalValue(prefix);
      assert n % 10 == DigitValue(s[|s| - 1]);
      assert s == prefix + [s[|s| - 1]];
    }
  }

  /** A canonical decimal of two or more digits starts with a non-zero digit,
      so its value is at least 1. */
  lemma {:induction false} DecimalPositive(s: string)
    requires IsCanonicalDecimal(s) && s[0] != '0'
    ensures DecimalValue(s) >= 1
    decreases |s|
  {
    if |s| > 1 {
      var prefix := s[..|s| - 1];
      assert prefix[0] == s[0];
      DecimalPositive(prefix);
    }
  }
}
