/** Decimal integer text as Go reads and writes it: `strconv.Atoi` and the
    `%d` verb of `fmt`, for Go's `int` on a 64-bit platform. */
module GoStrconv {
  import opened Options
  import opened GoStrings

  const MinInt64: int := -0x8000_0000_0000_0000
  const MaxInt64: int := 0x7FFF_FFFF_FFFF_FFFF

  /** Go's `int` on a 64-bit platform. */
  newtype int64 = x: int | MinInt64 <= x <= MaxInt64

  predicate IsDigit(c: char) {
    '0' <= c <= '9'
  }

  predicate AllDigits(s: string) {
    forall i | 0 <= i < |s| :: IsDigit(s[i])
  }

  function DigitValue(c: char): (d: nat)
    requires IsDigit(c)
    ensures d < 10
  {
    c as int - '0' as int
  }

  function DigitChar(d: nat): (c: char)
    requires d < 10
    ensures IsDigit(c) && DigitValue(c) == d
  {
    (d + '0' as int) as char
  }

  function Pow10(n: nat): (p: nat)
    ensures p >= 1
  {
    if n == 0 then 1 else 10 * Pow10(n - 1)
  }

  /** The number a string of decimal digits denotes, most significant digit
      first; leading zeros are allowed. */
  function DecimalValue(s: string): nat
    requires AllDigits(s)
  {
    if |s| == 0 then 0 else 10 * DecimalValue(s[..|s| - 1]) + DigitValue(s[|s| - 1])
  }

  /** The shortest decimal spelling of `n` ("0" for zero). */
  function NatToDecimal(n: nat): (s: string)
    ensures |s| > 0 && AllDigits(s)
    ensures n > 0 ==> s[0] != '0'
  {
    if n < 10 then [DigitChar(n)] else NatToDecimal(n / 10) + [DigitChar(n % 10)]
  }

  /** The digits of a numeral: what follows an optional leading sign. */
  function DigitsOf(s: string): string
    requires |s| > 0
  {
    if s[0] == '+' || s[0] == '-' then s[1..] else s
  }

  /** What `strconv.Atoi` accepts syntactically: an optional `+` or `-`,
      then one or more ASCII digits, and nothing else. */
  predicate IsSignedDecimal(s: string) {
    |s| > 0 && |DigitsOf(s)| > 0 && AllDigits(DigitsOf(s))
  }

  /** The integer a signed decimal numeral denotes, unbounded. */
  function SignedValue(s: string): int
    requires IsSignedDecimal(s)
  {
    if s[0] == '-' then 0 - DecimalValue(DigitsOf(s)) else DecimalValue(DigitsOf(s))
  }

  /** `strconv.Atoi`: `None` stands for a non-nil error, either a syntax
      error or a value outside the 64-bit range. A text is accepted exactly
      when it is a signed decimal numeral whose value fits in 64 bits, and
      then that value is returned. */
  function Atoi(s: string): (r: Option<int64>)
    ensures r.Some? <==> IsSignedDecimal(s) && MinInt64 <= SignedValue(s) <= MaxInt64
    ensures r.Some? ==> r.value as int == SignedValue(s)
  {
    if |s| == 0 then None
    else
      var digits := if s[0] == '+' || s[0] == '-' then s[1..] else s;
      if |digits| == 0 || !AllDigits(digits) then None
      else
        var n: int := if s[0] == '-' then 0 - DecimalValue(digits) else DecimalValue(digits);
        if MinInt64 <= n <= MaxInt64 then Some(n as int64) else None
  }

  /** `fmt.Sprintf("%d", x)`: a minus sign for negative values, then the
      shortest decimal spelling of the magnitude. */
  function FormatInt(x: int64): (s: string)
    ensures |s| > 0
    ensures forall i | 0 <= i < |s| :: IsDigit(s[i]) || (i == 0 && s[i] == '-')
    ensures s[0] == '-' <==> x < 0
    ensures x > 0 ==> s[0] != '0'
    ensures x < 0 ==> |s| > 1 && s[1] != '0'
  {
    if x < 0 then "-" + NatToDecimal(-(x as int)) else NatToDecimal(x as int)
  }

  /** `%d` never writes a dot, an underscore, an equals sign or white space. */
  lemma FormatIntPlain(x: int64)
    ensures '.' !in FormatInt(x) && '_' !in FormatInt(x) && '=' !in FormatInt(x)
    ensures IsWord(FormatInt(x))
  {
    var s := FormatInt(x);
    forall i | 0 <= i < |s|
      ensures s[i] != '.' && s[i] != '_' && s[i] != '=' && !IsSpace(s[i])
    {
      assert IsDigit(s[i]) || s[i] == '-';
    }
  }

  lemma {:induction false} DecimalValueOfNatToDecimal(n: nat)
    ensures DecimalValue(NatToDecimal(n)) == n
  {
    var s := NatToDecimal(n);
    if n >= 10 {
      assert s[..|s| - 1] == NatToDecimal(n / 10);
      DecimalValueOfNatToDecimal(n / 10);
    }
  }

  lemma {:induction false} DecimalValueBound(s: string)
    requires AllDigits(s)
    ensures DecimalValue(s) < Pow10(|s|)
  {
    if |s| > 0 {
      DecimalValueBound(s[..|s| - 1]);
    }
  }

  /** Reading back what `%d` wrote gives the same integer, for every 64-bit value. */
  lemma AtoiFormatInt(x: int64)
    ensures Atoi(FormatInt(x)) == Some(x)
  {
    var s := FormatInt(x);
    if x < 0 {
      assert s[1..] == NatToDecimal(-(x as int));
      DecimalValueOfNatToDecimal(-(x as int));
    } else {
      DecimalValueOfNatToDecimal(x as int);
    }
  }

  /** A numeral whose digits have no leading zero is at least the power of
      ten just below its length. */
  lemma {:induction false} DecimalValueLowerBound(s: string)
    requires AllDigits(s) && |s| > 0 && s[0] != '0'
    ensures DecimalValue(s) >= Pow10(|s| - 1)
  {
    if |s| > 1 {
      var prefix := s[..|s| - 1];
      assert prefix[0] == s[0];
      DecimalValueLowerBound(prefix);
    }
  }

  /** Every signed decimal numeral of at most 18 digits is accepted, with the
      value its digits denote. */
  lemma AtoiShortLiteral(s: string)
    requires IsSignedDecimal(s) && |DigitsOf(s)| <= 18
    ensures Atoi(s).Some? && Atoi(s).value as int == SignedValue(s)
  {
    DecimalValueBound(DigitsOf(s));
    Pow10Monotone(|DigitsOf(s)|, 18);
    Pow10Eighteen();
  }

  /** A numeral of 20 or more digits without a leading zero lies outside the
      64-bit range and is rejected, whatever its sign. */
  lemma AtoiOutOfRange(s: string)
    requires IsSignedDecimal(s) && DigitsOf(s)[0] != '0' && |DigitsOf(s)| >= 20
    ensures Atoi(s) == None
  {
    DecimalValueLowerBound(DigitsOf(s));
    Pow10Monotone(19, |DigitsOf(s)| - 1);
    Pow10Eighteen();
    assert Pow10(19) == 10 * Pow10(18);
  }

  lemma Pow10Eighteen()
    ensures Pow10(18) == 1_000_000_000_000_000_000
  {
    assert Pow10(2) == 100;
    assert Pow10(4) == 10_000;
    assert Pow10(6) == 1_000_000;
    assert Pow10(8) == 100_000_000;
    assert Pow10(10) == 10_000_000_000;
    assert Pow10(12) == 1_000_000_000_000;
    assert Pow10(14) == 100_000_000_000_000;
    assert Pow10(16) == 10_000_000_000_000_000;
  }

  lemma {:induction false} Pow10Monotone(m: nat, n: nat)
    requires m <= n
    ensures Pow10(m) <= Pow10(n)
  {
    if m < n {
      Pow10Monotone(m, n - 1);
    }
  }
}
