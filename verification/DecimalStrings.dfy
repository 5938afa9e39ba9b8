/** The text as which a scaled integer is handed to the Decimal128 parser. */
module DecimalStrings {
  import opened Options
  import opened Decimals

  function Pow10(n: nat): (p: nat)
    ensures p > 0
  {
    if n == 0 then 1 else 10 * Pow10(n - 1)
  }

  function Zeros(n: nat): (s: string)
    ensures |s| == n && AllDigits(s)
  {
    if n == 0 then "" else Zeros(n - 1) + "0"
  }

  function Sign(negative: bool): string {
    if negative then "-" else ""
  }

  function Magnitude(value: int): nat {
    if value < 0 then -value else value
  }

  function DecimalString(value: int, scale: int): string {
    Sign(value < 0) + Scaled(ToDecimal(Magnitude(value)), scale)
  }

  /** Leading zeros, an inserted point, or appended zeros. */
  function Scaled(digits: string, scale: int): string {
    if scale >= |digits| then "0" + "." + (Zeros(scale - |digits|) + digits)
    else if scale >= 0 then
      var split := |digits| - scale;
      digits[..split] + "." + digits[split..]
    else digits + Zeros(-scale)
  }

  // ----- what a numeral denotes -----

  /** Digits with a sign, times ten to the exponent. */
  datatype Numeral = Numeral(negative: bool, digits: string, exponent: int)

  function FirstDot(s: string): (position: Option<nat>)
    ensures match position
            case Some(p) => p < |s| && s[p] == '.' && '.' !in s[..p]
            case None => '.' !in s
  {
    if s == "" then None
    else if s[0] == '.' then Some(0)
    else
      match FirstDot(s[1..])
      case None => None
      case Some(p) =>
        assert s[..p + 1] == [s[0]] + s[1..][..p];
        Some(p + 1)
  }

  /** Digits, optionally with a point among, before or after them. */
  function ParseUnsigned(s: string, negative: bool): (numeral: Option<Numeral>)
    ensures numeral.Some? ==> AllDigits(numeral.value.digits)
  {
    match FirstDot(s)
    case None => if s != "" && AllDigits(s) then Some(Numeral(negative, s, 0)) else None
    case Some(p) =>
      var whole, fraction := s[..p], s[p + 1..];
      if |s| > 1 && AllDigits(whole) && AllDigits(fraction) then
        Some(Numeral(negative, whole + fraction, -|fraction|))
      else None
  }

  function ParseNumeral(s: string): (numeral: Option<Numeral>)
    ensures numeral.Some? ==> AllDigits(numeral.value.digits)
  {
    if s != "" && s[0] == '-' then ParseUnsigned(s[1..], true) else ParseUnsigned(s, false)
  }

  function Coefficient(n: Numeral): int
    requires AllDigits(n.digits)
  {
    var magnitude: int := FromDecimal(n.digits);
    if n.negative then -magnitude else magnitude
  }

  function Value(coefficient: int, exponent: int): real {
    if exponent >= 0 then coefficient as real * Pow10(exponent) as real
    else coefficient as real / Pow10(-exponent) as real
  }

  // ----- the numeral that the text is parsed into -----

  function ScaledDigits(digits: string, scale: int): string {
    if scale >= |digits| then "0" + (Zeros(scale - |digits|) + digits)
    else if scale >= 0 then digits
    else digits + Zeros(-scale)
  }

  lemma ParsePoint(whole: string, fraction: string, negative: bool)
    requires AllDigits(whole) && AllDigits(fraction) && |whole| + |fraction| > 0
    ensures ParseUnsigned(whole + "." + fraction, negative) == Some(Numeral(negative, whole + fraction, -|fraction|))
  {
    var s := whole + "." + fraction;
    assert s[|whole|] == '.';
    assert forall i :: 0 <= i < |whole| ==> s[i] == whole[i];
    assert s[..|whole|] == whole && s[|whole| + 1..] == fraction;
  }

  lemma ScaledParses(negative: bool, digits: string, scale: int)
    requires digits != "" && AllDigits(digits)
    ensures ParseUnsigned(Scaled(digits, scale), negative)
         == Some(Numeral(negative, ScaledDigits(digits, scale), if scale >= 0 then -scale else 0))
    ensures Scaled(digits, scale) != "" && Scaled(digits, scale)[0] != '-'
  {
    if scale >= |digits| {
      ParsePoint("0", Zeros(scale - |digits|) + digits, negative);
    } else if scale >= 0 {
      var split := |digits| - scale;
      assert digits == digits[..split] + digits[split..];
      ParsePoint(digits[..split], digits[split..], negative);
    } else {
      ParseDigits(digits + Zeros(-scale), negative);
    }
  }

  lemma ParseDigits(digits: string, negative: bool)
    requires digits != "" && AllDigits(digits)
    ensures ParseUnsigned(digits, negative) == Some(Numeral(negative, digits, 0))
  {
    assert '.' !in digits;
  }

  lemma SignedParses(negative: bool, s: string)
    requires s != "" && s[0] != '-'
    ensures ParseNumeral(Sign(negative) + s) == ParseUnsigned(s, negative)
  {
    assert !negative ==> Sign(negative) + s == s;
    assert negative ==> (Sign(negative) + s)[1..] == s;
  }

  // ----- what its digits denote -----

  lemma {:induction false} LeadingZeros(n: nat, digits: string)
    requires AllDigits(digits)
    ensures FromDecimal(Zeros(n) + digits) == FromDecimal(digits)
    decreases n + |digits|
  {
    var s := Zeros(n) + digits;
    if digits != "" {
      assert s[..|s| - 1] == Zeros(n) + digits[..|digits| - 1];
      LeadingZeros(n, digits[..|digits| - 1]);
    } else if n > 0 {
      assert s[..|s| - 1] == Zeros(n - 1) + "";
      LeadingZeros(n - 1, "");
    }
  }

  lemma {:induction false} TrailingZeros(digits: string, n: nat)
    requires AllDigits(digits)
    ensures FromDecimal(digits + Zeros(n)) == FromDecimal(digits) * Pow10(n)
  {
    var s := digits + Zeros(n);
    if n == 0 {
      assert s == digits;
    } else {
      assert s[..|s| - 1] == digits + Zeros(n - 1);
      TrailingZeros(digits, n - 1);
      TenTimes(FromDecimal(digits), Pow10(n - 1));
    }
  }

  lemma TenTimes(x: int, p: int)
    ensures x * p * 10 == x * (10 * p)
  {
  }

  lemma ScaledDigitsValue(digits: string, scale: int)
    requires digits != "" && AllDigits(digits)
    ensures AllDigits(ScaledDigits(digits, scale))
    ensures scale >= 0 ==> FromDecimal(ScaledDigits(digits, scale)) == FromDecimal(digits)
    ensures scale < 0 ==> FromDecimal(ScaledDigits(digits, scale)) == FromDecimal(digits) * Pow10(-scale)
  {
    if scale >= |digits| {
      LeadingZeros(scale - |digits|, digits);
      LeadingZeros(1, Zeros(scale - |digits|) + digits);
      assert Zeros(1) == Zeros(0) + "0" == "0";
    } else if scale < 0 {
      TrailingZeros(digits, -scale);
    }
  }

  // ----- the text denotes the scaled value -----

  /**
   The exponent of the numeral is the negated scale, and its coefficient the value; a negative scale is
   multiplied out.
   */
  lemma DecimalStringDenotes(value: int, scale: int)
    ensures var n := ParseNumeral(DecimalString(value, scale));
      n.Some? && if scale >= 0 then Coefficient(n.value) == value && n.value.exponent == -scale
                 else Coefficient(n.value) == value * Pow10(-scale) && n.value.exponent == 0
  {
    var digits := ToDecimal(Magnitude(value));
    ScaledParses(value < 0, digits, scale);
    SignedParses(value < 0, Scaled(digits, scale));
    ScaledDigitsValue(digits, scale);
    DecimalRoundTrip(Magnitude(value));
    if scale < 0 {
      NegatedProduct(value, Pow10(-scale));
    }
  }

  lemma NegatedProduct(x: int, p: int)
    ensures -((-x) * p) == x * p
  {
  }

  lemma ProductValue(x: int, n: nat)
    ensures Value(x * Pow10(n), 0) == x as real * Pow10(n) as real
  {
    var p := Pow10(n);
    assert (x * p) as real == x as real * p as real;
    assert Pow10(0) == 1;
  }

  /** The text denotes value * 10^(-scale) exactly, for every value and scale. */
  lemma DecimalStringExact(value: int, scale: int)
    ensures var n := ParseNumeral(DecimalString(value, scale));
      n.Some? && Value(Coefficient(n.value), n.value.exponent) == Value(value, -scale)
  {
    DecimalStringDenotes(value, scale);
    var n := ParseNumeral(DecimalString(value, scale)).value;
    SameValue(value, scale, Coefficient(n), n.exponent);
  }

  lemma SameValue(value: int, scale: int, coefficient: int, exponent: int)
    requires if scale >= 0 then coefficient == value && exponent == -scale
             else coefficient == value * Pow10(-scale) && exponent == 0
    ensures Value(coefficient, exponent) == Value(value, -scale)
  {
    if scale < 0 {
      ProductValue(value, -scale);
    }
  }
}
