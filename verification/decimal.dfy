/** std::to_string for integers and std::stoull, base 10. */
module Decimal {
  import opened Results

  const TWO_64: nat := 0x1_0000_0000_0000_0000
  const TWO_63: int := 0x8000_0000_0000_0000

  type u64 = n: nat | n < TWO_64

  // ----- rendering -----

  function DigitChar(d: nat): char
    requires d < 10
  {
    ['0', '1', '2', '3', '4', '5', '6', '7', '8', '9'][d]
  }

  function NatText(n: nat): (text: string)
    ensures text != ""
  {
    if n < 10 then [DigitChar(n)] else NatText(n / 10) + [DigitChar(n % 10)]
  }

  /** std::to_string of a signed number. */
  function IntText(i: int): string {
    if i < 0 then "-" + NatText(-i) else NatText(i)
  }

  // ----- parsing -----

  datatype StoullError = InvalidArgument | OutOfRange

  predicate IsDigit(c: char) {
    '0' <= c <= '9'
  }

  function DigitValue(c: char): (d: nat)
    requires IsDigit(c)
    ensures d < 10
  {
    c as int - '0' as int
  }

  predicate AllDigits(s: string) {
    forall i :: 0 <= i < |s| ==> IsDigit(s[i])
  }

  /** isspace in the C locale. */
  predicate IsSpace(c: char) {
    c == ' ' || '\t' <= c <= '\r'
  }

  function SkipSpaces(s: string): string {
    if s != "" && IsSpace(s[0]) then SkipSpaces(s[1..]) else s
  }

  function LeadingDigits(s: string): (digits: string)
    ensures AllDigits(digits)
  {
    if s != "" && IsDigit(s[0]) then [s[0]] + LeadingDigits(s[1..]) else ""
  }

  function NatValue(digits: string): nat
    requires AllDigits(digits)
  {
    if digits == "" then 0 else 10 * NatValue(digits[..|digits| - 1]) + DigitValue(digits[|digits| - 1])
  }

  /**
   * std::stoull: optional spaces, an optional sign and the longest run of digits; the
   * rest is ignored. A minus sign negates the value modulo 2^64.
   */
  function Stoull(text: string): Result<u64, StoullError> {
    var s := SkipSpaces(text);
    var negative := s != "" && s[0] == '-';
    var digits := LeadingDigits(if s != "" && (s[0] == '-' || s[0] == '+') then s[1..] else s);
    if digits == "" then Failure(InvalidArgument)
    else
      var n := NatValue(digits);
      if TWO_64 <= n then Failure(OutOfRange)
      else Success(if negative then (TWO_64 - n) % TWO_64 else n)
  }

  // ----- the two together -----

  lemma {:induction false} NatTextValue(n: nat)
    ensures AllDigits(NatText(n)) && NatValue(NatText(n)) == n
  {
    if n >= 10 {
      NatTextValue(n / 10);
      var text := NatText(n);
      assert text[..|text| - 1] == NatText(n / 10);
    } else {
      assert NatValue("") == 0 && NatText(n)[..0] == "";
    }
  }

  lemma {:induction false} LeadingDigitsOfDigits(s: string)
    requires AllDigits(s)
    ensures LeadingDigits(s) == s
  {
    if s != "" {
      LeadingDigitsOfDigits(s[1..]);
    }
  }

  lemma NegatedModulo(n: nat)
    requires 0 < n < TWO_64
    ensures (TWO_64 - n) % TWO_64 == (0 - n as int) % TWO_64
  {
    assert 0 - n as int == (0 - 1) * TWO_64 + (TWO_64 - n);
  }

  // ----- what the two functions mean -----

  function Pow10(n: nat): nat {
    if n == 0 then 1 else 10 * Pow10(n - 1)
  }

  /** The value of a numeral, digit by digit from the front. */
  function PlaceValue(digits: string): nat
    requires AllDigits(digits)
  {
    if digits == "" then 0
    else (digits[0] as int - '0' as int) * Pow10(|digits| - 1) + PlaceValue(digits[1..])
  }

  lemma {:induction false} PlaceValueAppend(digits: string, c: char)
    requires AllDigits(digits) && '0' <= c <= '9'
    ensures AllDigits(digits + [c]) && PlaceValue(digits + [c]) == 10 * PlaceValue(digits) + (c as int - '0' as int)
  {
    var longer := digits + [c];
    if digits == "" {
      assert longer[1..] == "" && PlaceValue("") == 0;
    } else {
      PlaceValueAppend(digits[1..], c);
      assert longer[1..] == digits[1..] + [c];
      var d := digits[0] as int - '0' as int;
      assert Pow10(|digits|) == 10 * Pow10(|digits| - 1);
      assert d * Pow10(|digits|) == 10 * (d * Pow10(|digits| - 1));
    }
  }

  lemma {:induction false} NatValueIsPlaceValue(digits: string)
    requires AllDigits(digits)
    ensures NatValue(digits) == PlaceValue(digits)
  {
    if digits != "" {
      var n := |digits| - 1;
      NatValueIsPlaceValue(digits[..n]);
      PlaceValueAppend(digits[..n], digits[n]);
      assert digits == digits[..n] + [digits[n]];
    }
  }

  /** A number is rendered as its decimal numeral without leading zeros. */
  lemma {:induction false} NatTextIsNumeral(n: nat)
    ensures AllDigits(NatText(n)) && PlaceValue(NatText(n)) == n
    ensures NatText(n)[0] == '0' <==> n == 0
  {
    NatTextValue(n);
    NatValueIsPlaceValue(NatText(n));
    FirstDigit(n);
  }

  lemma {:induction false} FirstDigit(n: nat)
    ensures n > 0 ==> '1' <= NatText(n)[0] <= '9'
    ensures n == 0 ==> NatText(n)[0] == '0'
  {
    if n >= 10 {
      FirstDigit(n / 10);
    }
  }

  /** The decimal numeral of an integer: a minus sign if it is negative, no leading zeros. */
  predicate IsNumeralOf(text: string, v: int)
    decreases if v < 0 then 1 else 0
  {
    if v < 0 then text != "" && text[0] == '-' && IsNumeralOf(text[1..], -v)
    else text != "" && AllDigits(text) && PlaceValue(text) == v && (text[0] == '0' <==> v == 0)
  }

  lemma IntTextIsNumeral(v: int)
    ensures IsNumeralOf(IntText(v), v)
  {
    if v < 0 {
      NatTextIsNumeral(-v);
      assert IntText(v)[1..] == NatText(-v);
    } else {
      NatTextIsNumeral(v);
    }
  }

  predicate AllSpaces(s: string) {
    forall i :: 0 <= i < |s| ==> s[i] as int == 32 || 9 <= s[i] as int <= 13
  }

  /** A number as the standard describes it for strtoull: spaces, a sign or none, digits, anything else. */
  predicate NumberText(text: string, spaces: string, sign: string, digits: string, rest: string) {
    && text == spaces + (sign + (digits + rest))
    && AllSpaces(spaces) && (sign == "" || sign == "+" || sign == "-")
    && digits != "" && (forall i :: 0 <= i < |digits| ==> '0' <= digits[i] <= '9')
    && (rest != "" ==> !('0' <= rest[0] <= '9'))
  }

  lemma {:induction false} SkipAllSpaces(spaces: string, s: string)
    requires AllSpaces(spaces) && (s != "" ==> !IsSpace(s[0]))
    ensures SkipSpaces(spaces + s) == s
  {
    if spaces == "" {
      assert spaces + s == s;
    } else {
      SkipAllSpaces(spaces[1..], s);
      assert (spaces + s)[1..] == spaces[1..] + s;
    }
  }

  lemma {:induction false} LeadingDigitsBefore(digits: string, rest: string)
    requires AllDigits(digits) && (rest != "" ==> !IsDigit(rest[0]))
    ensures LeadingDigits(digits + rest) == digits
  {
    if digits == "" {
      assert digits + rest == rest;
    } else {
      LeadingDigitsBefore(digits[1..], rest);
      assert (digits + rest)[1..] == digits[1..] + rest;
      assert digits == [digits[0]] + digits[1..];
    }
  }

  /**
   * std::stoull of a number: out of range from 2^64 on, negated modulo 2^64 behind a minus sign, and
   * blind to what follows the digits.
   */
  lemma StoullOfNumber(text: string, spaces: string, sign: string, digits: string, rest: string)
    requires NumberText(text, spaces, sign, digits, rest)
    ensures AllDigits(digits)
    ensures Stoull(text)
         == if PlaceValue(digits) >= 0x1_0000_0000_0000_0000 then Failure(OutOfRange)
            else Success(if sign == "-" then (0 - PlaceValue(digits)) % TWO_64 else PlaceValue(digits))
  {
    assert AllDigits(digits);
    NatValueIsPlaceValue(digits);
    LeadingDigitsBefore(digits, rest);
    var s, n := sign + (digits + rest), NatValue(digits);
    if sign == "" {
      assert s == digits + rest;
    } else {
      assert s[0] == sign[0] && s[1..] == digits + rest;
    }
    SkipAllSpaces(spaces, s);
    if sign == "-" && 0 < n < TWO_64 {
      NegatedModulo(n);
    }
  }

  lemma {:induction false} SkippedSpaces(text: string) returns (spaces: string)
    ensures AllSpaces(spaces) && text == spaces + SkipSpaces(text)
  {
    if text != "" && IsSpace(text[0]) {
      spaces := SkippedSpaces(text[1..]);
      spaces := [text[0]] + spaces;
    } else {
      spaces := "";
    }
  }

  lemma {:induction false} BehindLeadingDigits(s: string) returns (rest: string)
    ensures s == LeadingDigits(s) + rest && (rest != "" ==> !IsDigit(rest[0]))
  {
    if s != "" && IsDigit(s[0]) {
      rest := BehindLeadingDigits(s[1..]);
      assert s == [s[0]] + (LeadingDigits(s[1..]) + rest);
    } else {
      rest := s;
    }
  }

  ghost predicate IsNumber(text: string) {
    exists spaces, sign, digits, rest :: NumberText(text, spaces, sign, digits, rest)
  }

  /** Any other text is an invalid argument, and no number is. */
  lemma InvalidArguments(text: string)
    ensures Stoull(text) == Failure(InvalidArgument) <==> !IsNumber(text)
  {
    if spaces, sign, digits, rest :| NumberText(text, spaces, sign, digits, rest) {
      StoullOfNumber(text, spaces, sign, digits, rest);
    } else {
      NoNumberFails(text);
    }
  }

  lemma NoNumberFails(text: string)
    requires !IsNumber(text)
    ensures Stoull(text) == Failure(InvalidArgument)
  {
    var s := SkipSpaces(text);
    var spaces := SkippedSpaces(text);
    var signed := s != "" && (s[0] == '-' || s[0] == '+');
    var sign := if signed then s[..1] else "";
    var unsigned := if signed then s[1..] else s;
    var rest := BehindLeadingDigits(unsigned);
    var digits := LeadingDigits(unsigned);
    assert s == sign + unsigned;
    assert digits != "" ==> NumberText(text, spaces, sign, digits, rest);
  }

  // ----- round trips -----

  /** Every unsigned 64-bit number survives rendering and parsing. */
  lemma UnsignedRoundTrip(n: u64)
    ensures Stoull(NatText(n)) == Success(n)
  {
    NumeralParses(n, "");
  }

  /** A signed 64-bit number comes back modulo 2^64. */
  lemma SignedRoundTrip(v: int)
    requires -TWO_63 <= v < TWO_63
    ensures Stoull(IntText(v)) == Success(v % TWO_64)
  {
    if v < 0 {
      NegativeRoundTrip(v, -v);
    } else {
      UnsignedRoundTrip(v);
      SmallModulo(v);
    }
  }

  lemma NegativeRoundTrip(v: int, n: u64)
    requires v < 0 && n == -v
    ensures Stoull(IntText(v)) == Success(v % TWO_64)
  {
    NumeralParses(n, "-");
    NegativeText(v, n);
    SameModulo(v, n);
  }

  lemma NegativeText(v: int, n: nat)
    requires v < 0 && n == -v
    ensures IntText(v) == "-" + NatText(n)
  {
  }

  lemma SameModulo(v: int, n: nat)
    requires n == -v
    ensures (0 - n) % TWO_64 == v % TWO_64
  {
  }

  lemma SmallModulo(v: int)
    requires 0 <= v < TWO_63
    ensures v % TWO_64 == v
  {
  }

  lemma NumeralParses(n: u64, sign: string)
    requires sign == "" || sign == "-"
    ensures Stoull(sign + NatText(n)) == Success(if sign == "-" then (0 - n) % TWO_64 else n)
    ensures sign == "" ==> sign + NatText(n) == NatText(n)
  {
    var text := sign + NatText(n);
    NatTextIsNumeral(n);
    assert text == "" + (sign + (NatText(n) + ""));
    StoullOfNumber(text, "", sign, NatText(n), "");
  }

  /** A text that starts with a letter is no number. */
  lemma WordIsNoNumber(word: string)
    requires word != "" && 'a' <= word[0] <= 'z'
    ensures !IsNumber(word) && Stoull(word) == Failure(InvalidArgument)
  {
    assert SkipSpaces(word) == word;
    InvalidArguments(word);
  }
}
