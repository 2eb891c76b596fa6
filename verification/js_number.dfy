/** `Number(s)` for a string: the StringToNumber conversion of section
    7.1.4.1.1 of the ECMAScript 2023 Language Specification, which the
    loose `==` applies when it compares a boolean with a string.

    A finite result is kept as an exact real: the rounding to the nearest
    double is not modelled. */
module JsNumber {
  import opened Wrappers
  import opened Strings

  /** A number value: finite, an infinity, or NaN. */
  datatype Number = Finite(value: real) | Infinite(negative: bool) | NaN

  /** The value of `c` as a hexadecimal digit, or 16 when it is none. */
  function DigitValue(c: char): (d: nat)
    ensures d <= 16
    ensures '0' <= c <= '9' ==> d == c as int - '0' as int
  {
    if '0' <= c <= '9' then c as int - '0' as int
    else if 'a' <= c <= 'f' then c as int - 'a' as int + 10
    else if 'A' <= c <= 'F' then c as int - 'A' as int + 10
    else 16
  }

  /** Every character of `s` is a digit in `radix`. */
  predicate IsDigits(s: string, radix: nat) {
    forall i :: 0 <= i < |s| ==> DigitValue(s[i]) < radix
  }

  /** The integer a run of digits denotes, most significant first. */
  function DigitsValue(s: string, radix: nat): nat
    decreases |s|
  {
    if |s| == 0 then 0 else DigitsValue(s[..|s| - 1], radix) * radix + DigitValue(s[|s| - 1])
  }

  function Pow10(k: int): (r: real)
    ensures r > 0.0
    decreases if k < 0 then -k else k
  {
    if k == 0 then 1.0 else if k > 0 then 10.0 * Pow10(k - 1) else Pow10(k + 1) / 10.0
  }

  /** The index of the first `c1` or `c2` in `s`, or `|s|` when there is
      none. */
  function IndexOfEither(s: string, c1: char, c2: char): (r: nat)
    ensures r <= |s|
    ensures forall i :: 0 <= i < r ==> s[i] != c1 && s[i] != c2
    ensures r < |s| ==> s[r] == c1 || s[r] == c2
    decreases |s|
  {
    if |s| == 0 || s[0] == c1 || s[0] == c2 then 0 else 1 + IndexOfEither(s[1..], c1, c2)
  }

  /** A `SignedInteger`: an optional sign, then at least one decimal
      digit. */
  function ExponentValue(x: string): Option<int> {
    var digits := if |x| > 0 && (x[0] == '+' || x[0] == '-') then x[1..] else x;
    var v: int := DigitsValue(digits, 10);
    if |digits| > 0 && IsDigits(digits, 10) then Some(if |x| > 0 && x[0] == '-' then -v else v)
    else None
  }

  /** A `StrUnsignedDecimalLiteral` other than `Infinity`: decimal digits
      with at most one `.` and at least one digit, then an optional
      exponent. */
  function UnsignedDecimalValue(u: string): Option<real> {
    var e := IndexOfEither(u, 'e', 'E');
    var mantissa := u[..e];
    var exponent := if e < |u| then ExponentValue(u[e + 1..]) else Some(0);
    var d := IndexOfEither(mantissa, '.', '.');
    var intPart := mantissa[..d];
    var fracPart := if d < |mantissa| then mantissa[d + 1..] else "";
    if exponent.Some? && |intPart| + |fracPart| > 0 && IsDigits(intPart + fracPart, 10) then
      Some(DigitsValue(intPart + fracPart, 10) as real * Pow10(exponent.value - |fracPart|))
    else None
  }

  /** The radix a `0x`, `0o` or `0b` prefix letter selects; 0 for any
      other character. */
  function RadixOf(c: char): nat {
    if c == 'x' || c == 'X' then 16
    else if c == 'o' || c == 'O' then 8
    else if c == 'b' || c == 'B' then 2
    else 0
  }

  /** StringToNumber: white space around the literal is ignored and a
      blank string is 0. */
  function StringToNumber(s: string): (r: Number)
    ensures IsBlank(s) ==> r == Finite(0.0)
  {
    LiteralToNumber(Trim(s))
  }

  /** The value of a trimmed literal: a non-decimal integer takes no sign,
      and anything that is not a literal is NaN. */
  function LiteralToNumber(t: string): Number {
    if |t| == 0 then Finite(0.0)
    else if |t| >= 2 && t[0] == '0' && RadixOf(t[1]) != 0 then
      var digits := t[2..];
      if |digits| > 0 && IsDigits(digits, RadixOf(t[1])) then Finite(DigitsValue(digits, RadixOf(t[1])) as real)
      else NaN
    else
      var negative := t[0] == '-';
      var u := if t[0] == '+' || t[0] == '-' then t[1..] else t;
      if u == "Infinity" then Infinite(negative)
      else
        match UnsignedDecimalValue(u)
        case Some(v) => Finite(if negative then -v else v)
        case None => NaN
  }

  /** The number a boolean converts to. */
  function BoolNumber(b: bool): real {
    if b then 1.0 else 0.0
  }

  /** `Number::equal`: NaN equals nothing, not even itself. */
  predicate NumberEquals(x: Number, y: Number) {
    match (x, y)
    case (Finite(u), Finite(v)) => u == v
    case (Infinite(m), Infinite(n)) => m == n
    case _ => false
  }

  // ---------------------------------------------------------------------
  // Printing and reading back

  lemma {:induction false} NatToStringDigits(n: nat)
    ensures |NatToString(n)| > 0
    ensures IsDigits(NatToString(n), 10)
    ensures forall i :: 0 <= i < |NatToString(n)| ==> '0' <= NatToString(n)[i] <= '9'
    ensures DigitsValue(NatToString(n), 10) == n
    decreases n
  {
    var s := NatToString(n);
    if n >= 10 {
      NatToStringDigits(n / 10);
      assert s == NatToString(n / 10) + [DigitChar(n % 10)];
      assert s[..|s| - 1] == NatToString(n / 10);
    }
  }

  /** The text of a non-negative integer is a non-empty run of decimal
      digits. */
  lemma NatToStringNumeral(n: nat)
    ensures |NatToString(n)| > 0 && forall i :: 0 <= i < |NatToString(n)| ==> '0' <= NatToString(n)[i] <= '9'
  {
    NatToStringDigits(n);
  }

  /** A decimal numeral of a non-negative integer with no sign, point or
      exponent reads back as its value. */
  lemma {:induction false} DecimalDigitsValue(u: string)
    requires |u| > 0 && forall i :: 0 <= i < |u| ==> '0' <= u[i] <= '9'
    ensures UnsignedDecimalValue(u) == Some(DigitsValue(u, 10) as real)
  {
    var e := IndexOfEither(u, 'e', 'E');
    assert e == |u|;
    assert u[..e] == u;
    var d := IndexOfEither(u, '.', '.');
    assert d == |u|;
    assert u[..d] + "" == u;
  }

  /** A string that neither starts nor ends with white space is its own
      trim. */
  lemma TrimmedAlready(t: string)
    requires |t| > 0 && !IsJsWhiteSpace(t[0]) && !IsJsWhiteSpace(t[|t| - 1])
    ensures Trim(t) == t
  {
    assert TrimStart(t) == t;
    assert TrimEnd(t) == t;
  }

  /** A literal that starts with a letter other than a digit, a sign, a
      point or the `I` of `Infinity` is not a number. */
  lemma LetterStartIsNaN(t: string)
    requires |t| > 0 && !IsJsWhiteSpace(t[0]) && !IsJsWhiteSpace(t[|t| - 1])
    requires DigitValue(t[0]) >= 10 && t[0] != '.' && t[0] != '+' && t[0] != '-' && t[0] != 'I'
    ensures StringToNumber(t) == NaN
  {
    TrimmedAlready(t);
    assert RadixOf(t[0]) == 0 || t[0] != '0';
    var e := IndexOfEither(t, 'e', 'E');
    var mantissa := t[..e];
    var d := IndexOfEither(mantissa, '.', '.');
    if e > 0 {
      assert mantissa[0] == t[0];
      assert d > 0;
      var digits := mantissa[..d] + (if d < |mantissa| then mantissa[d + 1..] else "");
      assert digits[0] == t[0];
      assert !IsDigits(digits, 10);
    }
    assert UnsignedDecimalValue(t) == None;
  }

  /** A run of decimal digits reads as the integer it denotes; white
      space, a sign, a point or an exponent play no part. */
  lemma DigitNumeralToNumber(t: string)
    requires |t| > 0 && forall i :: 0 <= i < |t| ==> '0' <= t[i] <= '9'
    ensures StringToNumber(t) == Finite(DigitsValue(t, 10) as real)
  {
    TrimmedAlready(t);
    assert !(|t| >= 2 && t[0] == '0' && RadixOf(t[1]) != 0) by {
      if |t| >= 2 { assert '0' <= t[1] <= '9'; }
    }
    assert t[0] != '+' && t[0] != '-' && t != "Infinity" by { assert '0' <= t[0] <= '9'; }
    DecimalDigitsValue(t);
  }

  /** A minus sign before a run of decimal digits negates its value. */
  lemma NegativeNumeralToNumber(t: string, digits: string)
    requires |digits| > 0 && forall i :: 0 <= i < |digits| ==> '0' <= digits[i] <= '9'
    requires |t| > 1 && t[0] == '-' && t[1..] == digits
    ensures StringToNumber(t) == Finite(-(DigitsValue(digits, 10) as real))
  {
    assert t[|t| - 1] == digits[|digits| - 1];
    TrimmedAlready(t);
    assert digits[0] != "Infinity"[0];
    DecimalDigitsValue(digits);
  }

  /** Printing a non-negative integer and reading it back gives the
      integer. */
  lemma NatToStringToNumber(n: nat)
    ensures StringToNumber(NatToString(n)) == Finite(n as real)
  {
    NatToStringDigits(n);
    DigitNumeralToNumber(NatToString(n));
  }

  /** The text of a negative integer is a minus sign before the digits of
      its magnitude. */
  lemma NegativeIntText(n: int)
    requires n < 0
    ensures var t := IntToString(n); |t| > 1 && t[0] == '-' && t[1..] == NatToString(-n)
  {
    NatToStringDigits(-n);
    assert IntToString(n) == "-" + NatToString(-n);
  }

  /** The magnitude of a negative integer, read from its digits. */
  lemma NegativeMagnitude(n: int)
    requires n < 0
    ensures DigitsValue(NatToString(-n), 10) as real == -(n as real)
  {
    NatToStringDigits(-n);
  }

  /** A negative integer's text reads as minus its magnitude. */
  lemma NegativeIntToNumber(n: int)
    requires n < 0
    ensures StringToNumber(IntToString(n)) == Finite(-(DigitsValue(NatToString(-n), 10) as real))
  {
    NatToStringNumeral(-n);
    NegativeIntText(n);
    NegativeNumeralToNumber(IntToString(n), NatToString(-n));
  }

  /** Printing an integer and reading it back gives the integer: the
      round trip of a template literal and `Number`. */
  lemma IntToStringToNumber(n: int)
    ensures StringToNumber(IntToString(n)) == Finite(n as real)
  {
    if n < 0 {
      NegativeIntToNumber(n);
      NegativeMagnitude(n);
    } else {
      NatToStringToNumber(n);
    }
  }
}
