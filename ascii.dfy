/** Characters, decimal digits and Rust's `str::parse::<i64>` as the decoder uses them.
    The decoder's input is any sequence of characters, each read as one byte. This
    agrees with the original only on ASCII text, where slicing by byte index and
    counting characters coincide; on other text the original may panic where the
    model does not. The module's name says how characters are read (one byte each),
    not that other characters are excluded. */
module Ascii {

  /** The decoder's input and the contents of a decoded string: any characters, each
      standing for one byte. The model is faithful to the original only on ASCII. */
  type Text = seq<char>

  const I64_MIN: int := -0x8000_0000_0000_0000
  const I64_MAX: int := 0x7FFF_FFFF_FFFF_FFFF

  /** Rust's `i64`. */
  newtype i64 = x: int | -0x8000_0000_0000_0000 <= x <= 0x7FFF_FFFF_FFFF_FFFF

  datatype Option<T> = None | Some(value: T)

  /** `char::is_digit(10)`: the ASCII digits only. */
  predicate IsDigit(c: char) {
    '0' <= c <= '9'
  }

  /** The digits are exactly the ten characters `0` to `9`. */
  lemma DigitChars(c: char)
    ensures IsDigit(c) <==> c in "0123456789"
  {
    if IsDigit(c) {
      assert c == "0123456789"[c as int - '0' as int];
    }
  }

  predicate AllDigits(t: Text) {
    forall j :: 0 <= j < |t| ==> IsDigit(t[j])
  }

  function DigitValue(c: char): nat
    requires IsDigit(c)
  {
    c as int - '0' as int
  }

  function DigitChar(d: nat): (c: char)
    requires d < 10
    ensures IsDigit(c) && DigitValue(c) == d
  {
    ('0' as int + d) as char
  }

  /** The number a string of decimal digits denotes (leading zeros allowed). */
  function DigitsValue(t: Text): nat
    requires AllDigits(t)
  {
    if |t| == 0 then 0 else 10 * DigitsValue(t[..|t| - 1]) + DigitValue(t[|t| - 1])
  }

  /** The canonical decimal rendering of a natural number: no sign, no leading zero. */
  function DecimalString(n: nat): (t: Text)
    ensures |t| > 0 && AllDigits(t)
    ensures t[0] == '0' ==> n == 0
  {
    if n < 10 then [DigitChar(n)] else DecimalString(n / 10) + [DigitChar(n % 10)]
  }

  /** The canonical decimal rendering of an integer: `-` for negatives only. */
  function IntText(n: int): (t: Text)
    ensures |t| > 0 && 'e' !in t && ':' !in t
  {
    if n < 0 then ['-'] + DecimalString(-n) else DecimalString(n)
  }

  /** Rust's `<i64 as FromStr>::from_str`: an optional `+` or `-`, then at least one
      ASCII digit and nothing else, and the value must fit in an `i64`.
      Leading zeros and `-0` are accepted. */
  function ParseI64(t: Text): (r: Option<i64>)
    ensures r.Some? ==> |t| > 0 && (IsDigit(t[0]) || t[0] == '+' || t[0] == '-')
    ensures r.Some? && IsDigit(t[0]) ==> AllDigits(t) && r.value as int == DigitsValue(t)
  {
    if |t| == 0 then None
    else
      var digits := if t[0] == '+' || t[0] == '-' then t[1..] else t;
      if |digits| == 0 || !AllDigits(digits) then None
      else
        var v: int := if t[0] == '-' then -(DigitsValue(digits) as int) else DigitsValue(digits);
        if I64_MIN <= v <= I64_MAX then Some(v as i64) else None
  }

  /** `str::find`: the index of the first occurrence of `c`, if any. */
  function IndexOf(s: Text, c: char): (r: Option<nat>)
    ensures r.Some? ==> r.value < |s| && s[r.value] == c && c !in s[..r.value]
    ensures r.None? ==> c !in s
  {
    if |s| == 0 then None
    else if s[0] == c then Some(0)
    else
      match IndexOf(s[1..], c)
      case None => None
      case Some(k) =>
        assert s[1..][..k] == s[1..k + 1];
        Some(k + 1)
  }

  /** `IndexOf` finds exactly the first occurrence. */
  lemma IndexOfFirst(s: Text, c: char, k: nat)
    requires k < |s| && s[k] == c && c !in s[..k]
    ensures IndexOf(s, c) == Some(k)
  {
    var r := IndexOf(s, c);
    assert r.Some? by { assert s[k] in s; }
  }

  /** Reading back the canonical decimal rendering gives the number. */
  lemma {:induction false} DecimalRoundTrip(n: nat)
    ensures DigitsValue(DecimalString(n)) == n
  {
    if n >= 10 {
      var t := DecimalString(n);
      assert t[..|t| - 1] == DecimalString(n / 10);
      DecimalRoundTrip(n / 10);
    }
  }

  /** A leading zero does not change the value of a digit string. */
  lemma {:induction false} LeadingZero(t: Text)
    requires AllDigits(t)
    ensures AllDigits(['0'] + t) && DigitsValue(['0'] + t) == DigitsValue(t)
  {
    if |t| > 0 {
      var z := ['0'] + t;
      assert z[..|z| - 1] == ['0'] + t[..|t| - 1];
      LeadingZero(t[..|t| - 1]);
    }
  }

  /** Parsing the canonical rendering of any `i64` gives it back. */
  lemma ParseIntText(n: i64)
    ensures ParseI64(IntText(n as int)) == Some(n)
  {
    var t := IntText(n as int);
    if n < 0 {
      assert t[1..] == DecimalString(-(n as int));
      DecimalRoundTrip(-(n as int));
    } else {
      DecimalRoundTrip(n as int);
    }
  }

  /** A digit string whose value fits in an `i64` parses to that value. */
  lemma ParseDigits(t: Text)
    requires |t| > 0 && AllDigits(t) && DigitsValue(t) <= I64_MAX
    ensures ParseI64(t) == Some(DigitsValue(t) as i64)
  {
  }

  /** Text that is empty or starts with anything but a digit or a sign does not parse. */
  lemma ParseOther(t: Text)
    requires |t| == 0 || (!IsDigit(t[0]) && t[0] != '+' && t[0] != '-')
    ensures ParseI64(t).None?
  {
  }

  /** On text that starts with a sign, parsing succeeds exactly when digits follow the
      sign and the signed value fits in an `i64`; `-0` reads as zero. */
  lemma ParseSigned(t: Text)
    requires |t| > 0 && (t[0] == '+' || t[0] == '-')
    ensures ParseI64(t).Some? <==>
      |t| > 1 && AllDigits(t[1..])
      && (t[0] == '+' ==> DigitsValue(t[1..]) <= I64_MAX)
      && (t[0] == '-' ==> DigitsValue(t[1..]) <= -I64_MIN)
    ensures ParseI64(t).Some? && t[0] == '+' ==> ParseI64(t).value as int == DigitsValue(t[1..])
    ensures ParseI64(t).Some? && t[0] == '-' ==> ParseI64(t).value as int == -(DigitsValue(t[1..]) as int)
  {
  }

  /** On text that starts with a digit (no sign), parsing succeeds exactly when the text
      is all digits and its value is at most `i64::MAX`. */
  lemma ParseUnsigned(t: Text)
    requires |t| > 0 && IsDigit(t[0])
    ensures ParseI64(t).Some? <==> AllDigits(t) && DigitsValue(t) <= I64_MAX
  {
  }
}
