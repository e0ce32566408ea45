/** What `decode_bencoded_value` accepts, what it rejects and with which error, and the
    shape of everything it produces. */
module DecoderProperties {
  import opened Ascii
  import opened Decoder

  /** The values the decoder can produce: byte strings no longer than `i64::MAX` (their
      length is read as an `i64`), any `i64`, and lists in which only the last element
      may itself be a list, because a nested list takes the rest of its parent's body. */
  predicate WellShaped(v: Value) {
    match v
    case Str(x) => |x| <= I64_MAX
    case Int(_) => true
    case List(items) =>
      (forall k :: 0 <= k < |items| ==> WellShaped(items[k]))
      && (forall k :: 0 <= k < |items| - 1 ==> !items[k].List?)
  }

  /** Inputs the decoder refuses before looking further: the empty input, a first
      character that is not a digit, 'i' or 'l' (a dictionary's 'd' among them), and a
      list that does not end in 'e'. */
  lemma RejectedInputs(s: Text)
    ensures |s| == 0 ==> Decode(s) == Err(EmptyInput)
    ensures |s| > 0 && !IsDigit(s[0]) && s[0] != 'i' && s[0] != 'l' ==> Decode(s) == Err(Unhandled)
    ensures |s| > 0 && s[0] == 'l' && s[|s| - 1] != 'e' ==> Decode(s) == Err(Unhandled)
  {
  }

  /** `colon` is the position of the first ':' of `s`, and what precedes it is a
      length text starting with a digit. */
  predicate FirstColonAt(s: Text, colon: nat) {
    1 <= colon < |s| && IsDigit(s[0]) && s[colon] == ':' && ':' !in s[..colon]
  }

  /** The byte string is decoded when the length text before the first ':' is all
      digits (leading zeros allowed), its value N fits in an i64, and at least N
      characters follow the ':'; the decoder takes those N characters. */
  lemma StringDecoded(s: Text, colon: nat)
    requires FirstColonAt(s, colon)
    requires AllDigits(s[..colon]) && DigitsValue(s[..colon]) <= I64_MAX
    requires colon + 1 + DigitsValue(s[..colon]) <= |s|
    ensures var n := DigitsValue(s[..colon]);
      Decode(s) == Ok((Str(s[colon + 1..colon + 1 + n]), colon + 1 + n))
  {
    DigitFirst(s);
    StringBranchDecoded(s, colon);
  }

  /** The byte-string branch on its own, for `StringDecoded`. */
  lemma StringBranchDecoded(s: Text, colon: nat)
    requires FirstColonAt(s, colon)
    requires AllDigits(s[..colon]) && DigitsValue(s[..colon]) <= I64_MAX
    requires colon + 1 + DigitsValue(s[..colon]) <= |s|
    ensures var n := DigitsValue(s[..colon]);
      DecodeString(s) == Ok((Str(s[colon + 1..colon + 1 + n]), colon + 1 + n))
  {
    IndexOfFirst(s, ':', colon);
    ParseDigits(s[..colon]);
  }

  /** A length text that is not all digits, or too large for an i64, is refused. */
  lemma StringBadLength(s: Text, colon: nat)
    requires FirstColonAt(s, colon)
    requires !AllDigits(s[..colon]) || DigitsValue(s[..colon]) > I64_MAX
    ensures Decode(s) == Err(BadLength)
  {
    DigitFirst(s);
    IndexOfFirst(s, ':', colon);
    ParseUnsigned(s[..colon]);
  }

  /** A length larger than what follows the ':' is refused. */
  lemma StringTooShort(s: Text, colon: nat)
    requires FirstColonAt(s, colon)
    requires AllDigits(s[..colon]) && DigitsValue(s[..colon]) <= I64_MAX
    requires colon + 1 + DigitsValue(s[..colon]) > |s|
    ensures Decode(s) == Err(LengthOutOfRange)
  {
    DigitFirst(s);
    IndexOfFirst(s, ':', colon);
    ParseDigits(s[..colon]);
  }

  /** An input starting with a digit and holding no ':' is refused. */
  lemma StringWithoutColon(s: Text)
    requires |s| > 0 && IsDigit(s[0]) && ':' !in s
    ensures Decode(s) == Err(MissingColon)
  {
  }

  /** Every input starting with 'i' that contains an 'e': the text between the 'i' and
      the first 'e' must read as an i64 (sign, leading zeros and `-0` allowed), and the
      integer then takes the input up to and including that 'e'. */
  lemma IntegerBranch(s: Text, e: nat)
    requires 1 <= e < |s| && s[0] == 'i' && s[e] == 'e' && 'e' !in s[..e]
    ensures ParseI64(s[1..e]).None? ==> Decode(s) == Err(BadInteger)
    ensures ParseI64(s[1..e]).Some? ==> Decode(s) == Ok((Int(ParseI64(s[1..e]).value), e + 1))
  {
    IntegerFirst(s);
    IndexOfFirst(s, 'e', e);
  }

  /** An input starting with 'i' and holding no 'e' is refused. */
  lemma IntegerWithoutEnd(s: Text)
    requires |s| > 0 && s[0] == 'i' && 'e' !in s
    ensures Decode(s) == Err(MissingEnd)
  {
  }

  /** A decoded list always came from an input that starts with 'l' and ends with 'e',
      took the whole input, and holds the elements of the text in between. */
  lemma ListFraming(s: Text)
    requires Decode(s).Ok? && Decode(s).value.0.List?
    ensures |s| >= 2 && s[0] == 'l' && s[|s| - 1] == 'e' && Decode(s).value.1 == |s|
    ensures DecodeElements(s[1..|s| - 1]) == Ok(Decode(s).value.0.items)
  {
  }

  /** Only the last element of a list body can be a list: a nested list takes every
      character left in the body. */
  lemma {:induction false} NestedListIsLast(body: Text, k: nat)
    requires DecodeElements(body).Ok?
    requires k < |DecodeElements(body).value| && DecodeElements(body).value[k].List?
    ensures k == |DecodeElements(body).value| - 1
  {
    var (v, n) := Decode(body).value;
    if k == 0 {
      ListFraming(body);
      assert body[n..] == [];
    } else {
      NestedListIsLast(body[n..], k - 1);
    }
  }

  /** Everything the decoder produces is well shaped. */
  lemma {:induction false} DecodedIsWellShaped(s: Text)
    requires Decode(s).Ok?
    ensures WellShaped(Decode(s).value.0)
    decreases |s|, 0
  {
    var v := Decode(s).value.0;
    if v.List? {
      ListFraming(s);
      ElementsWellShaped(s[1..|s| - 1]);
    }
  }

  /** The elements of a list body are well shaped, and none but the last is a list. */
  lemma {:induction false} ElementsWellShaped(body: Text)
    requires DecodeElements(body).Ok?
    ensures WellShaped(List(DecodeElements(body).value))
    decreases |body|, 1
  {
    var items := DecodeElements(body).value;
    forall k | 0 <= k < |items| - 1
      ensures !items[k].List?
    {
      if items[k].List? {
        NestedListIsLast(body, k);
      }
    }
    if |items| > 0 {
      var (v, n) := Decode(body).value;
      DecodedIsWellShaped(body);
      ElementsWellShaped(body[n..]);
      assert items == [v] + DecodeElements(body[n..]).value;
    }
  }
}
