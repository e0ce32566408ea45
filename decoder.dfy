/** The bencode decoder `decode_bencoded_value` (src/main.rs): byte strings `N:xxxx`,
    integers `i…e` and lists `l…e`, each decoded value paired with the number of
    characters it took from the front of the input. Every panic of the original
    (an `unwrap` on nothing, a slice out of range, the final `panic!`) is an `Err`. */
module Decoder {
  import opened Ascii

  /** A decoded value; dictionaries are not decoded. */
  datatype Value = Str(chars: Text) | Int(n: i64) | List(items: seq<Value>)

  /** One constructor per place where the original panics. */
  datatype Error =
    | EmptyInput        // no first character to inspect
    | MissingColon      // a byte string without ':'
    | BadLength         // the length before ':' is not an i64
    | LengthOutOfRange  // fewer characters after ':' than the length announces
    | MissingEnd        // an integer without any 'e'
    | BadInteger        // the text between 'i' and the first 'e' is not an i64
    | Unhandled         // any other first character, or a list not ending in 'e'

  datatype Result<T> = Ok(value: T) | Err(error: Error)

  /** The byte-string branch, entered when the first character is a digit. */
  function DecodeString(s: Text): (r: Result<(Value, nat)>)
    requires |s| > 0 && IsDigit(s[0])
    ensures r.Ok? ==> r.value.0.Str? && 2 <= r.value.1 <= |s|
  {
    match IndexOf(s, ':')
    case None => Err(MissingColon)
    case Some(colon) =>
      match ParseI64(s[..colon])
      case None => Err(BadLength)
      case Some(number) =>
        // the length text starts with a digit, so it reads as a non-negative number
        var end := colon + 1 + number as int;
        if end > |s| then Err(LengthOutOfRange)
        else Ok((Str(s[colon + 1..end]), end))
  }

  /** The integer branch, entered when the first character is 'i'. */
  function DecodeInteger(s: Text): (r: Result<(Value, nat)>)
    requires |s| > 0 && s[0] == 'i'
    ensures r.Ok? ==> r.value.0.Int? && 2 <= r.value.1 <= |s|
  {
    match IndexOf(s, 'e')
    case None => Err(MissingEnd)
    case Some(e) =>
      match ParseI64(s[1..e])
      case None => Err(BadInteger)
      case Some(number) => Ok((Int(number), e + 1))
  }

  /** `prefix` put in front of the items of a successful `r`; errors pass through. */
  function Prefixed(prefix: seq<Value>, r: Result<seq<Value>>): Result<seq<Value>> {
    match r
    case Ok(rest) => Ok(prefix + rest)
    case Err(e) => Err(e)
  }

  /** What `decode_bencoded_value` returns for `s`. A list is recognised only when the
      whole of `s` starts with 'l' and ends with 'e', and then takes all of `s`. */
  function Decode(s: Text): (r: Result<(Value, nat)>)
    ensures r.Ok? ==> 2 <= r.value.1 <= |s|
    ensures r.Ok? && r.value.0.List? ==> r.value.1 == |s|
    decreases |s|, 0
  {
    if |s| == 0 then Err(EmptyInput)
    else if IsDigit(s[0]) then DecodeString(s)
    else if s[0] == 'i' then DecodeInteger(s)
    else if s[0] == 'l' && s[|s| - 1] == 'e' then
      match DecodeElements(s[1..|s| - 1])
      case Err(e) => Err(e)
      case Ok(items) => Ok((List(items), |s|))
    else Err(Unhandled)
  }

  /** The elements of a list body: decode one value from the front, drop what it
      took, and go on until nothing is left. Any element's error is the list's error.
      Every element takes at least two characters, so a body holds at most half as
      many elements as characters. */
  function DecodeElements(body: Text): (r: Result<seq<Value>>)
    ensures r.Ok? ==> 2 * |r.value| <= |body|
    decreases |body|, 1
  {
    if |body| == 0 then Ok([])
    else
      match Decode(body)
      case Err(e) => Err(e)
      case Ok((v, n)) => Prefixed([v], DecodeElements(body[n..]))
  }

  /** Input starting with a digit is a byte string. */
  lemma DigitFirst(s: Text)
    requires |s| > 0 && IsDigit(s[0])
    ensures Decode(s) == DecodeString(s)
  {
  }

  /** Input starting with 'i' is an integer. */
  lemma IntegerFirst(s: Text)
    requires |s| > 0 && s[0] == 'i'
    ensures Decode(s) == DecodeInteger(s)
  {
  }

  /** A list's result is its body's result. */
  lemma DecodeList(s: Text)
    requires |s| >= 2 && s[0] == 'l' && s[|s| - 1] == 'e'
    ensures DecodeElements(s[1..|s| - 1]).Err? ==> Decode(s) == Err(DecodeElements(s[1..|s| - 1]).error)
    ensures DecodeElements(s[1..|s| - 1]).Ok? ==> Decode(s) == Ok((List(DecodeElements(s[1..|s| - 1]).value), |s|))
  {
  }

  lemma PrefixedNothing(r: Result<seq<Value>>)
    ensures Prefixed([], r) == r
  {
    if r.Ok? {
      assert [] + r.value == r.value;
    }
  }

  /** One round of the list loop: decoding the front element of a non-empty body moves
      it from the body's result into the prefix, or ends the list with its error. */
  lemma ElementsStep(prefix: seq<Value>, body: Text)
    requires |body| > 0
    ensures Decode(body).Err? ==> Prefixed(prefix, DecodeElements(body)) == Err(Decode(body).error)
    ensures Decode(body).Ok? ==>
      Prefixed(prefix, DecodeElements(body))
      == Prefixed(prefix + [Decode(body).value.0], DecodeElements(body[Decode(body).value.1..]))
  {
    var d := Decode(body);
    assert DecodeElements(body)
        == if d.Err? then Err(d.error) else Prefixed([d.value.0], DecodeElements(body[d.value.1..]));
    if d.Ok? {
      var rest := DecodeElements(body[d.value.1..]);
      if rest.Ok? {
        assert prefix + ([d.value.0] + rest.value) == (prefix + [d.value.0]) + rest.value;
      }
    }
  }

  /** `decode_bencoded_value` itself, dispatching on the first character. */
  method DecodeBencodedValue(s: Text) returns (r: Result<(Value, nat)>)
    ensures r == Decode(s)
    decreases |s|, 2
  {
    if |s| == 0 {
      r := Err(EmptyInput);
    } else if IsDigit(s[0]) {
      r := DecodeString(s);
    } else if s[0] == 'i' {
      r := DecodeInteger(s);
    } else if s[0] == 'l' && s[|s| - 1] == 'e' {
      r := DecodeListBranch(s);
    } else {
      r := Err(Unhandled);
    }
  }

  /** The list branch of `decode_bencoded_value`: it walks the body between the outer
      'l' and 'e' with the index `i` and the remaining slice `trimmed`, decoding one
      element per round by a recursive call, and answers with the whole input length. */
  method DecodeListBranch(s: Text) returns (r: Result<(Value, nat)>)
    requires |s| >= 2 && s[0] == 'l' && s[|s| - 1] == 'e'
    ensures r == Decode(s)
    decreases |s|, 1
  {
    var len := |s|;
    var trimmed := s[1..len - 1];
    var i := 0;
    var answer: seq<Value> := [];
    ghost var body := trimmed;
    DecodeList(s);
    PrefixedNothing(DecodeElements(body));
    while i < len - 2
      invariant 0 <= i <= len - 2
      invariant trimmed == s[i + 1..len - 1]
      invariant DecodeElements(body) == Prefixed(answer, DecodeElements(trimmed))
      decreases len - 2 - i
    {
      var step := DecodeBencodedValue(trimmed);
      ElementsStep(answer, trimmed);
      if step.Err? {
        return Err(step.error);
      }
      var (decoded, length) := step.value;
      ghost var remaining := trimmed[length..];
      answer := answer + [decoded];
      i := i + length;
      trimmed := s[i + 1..len - 1];
      assert trimmed == remaining;
    }
    assert i == len - 2;
    assert trimmed == [] && answer + [] == answer;
    assert DecodeElements(body) == Ok(answer);
    r := Ok((List(answer), len));
  }
}
