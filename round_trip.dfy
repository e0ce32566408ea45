/** The canonical bencode rendering of a value, used only to state what the decoder
    accepts: decoding the rendering of any well-shaped value gives that value back and
    takes the whole rendering, so the well-shaped values are exactly what the decoder
    can produce. There is no encoder in the original program. */
module RoundTrip {
  import opened Ascii
  import opened Decoder
  import opened DecoderProperties

  /** Canonical bencode: `N:xxxx`, `i<decimal>e`, `l<elements>e`. */
  function Encode(v: Value): (t: Text)
    ensures |t| >= 2
    decreases v, 1
  {
    match v
    case Str(x) => DecimalString(|x|) + [':'] + x
    case Int(n) => ['i'] + IntText(n as int) + ['e']
    case List(items) => ['l'] + EncodeAll(items) + ['e']
  }

  /** The renderings of `items`, one after another. */
  function EncodeAll(items: seq<Value>): Text
    decreases items, 0
  {
    if |items| == 0 then [] else Encode(items[0]) + EncodeAll(items[1..])
  }

  /** The three parts of a rendering `a + b + c` found at the front of `s`. */
  lemma Parts(a: Text, b: Text, c: Text, s: Text)
    requires |a + b + c| <= |s| && s[..|a + b + c|] == a + b + c
    ensures s[..|a|] == a && s[|a|..|a| + |b|] == b && s[|a| + |b|..|a| + |b| + |c|] == c
  {
    var t := a + b + c;
    assert s[..|a|] == t[..|a|];
    assert s[|a|..|a| + |b|] == t[|a|..|a| + |b|];
    assert s[|a| + |b|..|t|] == t[|a| + |b|..];
  }

  /** A byte string is decoded from a digit text `d` giving its length, ':' and its
      characters at the front of `s`, whatever follows them. */
  lemma StrDecoded(d: Text, x: Text, s: Text)
    requires |d| > 0 && AllDigits(d) && DigitsValue(d) == |x| <= I64_MAX
    requires |d + [':'] + x| <= |s| && s[..|d + [':'] + x|] == d + [':'] + x
    ensures Decode(s) == Ok((Str(x), |d + [':'] + x|))
  {
    Parts(d, [':'], x, s);
    assert s[|d|] == ':';
    StringDecoded(s, |d|);
  }

  /** An integer is decoded from 'i', a text reading `n` and free of 'e', and 'e' at
      the front of `s`, whatever follows them. */
  lemma IntDecoded(n: i64, digits: Text, s: Text)
    requires ParseI64(digits) == Some(n) && 'e' !in digits
    requires |['i'] + digits + ['e']| <= |s| && s[..|['i'] + digits + ['e']|] == ['i'] + digits + ['e']
    ensures Decode(s) == Ok((Int(n), |['i'] + digits + ['e']|))
  {
    Parts(['i'], digits, ['e'], s);
    var e := |digits| + 1;
    assert s[..e] == ['i'] + digits;
    IntegerBranch(s, e);
  }

  /** The rendering of a byte string: its length in canonical decimal, ':', itself. */
  lemma StrRendering(x: Text) returns (d: Text)
    ensures Encode(Str(x)) == d + [':'] + x
    ensures |d| > 0 && AllDigits(d) && DigitsValue(d) == |x|
  {
    d := DecimalString(|x|);
    DecimalRoundTrip(|x|);
  }

  /** The rendering of an integer: 'i', its canonical decimal text, 'e'. */
  lemma IntRendering(n: i64) returns (digits: Text)
    ensures Encode(Int(n)) == ['i'] + digits + ['e']
    ensures ParseI64(digits) == Some(n) && 'e' !in digits
  {
    digits := IntText(n as int);
    ParseIntText(n);
  }

  /** A byte string or an integer is decoded from its rendering whatever follows it. */
  lemma AtomDecoded(a: Value, s: Text)
    requires !a.List? && WellShaped(a)
    requires |Encode(a)| <= |s| && s[..|Encode(a)|] == Encode(a)
    ensures Decode(s) == Ok((a, |Encode(a)|))
  {
    match a
    case Str(x) =>
      var d := StrRendering(x);
      StrDecoded(d, x, s);
    case Int(n) =>
      var digits := IntRendering(n);
      IntDecoded(n, digits, s);
  }

  /** Decoding the rendering of a well-shaped value gives it back, taking the whole
      rendering. */
  lemma {:induction false} DecodeEncode(v: Value)
    requires WellShaped(v)
    ensures Decode(Encode(v)) == Ok((v, |Encode(v)|))
    decreases v, 1
  {
    var s := Encode(v);
    match v
    case Str(_) =>
      AtomDecoded(v, s);
    case Int(_) =>
      AtomDecoded(v, s);
    case List(items) =>
      var body := EncodeAll(items);
      assert s[0] == 'l' && s[|s| - 1] == 'e' && s[1..|s| - 1] == body;
      DecodeList(s);
      ElementsDecoded(items);
  }

  /** A list body made of the renderings of well-shaped elements, none but the last a
      list, decodes to those elements in order. */
  lemma {:induction false} ElementsDecoded(items: seq<Value>)
    requires forall k :: 0 <= k < |items| ==> WellShaped(items[k])
    requires forall k :: 0 <= k < |items| - 1 ==> !items[k].List?
    ensures DecodeElements(EncodeAll(items)) == Ok(items)
    decreases items, 2
  {
    if |items| > 0 {
      var body := EncodeAll(items);
      var first := Encode(items[0]);
      assert body == first + EncodeAll(items[1..]);
      assert body[..|first|] == first;
      if items[0].List? {
        assert |items| == 1 && body == first;
        DecodeEncode(items[0]);
        assert body[|first|..] == [];
      } else {
        AtomDecoded(items[0], body);
        assert body[|first|..] == EncodeAll(items[1..]);
        ElementsDecoded(items[1..]);
      }
      assert items == [items[0]] + items[1..];
    }
  }

  /** What the decoder can produce is exactly the well-shaped values: each result is
      well shaped, and each well-shaped value is the result for its rendering. */
  lemma DecodableIffWellShaped(v: Value)
    ensures WellShaped(v) <==> exists s: Text :: Decode(s).Ok? && Decode(s).value.0 == v
  {
    if WellShaped(v) {
      DecodeEncode(v);
      assert Decode(Encode(v)).value.0 == v;
    }
    if exists s: Text :: Decode(s).Ok? && Decode(s).value.0 == v {
      var s: Text :| Decode(s).Ok? && Decode(s).value.0 == v;
      DecodedIsWellShaped(s);
    }
  }
}
