/** Worked inputs for `decode_bencoded_value`, including the quirks of the original:
    non-canonical integers and length texts are accepted, and a nested list is only
    decoded as the last element of its parent. */
module Examples {
  import opened Ascii
  import opened Decoder
  import opened DecoderProperties

  lemma SingleDigit(c: char)
    requires IsDigit(c)
    ensures AllDigits([c]) && DigitsValue([c]) == DigitValue(c)
  {
    assert [c][..0] == [];
  }

  lemma FiftyTwo()
    ensures ParseI64("52") == Some(52) && ParseI64("-52") == Some(-52)
  {
    assert "52"[..1] == "5" && "-52"[1..] == "52";
    SingleDigit('5');
  }

  /** One element decoded from the front of a list body, then the rest of the body. */
  lemma Element(body: Text, v: Value, n: nat)
    requires |body| > 0 && Decode(body) == Ok((v, n))
    ensures DecodeElements(body) == Prefixed([v], DecodeElements(body[n..]))
  {
  }

  /** A body that is a single element. */
  lemma OnlyElement(body: Text, v: Value)
    requires |body| > 0 && Decode(body) == Ok((v, |body|))
    ensures DecodeElements(body) == Ok([v])
  {
    assert body[|body|..] == [];
    assert [v] + [] == [v];
  }

  lemma Spam()
    ensures Decode("4:spam") == Ok((Str("spam"), 6))
  {
    var s := "4:spam";
    assert s[..1] == "4";
    SingleDigit('4');
    StringDecoded(s, 1);
    assert s[2..6] == "spam";
  }

  lemma EmptyString()
    ensures Decode("0:") == Ok((Str(""), 2))
  {
    var s := "0:";
    assert s[..1] == "0";
    SingleDigit('0');
    StringDecoded(s, 1);
    assert s[2..2] == "";
  }

  /** A length text with a leading zero is accepted. */
  lemma LeadingZeroLength()
    ensures Decode("04:spam") == Ok((Str("spam"), 7))
  {
    var s := "04:spam";
    assert s[..2] == ['0'] + "4";
    SingleDigit('4');
    LeadingZero("4");
    StringDecoded(s, 2);
    assert s[3..7] == "spam";
  }

  lemma LengthBeyondInput()
    ensures Decode("5:hi") == Err(LengthOutOfRange)
  {
    var s := "5:hi";
    assert s[..1] == "5";
    SingleDigit('5');
    StringTooShort(s, 1);
  }

  lemma PositiveInteger()
    ensures Decode("i52e") == Ok((Int(52), 4))
  {
    var s := "i52e";
    assert s[..3] == "i52" && s[1..3] == "52";
    FiftyTwo();
    IntegerBranch(s, 3);
  }

  lemma NegativeInteger()
    ensures Decode("i-52e") == Ok((Int(-52), 5))
  {
    var s := "i-52e";
    assert s[..4] == "i-52" && s[1..4] == "-52";
    FiftyTwo();
    IntegerBranch(s, 4);
  }

  /** Negative zero is accepted and reads as zero. */
  lemma NegativeZero()
    ensures Decode("i-0e") == Ok((Int(0), 4))
  {
    var s := "i-0e";
    assert s[..3] == "i-0" && s[1..3] == "-0" && "-0"[1..] == "0";
    SingleDigit('0');
    IntegerBranch(s, 3);
  }

  /** Leading zeros in an integer are accepted. */
  lemma LeadingZeroInteger()
    ensures Decode("i007e") == Ok((Int(7), 5))
  {
    var s := "i007e";
    assert s[..4] == "i007" && s[1..4] == ['0'] + (['0'] + "7");
    SingleDigit('7');
    LeadingZero("7");
    LeadingZero(['0'] + "7");
    ParseDigits(s[1..4]);
    IntegerBranch(s, 4);
  }

  /** A '+' sign in an integer is accepted. */
  lemma PlusSign()
    ensures Decode("i+5e") == Ok((Int(5), 4))
  {
    var s := "i+5e";
    assert s[..3] == "i+5" && s[1..3] == "+5" && "+5"[1..] == "5";
    SingleDigit('5');
    IntegerBranch(s, 3);
  }

  /** Text between 'i' and 'e' that is not a number is refused. */
  lemma NonNumericInteger()
    ensures Decode("ixe") == Err(BadInteger)
  {
    var s := "ixe";
    assert s[..2] == "ix" && s[1..2] == "x";
    ParseOther("x");
    IntegerBranch(s, 2);
  }

  /** An integer is taken up to the first 'e' whatever follows. */
  lemma IntegerThenMore()
    ensures Decode("i7exyz") == Ok((Int(7), 3))
  {
    var s := "i7exyz";
    assert s[..2] == "i7" && s[1..2] == "7";
    SingleDigit('7');
    IntegerBranch(s, 2);
  }

  lemma EmptyList()
    ensures Decode("le") == Ok((List([]), 2))
  {
    DecodeList("le");
    assert "le"[1..1] == [];
  }

  /** A body made of exactly two elements. */
  lemma TwoElements(body: Text, first: Value, n: nat, second: Value)
    requires 0 < n < |body| && Decode(body) == Ok((first, n))
    requires Decode(body[n..]) == Ok((second, |body| - n))
    ensures DecodeElements(body) == Ok([first, second])
  {
    Element(body, first, n);
    OnlyElement(body[n..], second);
    assert [first] + [second] == [first, second];
  }

  /** A list whose body holds the given elements. */
  lemma ListOf(s: Text, items: seq<Value>)
    requires |s| >= 2 && s[0] == 'l' && s[|s| - 1] == 'e'
    requires DecodeElements(s[1..|s| - 1]) == Ok(items)
    ensures Decode(s) == Ok((List(items), |s|))
  {
    DecodeList(s);
  }

  /** The two halves of a concatenation. */
  lemma Halves(b: Text, c: Text)
    ensures (b + c)[..|b|] == b && (b + c)[|b|..] == c
  {
  }

  /** The first byte string of a body is taken up to its announced length only. */
  lemma SpamThenMore(s: Text)
    requires |s| > 6 && s[..6] == "4:spam"
    ensures Decode(s) == Ok((Str("spam"), 6))
  {
    assert s[..1] == "4" && s[1] == ':' && s[2..6] == "spam";
    SingleDigit('4');
    StringDecoded(s, 1);
  }

  lemma Eggs()
    ensures Decode("4:eggs") == Ok((Str("eggs"), 6))
  {
    var s := "4:eggs";
    assert s[..1] == "4" && s[2..6] == "eggs";
    SingleDigit('4');
    StringDecoded(s, 1);
  }

  /** The text of `l4:spam4:eggse`, taken apart without decoding anything. */
  lemma TwoStringsText()
    ensures var s := "l4:spam4:eggse"; var body := s[1..|s| - 1];
      |s| == 14 && s[0] == 'l' && s[|s| - 1] == 'e'
      && |body| == 12 && body[..6] == "4:spam" && body[6..] == "4:eggs"
  {
    var s := "l4:spam4:eggse";
    assert s[1..|s| - 1] == "4:spam" + "4:eggs";
    Halves("4:spam", "4:eggs");
  }

  lemma TwoStrings()
    ensures Decode("l4:spam4:eggse") == Ok((List([Str("spam"), Str("eggs")]), 14))
  {
    var s := "l4:spam4:eggse";
    var body := s[1..|s| - 1];
    TwoStringsText();
    SpamThenMore(body);
    Eggs();
    TwoElements(body, Str("spam"), 6, Str("eggs"));
    ListOf(s, [Str("spam"), Str("eggs")]);
  }

  lemma One()
    ensures Decode("i1e") == Ok((Int(1), 3))
  {
    var s := "i1e";
    assert s[..2] == "i1" && s[1..2] == "1";
    SingleDigit('1');
    IntegerBranch(s, 2);
  }

  lemma ListOfOne()
    ensures Decode("li1ee") == Ok((List([Int(1)]), 5))
  {
    var s := "li1ee";
    assert s[1..|s| - 1] == "i1e";
    One();
    OnlyElement("i1e", Int(1));
    ListOf(s, [Int(1)]);
  }

  /** The text of `l4:spamli1eee`, taken apart without decoding anything. */
  lemma NestedLastText()
    ensures var s := "l4:spamli1eee"; var body := s[1..|s| - 1];
      |s| == 13 && s[0] == 'l' && s[|s| - 1] == 'e'
      && |body| == 11 && body[..6] == "4:spam" && body[6..] == "li1ee"
  {
    var s := "l4:spamli1eee";
    assert s[1..|s| - 1] == "4:spam" + "li1ee";
    Halves("4:spam", "li1ee");
  }

  /** A nested list as the last element takes the rest of the body. */
  lemma NestedLast()
    ensures Decode("l4:spamli1eee") == Ok((List([Str("spam"), List([Int(1)])]), 13))
  {
    var s := "l4:spamli1eee";
    var body := s[1..|s| - 1];
    NestedLastText();
    SpamThenMore(body);
    ListOfOne();
    TwoElements(body, Str("spam"), 6, List([Int(1)]));
    ListOf(s, [Str("spam"), List([Int(1)])]);
  }

  /** A nested list followed by another element is refused: the inner list would have
      to end where the outer body ends. */
  lemma NestedNotLast()
    ensures Decode("lli1e4:spame") == Err(Unhandled)
  {
    var s := "lli1e4:spame";
    var body := s[1..11];
    assert body == "li1e4:spam" && body[|body| - 1] == 'm';
    assert Decode(body) == Err(Unhandled);
    DecodeList(s);
  }

  lemma Dictionary()
    ensures Decode("d3:cow3:moo4:spam4:eggse") == Err(Unhandled)
  {
  }
}
