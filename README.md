# Bencode decoder of bittorrent-rust, modelled in Dafny

This project models `decode_bencoded_value` (src/main.rs:8-54). It is the decoder for
bencoding, the serialisation defined in the "bencoding" section of BitTorrent BEP 3.
The decoder takes a text and returns two things: one decoded value from the front of
the text, and the number of characters that value took. It handles three shapes:

- byte strings `N:xxxx`;
- integers `i…e`;
- lists `l…e`.

Anything else makes it panic, dictionaries `d…e` included.

The model keeps the original's quirks:

- **List framing.** A list is recognised only when the whole input starts with `l`
  and ends with `e`, and it then takes the whole input.
- **Nested lists.** A nested list therefore takes the rest of its parent's body, so it
  can only be the last element.
- **Integers.** They are read with Rust's `str::parse::<i64>`. A `+` sign, leading
  zeros and `-0` are therefore accepted (`i+5e`, `i007e`, `i-0e`).
- **Length texts.** These are read the same way. They start with a digit, so only
  leading zeros apply there (`04:spam`).

Every panic of the original becomes an `Err` with its own `Error` constructor. These
panics are:

- an `unwrap` on an empty input;
- a missing `:` or `e`;
- a failed parse;
- a slice that runs past the end of the input;
- the final `panic!`.

Modules:

- `Ascii` (ascii.dfy):
  - the input type: any sequence of characters, each read as one byte, so the model
    is faithful to the original only on ASCII input;
  - `i64`;
  - decimal digits;
  - `str::find` as `IndexOf`;
  - `str::parse::<i64>` as `ParseI64`.
- `Decoder` (decoder.dfy):
  - the decoded `Value`, the `Error` and `Result` types;
  - the specification functions `Decode` and `DecodeElements`;
  - the imperative decoder, in two methods:
    - `DecodeBencodedValue`: the dispatch on the first character;
    - `DecodeListBranch`: the list branch, with its `while` loop over `i` and
      `trimmed` and a recursive call in each round.

    Both methods are proved to return exactly `Decode(s)`.
- `DecoderProperties` (decoder_properties.dfy):
  - what each branch accepts, and what it rejects and with which error;
  - list framing;
  - the nested-list rule;
  - the shape of every decoded value (`WellShaped`).
- `RoundTrip` (round_trip.dfy):
  - a canonical renderer `Encode`, which exists only to state a partner property;
  - decoding the rendering of any well-shaped value gives that value back, over the
    whole rendering;
  - so the decoder's results are exactly the well-shaped values.
- `Examples` (examples.dfy): worked inputs, among them the quirks above.

The code departs from bencoding as BEP 3 defines it, and the model follows the code:

- BEP 3 rejects integers with leading zeros and `i-0e`, but the code accepts them
  (`i007e`, `i-0e`).
- BEP 3 defines dictionaries `d…e`, but the code panics on them.
- The comment at src/main.rs:20 says `i-52e` gives 52, but the parse at
  src/main.rs:28 gives -52.

## Model

| member | source | states |
|---|---|---|
| Ascii.DigitChars | src/main.rs:10 | `is_digit(10)` holds exactly for the ten characters `0` to `9` |
| Ascii.ParseI64 | src/main.rs:28 | `parse::<i64>` succeeds only on non-empty text starting with a digit, `+` or `-`; on text starting with a digit, a success means all digits and the value those digits denote |
| Ascii.ParseOther | src/main.rs:28 | empty text, or text starting with anything but a digit or a sign, does not parse |
| Ascii.ParseUnsigned | src/main.rs:15 | on text starting with a digit, parsing succeeds exactly when the text is all digits and its value is at most `i64::MAX` |
| Ascii.ParseDigits | src/main.rs:15 | a digit string whose value fits in an `i64` parses to that value, leading zeros included |
| Ascii.ParseSigned | src/main.rs:28 | on text starting with `+` or `-`, parsing succeeds exactly when digits follow and the signed value is in the `i64` range; the result is the digits' value, negated after `-` (so `-0` reads as 0) |
| Ascii.LeadingZero | src/main.rs:15 | a leading `0` does not change the value of a digit string, so `007` and `7` read alike |
| Ascii.IndexOf | src/main.rs:12 | `str::find`: a found index holds the character and nothing before it does; none is found exactly when the character does not occur |
| Ascii.IndexOfFirst | src/main.rs:22 | `find` returns exactly the first occurrence |
| Decoder.DecodeString | src/main.rs:10-18 | the byte-string branch yields a byte string and takes between 2 and all of the input's characters |
| Decoder.DecodeInteger | src/main.rs:19-30 | the integer branch yields an integer and takes between 2 and all of the input's characters |
| Decoder.Decode | src/main.rs:8-54 | every success takes at least 2 characters and at most the whole input; a decoded list takes the whole input |
| Decoder.DecodeElements | src/main.rs:37-47 | the elements the list loop collects from a body: a success holds at most half as many elements as the body has characters, since each element takes at least 2; ElementsStep, NestedListIsLast, ElementsWellShaped and ElementsDecoded characterise it further |
| Decoder.DecodeList | src/main.rs:31-50 | for input framed by `l` and `e`, the result is the list of the body's elements, or the first element's error |
| Decoder.ElementsStep | src/main.rs:40-45 | one round of the list loop: the front element's error ends the list with that error; otherwise the element moves into the answer and the body shrinks by what the element took |
| Decoder.DecodeBencodedValue | src/main.rs:8-54 | the imperative decoder returns exactly `Decode(s)` for every input, errors included |
| Decoder.DecodeListBranch | src/main.rs:31-50 | the list loop keeps `0 <= i <= len-2` and `trimmed == s[i+1..len-1]`, and the elements decoded so far followed by the rest give the body's result; the loop ends with `i == len-2`, and the branch returns exactly `Decode(s)` |
| DecoderProperties.RejectedInputs | src/main.rs:10 | empty input fails with `EmptyInput`; a first character other than a digit, `i` or `l` fails with `Unhandled`, and so does an `l` input that does not end in `e` (src/main.rs:31, 51-52) |
| DecoderProperties.StringDecoded | src/main.rs:10-18 | with a digit prefix of value N before the first `:` and N characters after it, the result is exactly those N characters, taking prefix + 1 + N characters |
| DecoderProperties.StringBadLength | src/main.rs:15 | a length text that is not all digits, or whose value exceeds `i64::MAX`, fails with `BadLength` |
| DecoderProperties.StringTooShort | src/main.rs:16 | a length larger than the number of characters after the `:` fails with `LengthOutOfRange` |
| DecoderProperties.StringWithoutColon | src/main.rs:12 | a digit-led input with no `:` fails with `MissingColon` |
| DecoderProperties.IntegerBranch | src/main.rs:19-30 | for an `i` input whose first `e` is at e, the result is the `i64` parse of the text between them, taking e + 1 characters, or `BadInteger` when that parse fails |
| DecoderProperties.IntegerWithoutEnd | src/main.rs:22 | an `i` input with no `e` fails with `MissingEnd` |
| DecoderProperties.ListFraming | src/main.rs:31-50 | a decoded list comes only from input that starts with `l` and ends with `e`; it takes the whole input, and its items are the elements of the body between, in order |
| DecoderProperties.NestedListIsLast | src/main.rs:45 | in a decoded list body, an element that is itself a list is the last element |
| DecoderProperties.DecodedIsWellShaped | src/main.rs:8-54 | every decoded value is well shaped: no string is longer than `i64::MAX`, and only the last item of a list can be a list |
| DecoderProperties.ElementsWellShaped | src/main.rs:37-47 | the elements decoded from a list body are well shaped, and none but the last is a list |
| RoundTrip.StrDecoded | src/main.rs:10-18 | a length text, `:` and that many characters at the front of the input decode to that byte string, whatever follows |
| RoundTrip.IntDecoded | src/main.rs:19-30 | `i`, a text parsing to n with no `e` in it, then `e` at the front of the input decode to n, whatever follows |
| RoundTrip.AtomDecoded | src/main.rs:10-30 | the canonical rendering of a byte string or an integer decodes to that value, whatever follows it |
| RoundTrip.DecodeEncode | src/main.rs:8-54 | decoding the canonical rendering of any well-shaped value gives the value back and takes the whole rendering |
| RoundTrip.ElementsDecoded | src/main.rs:37-47 | a list body made of renderings of well-shaped elements, none but the last a list, decodes to those elements in order |
| RoundTrip.DecodableIffWellShaped | src/main.rs:8-54 | a value is produced by the decoder for some input if and only if it is well shaped |
| Examples.Spam | src/main.rs:10-18 | `4:spam` gives `"spam"`, taking 6 |
| Examples.EmptyString | src/main.rs:10-18 | `0:` gives `""`, taking 2 |
| Examples.LeadingZeroLength | src/main.rs:15 | `04:spam` gives `"spam"`, taking 7 |
| Examples.LengthBeyondInput | src/main.rs:16 | `5:hi` fails with `LengthOutOfRange` |
| Examples.PositiveInteger | src/main.rs:19-30 | `i52e` gives 52, taking 4 |
| Examples.NegativeInteger | src/main.rs:19-30 | `i-52e` gives -52, taking 5 |
| Examples.NegativeZero | src/main.rs:28 | `i-0e` is accepted and gives 0 |
| Examples.LeadingZeroInteger | src/main.rs:28 | `i007e` is accepted and gives 7 |
| Examples.PlusSign | src/main.rs:28 | `i+5e` is accepted and gives 5 |
| Examples.NonNumericInteger | src/main.rs:28 | `ixe` fails with `BadInteger` |
| Examples.IntegerThenMore | src/main.rs:22-30 | `i7exyz` gives 7, taking 3: the integer ends at the first `e` |
| Examples.SpamThenMore | src/main.rs:16-18 | `4:spam` followed by more input gives `"spam"`, taking 6 |
| Examples.EmptyList | src/main.rs:31-50 | `le` gives the empty list, taking 2 |
| Examples.TwoStrings | src/main.rs:31-50 | `l4:spam4:eggse` gives `["spam","eggs"]`, taking 14 |
| Examples.NestedLast | src/main.rs:45 | `l4:spamli1eee` gives `["spam",[1]]`, taking 13 |
| Examples.NestedNotLast | src/main.rs:31 | `lli1e4:spame` fails with `Unhandled`, because the inner list would have to end where the outer body ends |
| Examples.Dictionary | src/main.rs:51-52 | a dictionary `d…e` fails with `Unhandled` |

## Left out

- `main` (src/main.rs:57-68) is not modelled: it reads the command line and prints JSON, which is only I/O.
- serde_json is not part of this model. Its `Value` is replaced by a local datatype with three variants (byte string, `i64`, list), and its JSON rendering is left out.
- Non-ASCII input is not modelled faithfully. `Text` admits any character, but each one is read as one byte, and the lemmas range over all such texts. The original mixes byte slicing with `chars().count()`, and the two agree only on ASCII. Its panics on slices that are not on a character boundary are therefore not captured.
- A panic becomes an `Err` value. The panic message and unwinding are not modelled.
- `usize` arithmetic is modelled with unbounded integers. With the lengths involved it cannot overflow on a 64-bit target: a length is at most `i64::MAX`.
- Ascii.ParseI64: models the grammar and range check of `<i64 as FromStr>`, not the parser's internals. An out-of-range value is simply a failure.
- Decoder.DecodeBencodedValue: the list branch is the separate method `DecodeListBranch`, which this method calls. The original has it inline.
