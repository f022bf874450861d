# A verified model of the `BEncoder` bencode decoder

The library in `src/lib.rs` decodes bencoded text into a `BType` value. A
`BType` is one of four things: a byte string, a signed 64-bit integer, a
list, or a dict keyed by strings. `BEncoder::decode` checks the input
length and then hands the first character to `detect_and_decode`. That
routine dispatches on the tag character to four recursive routines:
`decode_dict`, `decode_integer`, `decode_list` and `decode_string`. All of
them pull characters from one shared forward-only `Chars` cursor.

This project restates that decoder in Dafny at two levels.

- `BencodeSpec` (spec.dfy) holds the decoder as pure functions. The cursor
  becomes an index into the input. Each routine returns a `Step`: what it
  decoded (or the error) together with the cursor after it.
- `BEncoder` (decoder.dfy) holds the decoder as imperative methods with
  the source's loops. The shared element loop of `decode_list` and
  `decode_dict` is here, as is the pop loop that builds a dict. So are the
  `take_while` scans of `decode_integer` and `decode_string`, and
  `decode_string`'s final `take`. Each method is proved to compute exactly
  its `BencodeSpec` function, so it finds the same value or error and
  leaves the cursor at the same place.

The other modules are as follows.

- `BType`: the value type and the error values.
  - Every error message of the source is a constructor of `DecodeError`.
  - The two unterminated-container messages are the same text in the
    source, so they are one constructor, `Unterminated`.
- `Strings`: `String::len` as UTF-8 byte length, and the stopping point
  of `take_while`.
- `Numbers`: `i64::from_str` and `usize::from_str` as total functions
  returning an `Option`. It also holds the decimal rendering that they
  read back.
- `DecodeProperties`: lemmas about what the decoder guarantees.
  - Which keys a dict gets.
  - Which value a repeated key keeps.
  - That trailing input is ignored.
  - That each container and integer needs its closing `e`.
  - That the first failing element ends a list or dict with that
    element's error, after any run of successfully decoded elements.
- `Encoding`: a reference grammar of bencoded text.
  - Its length prefixes count characters, as the decoder does. So it is
    the bencoding of BEP 3 only when every payload is ASCII.
  - `Term` is the syntax tree, `Encode` its wire form and `Meaning` the
    value it stands for.
  - The main lemma proves that the decoder reads every such text back to
    its meaning, whatever follows it, and consumes exactly the text.
  - Another lemma shows that every run of written terms is a run of
    elements the decoder reads successfully.
- `Examples`: the unit tests of `src/lib.rs` as lemmas about
  `BencodeSpec.Decode`, plus edge cases the tests do not cover.

Some behaviour of the code differs from a plain reading of bencode, and
the model follows the code.

- **Repeated dict keys.** `decode_dict` inserts the pairs from last to
  first. So when a key repeats, the EARLIEST pair in the text keeps its
  value, not the latest.
- **A length with no colon.** `decode_string` does not demand a `:` after
  the length digits. For example, the whole input `"12"` decodes to an
  empty byte string.
- **Leading zeros, `+` and `-0`.** Leading zeros are accepted in integers
  and in lengths. A leading `+`, and `-0`, are accepted in integers,
  because the source hands the text to Rust's standard parser. A length
  must start with a digit, since its first character is the tag.

## Model

| member | source | states |
|---|---|---|
| BencodeSpec.Decode | src/lib.rs:15-25 | The result is the too-short error exactly when the input has fewer than 2 UTF-8 bytes. A success is of the kind the first character names. |
| BencodeSpec.DetectAndDecode | src/lib.rs:27-39 | The cursor only moves forward and stays inside the input. A success has the kind that the lookahead character names. No nested routine reports the too-short error. |
| BencodeSpec.Elements | src/lib.rs:85-104 | The element loop shared by lists and dicts. A success has consumed a closing `e`. The cursor stays within the input. |
| BencodeSpec.DecodeList | src/lib.rs:83-107 | A success is a `List`. The cursor only moves forward. |
| BencodeSpec.DecodeDict | src/lib.rs:41-81 | A success is a `Dict`. The cursor only moves forward. |
| BencodeSpec.BuildDict | src/lib.rs:49-65 | An odd element count gives `OddDictElements`. The only other possible error is the non-string-key one. A success is a `Dict`. |
| BencodeSpec.InsertPairs | src/lib.rs:55-63 | The pop loop keeps every key already inserted. Its only error is the non-string-key one. |
| BencodeSpec.DecodeInteger | src/lib.rs:109-130 | A success is an `Integer` and has consumed the closing `e`. The only errors are the missing `e` and a bad integer body. |
| BencodeSpec.DecodeString | src/lib.rs:132-150 | A success is a `ByteString` whose bytes are exactly the input characters just before the new cursor. The only error is the bad length. |
| Strings.Utf8Len | src/lib.rs:16 | The UTF-8 length of a string lies between its character count and four times that count. |
| Strings.Find | src/lib.rs:115 | Returns the first position at or after the start holding the wanted character, or the end of the input. No earlier position holds that character. |
| Strings.FindIs | src/lib.rs:133 | Conversely, any position with no wanted character before it, and the wanted character or the end at it, is what `Find` returns. |
| Numbers.ParseUsize | src/lib.rs:139 | A parsed length fits in 64 unsigned bits. It comes from text that starts with a digit or `+`. |
| Numbers.ParseI64 | src/lib.rs:117 | A parsed integer comes from a sign or a digit followed only by digits. |
| Numbers.LoneSignRejected | src/lib.rs:117-139 | Neither parser accepts the empty text or a lone sign. A text of at most one character parses only when it is a single digit. |
| Numbers.ParseUsizeSyntax | src/lib.rs:139 | A length that parses is an optional `+` followed only by digits. Any other character makes it fail, which the string routine reports as the bad-length error. |
| Numbers.ParseUsizeOfDecimal | src/lib.rs:139 | The length parser reads back the decimal rendering of every length up to the 64-bit limit. |
| Numbers.ParseI64OfDecimal | src/lib.rs:117 | The integer parser reads back the decimal rendering of every 64-bit integer. |
| Numbers.ParseUsizePadded | src/lib.rs:139 | A length with an optional `+` and any number of leading zeros parses to its value exactly when that value fits in 64 unsigned bits, and fails otherwise. |
| Numbers.ParseI64Padded | src/lib.rs:117 | An integer with an optional `+` or `-` and any number of leading zeros parses to its signed value exactly when that value lies in the 64-bit range, and fails otherwise. So `-0` reads as 0. |
| BEncoder.Decode | src/lib.rs:15-25 | The method's result equals `BencodeSpec.Decode` on every input. |
| BEncoder.DetectAndDecode | src/lib.rs:27-39 | The method's result and its new cursor equal those of `BencodeSpec.DetectAndDecode`. |
| BEncoder.DecodeElements | src/lib.rs:85-104 | The `while next.is_some()` loop, proved with loop invariants, matches `BencodeSpec.Elements`. It returns the same element list or error and the same cursor. |
| BEncoder.DecodeList | src/lib.rs:83-107 | The method's result and its cursor equal those of `BencodeSpec.DecodeList`. |
| BEncoder.DecodeDict | src/lib.rs:41-81 | The method's result and its cursor equal those of `BencodeSpec.DecodeDict`. |
| BEncoder.InsertAll | src/lib.rs:49-65 | The parity check and the `pop` loop give exactly `BencodeSpec.BuildDict` of the collected elements. |
| BEncoder.DecodeInteger | src/lib.rs:109-130 | The `inspect`/`take_while` scan, with its `current` tracking, matches `BencodeSpec.DecodeInteger` in result and cursor. |
| BEncoder.DecodeString | src/lib.rs:132-150 | The scan up to `:`, the length parse and the take match `BencodeSpec.DecodeString` in result and cursor. |
| BEncoder.Take | src/lib.rs:144 | `take(n)` yields the next `n` characters, or all that remain when fewer are left. The cursor ends just after them. |
| DecodeProperties.InsertPairsKeys | src/lib.rs:55-63 | The pop loop succeeds exactly when every key position holds a byte string. Its keys are then the accumulator's keys plus all key strings. |
| DecodeProperties.InsertPairsValues | src/lib.rs:55-63 | For each key, the value kept is the one paired with that key's earliest occurrence. |
| DecodeProperties.InsertPairsKept | src/lib.rs:55-63 | An accumulated key that no pair mentions keeps its value. |
| DecodeProperties.InsertPairsAppend | src/lib.rs:55-63 | Popping `front + back` first processes `back` and then `front`, starting from what `back` produced. |
| DecodeProperties.BuildDictMeaning | src/lib.rs:46-66 | Building a dict succeeds exactly when the element count is even and every key position holds a byte string. The keys are then exactly the key strings. Each key maps to the value after its earliest occurrence. |
| DecodeProperties.UnknownTagFails | src/lib.rs:28-37 | A lookahead that is not `d`, `i`, `l` or a digit, or the end of input, gives the something-is-missing error and reads nothing. |
| DecodeProperties.IntegerOutcome | src/lib.rs:109-130 | The body is everything up to the first `e`. The missing-`e` error is reported exactly when there is no `e`, whatever the body holds. Otherwise the `e` is consumed. The integer parse error is then reported exactly when the body does not parse as a 64-bit integer, and a success carries the parsed value. |
| DecodeProperties.StringOutcome | src/lib.rs:132-150 | The length is the first digit plus everything up to the first `:`. The bad-length error is reported exactly when that text does not parse, and the cursor is then just past the `:`. A success is the characters right after the `:`. It is at most the declared length, and shorter only when the input ends. |
| DecodeProperties.DetectAndDecodeLocal | src/lib.rs:27-39 | A value is decoded from the characters before its end cursor alone. Cutting the input anywhere after that cursor changes nothing. |
| DecodeProperties.ElementsLocal | src/lib.rs:41-107 | The element loop, list decoding and dict decoding each depend only on the input up to their end cursor. |
| DecodeProperties.IntegerLocal | src/lib.rs:109-130 | Integer decoding depends only on the input up to its end cursor. |
| DecodeProperties.StringLocal | src/lib.rs:132-150 | String decoding depends only on the input up to its end cursor. |
| DecodeProperties.TrailingIgnored | src/lib.rs:20-24 | `decode` reads one value. Input after the consumed part does not change the result, as long as the cut input is still at least 2 bytes long. |
| DecodeProperties.ElementsMissingTerminator | src/lib.rs:85-106 | Removing the closing `e` of a well-formed element run turns the result into the unterminated error, at the end of the input. |
| DecodeProperties.ListMissingTerminator | src/lib.rs:83-107 | A well-formed list without its closing `e` is reported as unterminated. |
| DecodeProperties.DictMissingTerminator | src/lib.rs:41-81 | A dict body without its closing `e` is reported as unterminated. |
| DecodeProperties.IntegerMissingTerminator | src/lib.rs:109-130 | An integer without its closing `e` is reported as having no ending `e`. |
| Encoding.DecodeOfEncoding | src/lib.rs:15-150 | Every written term decodes to its meaning, whatever text follows it. The decoder consumes exactly the written term. Dict keys follow the earliest-wins rule. |
| DecodeProperties.ElementErrorStops | src/lib.rs:68-74 | After any run of successfully decoded elements (`ElementRun`), the first failing element ends the element loop, the list and the dict with that element's error and cursor. This holds whether or not the earlier elements are in canonical form. |
| DecodeProperties.ElementsSkip | src/lib.rs:94-100 | A run of successfully decoded elements before a failing loop position does not change the failure. |
| Encoding.EncodedRun | src/lib.rs:88-104 | Any sequence of written terms is a run of elements that all decode successfully, ending exactly where the written text ends. |
| Examples.TooShortInput | src/lib.rs:161-165 | `"l"` gives the too-short error. |
| Examples.PositiveInteger | src/lib.rs:168-173 | `"i123456789e"` decodes to the integer 123456789. |
| Examples.NegativeInteger | src/lib.rs:176-181 | `"i-123e"` decodes to the integer -123. |
| Examples.SimpleString | src/lib.rs:184-189 | `"5:hello"` decodes to the byte string `hello`. |
| Examples.OnlyDeclaredLength | src/lib.rs:192-197 | `"4:hello"` decodes to `hell`. Only the declared count of characters is read. |
| Examples.EmptyList | src/lib.rs:200-205 | `"le"` decodes to the empty list. |
| Examples.BasicList | src/lib.rs:208-214 | `"l5:helloe"` decodes to a list holding `hello`. |
| Examples.NestedList | src/lib.rs:217-223 | `"ll5:helloee"` decodes to a list holding a list holding `hello`. |
| Examples.ComplexList | src/lib.rs:226-235 | `"ll5:helloei-10ee"` decodes to a list holding a list of `hello`, then the integer -10. |
| Examples.EmptyDict | src/lib.rs:238-243 | `"de"` decodes to the empty dict. |
| Examples.SimpleDict | src/lib.rs:246-255 | The two-key dict text decodes to `key1 -> value1` and `key2 -> value2`. |
| Examples.ComplexDict | src/lib.rs:258-271 | The complex dict text decodes to the two string keys plus `ok` mapped to the complex list. |
| Examples.EarliestDuplicateWins | src/lib.rs:55-63 | In `"d1:ai1e1:ai2ee"` the key `a` keeps the value of its earliest pair, 1. |
| Examples.UnterminatedLength | src/lib.rs:132-150 | `"12"` decodes to the empty byte string. The length needs no colon, and the take stops at the end of the input. |
| Examples.NegativeZero | src/lib.rs:117-127 | `"i-0e"` decodes to the integer 0. |
| Examples.LeadingZeros | src/lib.rs:117-127 | `"i007e"` decodes to the integer 7. |
| Examples.PlusInteger | src/lib.rs:115-127 | `"i+5e"` decodes to the integer 5. |
| Examples.PaddedLength | src/lib.rs:132-150 | `"05:hello"` decodes to `hello`. A length may carry leading zeros. |
| Examples.SignedLength | src/lib.rs:28-37 | `"-0:"` gives the something-is-missing error, because a length must start with a digit. |
| Examples.NonDigitLength | src/lib.rs:139-148 | `"1x:a"` gives the bad-length error. |
| Examples.FailAfterPadded | src/lib.rs:94-100 | In `"li007ei-ee"` the first element reads 7 and the second fails to parse. The list then fails with the integer parse error. |
| Examples.MissingEnding | src/lib.rs:119-129 | `"i12"` gives the no-ending-`e` error. |
| Examples.EmptyInteger | src/lib.rs:119-122 | `"ie"` gives the integer parse error. |
| Examples.UnknownTag | src/lib.rs:36-37 | `"x1"` gives the something-is-missing error. |
| Examples.OddDict | src/lib.rs:49-51 | `"d1:ae"` gives the odd-element-count error. |
| Examples.IntegerKey | src/lib.rs:57-60 | `"di1ei2ee"` gives the non-string-key error. |
| Examples.UnclosedList | src/lib.rs:106 | `"li1e"` gives the unterminated error. |

## Left out

- The hashing and iteration order of `HashMap` are not modelled. A dict is a Dafny `map`, which has no order, matching how the source compares dicts.
- Byte-level UTF-8 is not modelled. Input is a sequence of Unicode scalar values, as `Chars` yields them; only the length check of `decode` counts bytes, through `Utf8Len`. `take(n)` counts characters, as the source's does.
- `usize` is taken to be 64 bits wide. A length prefix above 2^64 - 1 is a parse error.
- The internals of Rust's `str::parse` are not modelled. `i64::from_str` and `usize::from_str` are written as functions of the text, with the same accepted syntax and ranges.
- The source has no encoder. `Encoding.Encode` is only a reference grammar used to state what the decoder accepts, not a model of any source routine.
- The unit struct `BEncoder` has no state. Its associated functions become methods of a module rather than of a class.
- The shared `&mut Chars` is not modelled as an aliased object. Each routine takes the cursor position and returns the new one, and the methods are proved to return exactly the positions of the spec functions.
- The element loops of `decode_list` (lines 88-104) and `decode_dict` (lines 47-78) are the same loop. Both are modelled by the one method `BEncoder.DecodeElements`. `decode_dict`'s check and pop loop at the closing `e` run after it, in `BEncoder.InsertAll`.
- The test module is not modelled as code. Each test becomes a lemma in `Examples` about the spec-level `Decode`.
- Stack depth is not modelled. Deep nesting that would overflow the Rust stack is decoded like any other input.
