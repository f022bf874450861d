/**
  The decoded value tree (`BType`, src/lib.rs) and the decoder's error messages.
 */
module BType {

  const I64_MIN: int := -0x8000_0000_0000_0000
  const I64_MAX: int := 0x7FFF_FFFF_FFFF_FFFF

  /** A signed 64-bit integer, the payload type of `BType::Integer`. */
  type Int64 = x: int | I64_MIN <= x <= I64_MAX

  /** The four kinds of decoded value. */
  datatype Value =
    | ByteString(bytes: string)
    | Integer(number: Int64)
    | List(items: seq<Value>)
    | Dict(entries: map<string, Value>)

  /**
    One constructor per distinct error message of the decoder.
    An unterminated list and an unterminated dict share `Unterminated`,
    because both report "A list was not terminated with an 'e'.".
   */
  datatype DecodeError =
    | TooShort          // "Input string is too short."
    | SomethingMissing  // "Something is missing."
    | OddDictElements   // "Odd number of hash elements provided."
    | NonStringKey      // "Dict keys must be a string type."
    | Unterminated      // "A list was not terminated with an 'e'."
    | IntegerParse      // "Error while parsing integer."
    | NoEndingE         // "No ending 'e' for integer."
    | StringLength      // "Could not parse number for reading a string."

  /** Is `c` an ASCII decimal digit (`char::is_digit(10)`)? */
  predicate IsDigit(c: char) {
    '0' <= c <= '9'
  }

  /** The lookahead character `c` is the one that selects the kind of `v`. */
  predicate Tagged(v: Value, c: char) {
    match v
    case ByteString(_) => IsDigit(c)
    case Integer(_) => c == 'i'
    case List(_) => c == 'l'
    case Dict(_) => c == 'd'
  }
}
