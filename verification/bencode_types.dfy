/** Token kinds, error kinds and the result wrapper shared by the reader. */
module BencodeTypes {

  /** BencodeTokenType: the kind of the token the reader last produced;
      `None` before any token has been read. */
  datatype TokenType =
    | None
    | StartDictionary
    | EndDictionary
    | StartList
    | EndList
    | Number
    | DictionaryKey
    | ByteString

  /** One kind per exception the reader throws. */
  datatype ErrorKind =
    | UnexpectedEndOfInput    // the final chunk ends inside an open container
    | RanOutOfData            // the final chunk ends inside a number or a length prefix
    | ExpectedToken           // a byte that starts no token
    | UnexpectedEndOfObject   // `e` with no container open
    | ExpectedIMarker         // ReadNumber called on a byte other than `i`
    | ExpectedEDelimiter      // an integer's digits not followed by `e`
    | ExpectedColonDelimiter  // a length prefix not followed by `:`
    | ByteStringOversized     // a length prefix beyond int.MaxValue
    | ExpectedNumber          // an empty digit run
    | InvalidLeadingZeros     // a digit run of two or more digits starting with `0`
    | InvalidNumber           // GetInt32/GetInt64 on a number that does not fit
    | WrongType               // an integer accessor on a token that is not a Number
    | IndexOutOfRange         // decoding an empty payload
    | ArgumentOutOfRange      // slicing a payload that runs past the buffer

  datatype Result<+T> = Ok(value: T) | Fail(error: ErrorKind)
}
