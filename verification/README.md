# BencodeReader, modelled in Dafny

This project models the streaming Bencode token reader of dotTorrent
(`dotTorrent.Bencode/BencodeReader.cs`) and proves properties of the model.
Bencode is the encoding of section "bencoding" of BitTorrent BEP 3. It has
four kinds of value:

- integers `i<digits>e`;
- byte strings `<length>:<bytes>`;
- lists `l...e`;
- dictionaries `d...e`.

The reader is a `ref struct` with mutable fields. Here it is an immutable
`Reader` datatype. Every operation is a pure function from a reader to the
reader after the step:

- `Read` returns `Result<Step>`.
- `Step(produced, next)` carries the `bool` the source returns and the reader
  afterwards.
- A thrown exception becomes `Fail(kind)`, with one `ErrorKind` per distinct
  exception the source throws.

Files, in dependency order:

| file | contents |
|---|---|
| `bencode_types.dfy` | `BencodeTokenType`, the error kinds, the `Result` wrapper |
| `bytes.dfy` | the byte type, ASCII markers, digit runs and their decimal value |
| `bit_stack.dfy` | the container stack, as a sequence of flags |
| `grammar.dfy` | a declarative statement of what one token's bytes look like (`EncodesToken`) and what it does to the stack (`StackEffect`) |
| `int_decoder.dfy` | the static `TryGetInt64`/`TryGetInt32`: the source's wrapping version and a corrected exact one |
| `reader.dfy` | the reader: construction, `Read` and the token handlers, the public integer accessors |
| `reader_properties.dfy` | what a single `Read` does on each kind of input |
| `resumption.dfy` | repeated reads (`ReadTokens`), resuming from `CurrentState`, and splitting the input into chunks |

Every reader step keeps an invariant, `Reader.Valid`:

- the chunk is at most int.MaxValue bytes;
- the cursor and the payload lie inside the chunk;
- the dictionary flag `_inObject` is the innermost frame of the stack.

Every successful step satisfies `Reader.Advanced`:

- the token starts at the old cursor;
- the bytes up to the new cursor encode exactly that token (`Grammar.EncodesToken`);
- the stack changed as the token demands (`Grammar.StackEffect`).

A step that produces nothing returns the reader unchanged.

**The stack.** The source of `BitStack` is not part of this model. The model
assumes this reading of it, which is the only one under which closing the root
container does not throw at line 146:

- the stack is a sequence of flags, `true` for a dictionary;
- `CurrentDepth` is its length;
- `Peek` is the last flag, or `false` when the stack is empty;
- `SetFirstBit` and `PushTrue` both push `true`;
- `ResetFirstBit` and `PushFalse` both push `false`;
- `Pop` removes the top flag and returns the new `Peek`.

**Where the model follows the code rather than a plain reading of Bencode:**

- `d3:fooe` is accepted. A key may be followed directly by `e` (line 66), so
  keys and values need not alternate (`ReaderProperties.KeyWithoutValueAccepted`).
- `i-0e` is accepted. The leading-zero check starts after the `-`
  (`ReaderProperties.NegativeZeroAccepted`).
- A byte string whose payload is cut short returns "no token" even on the
  final chunk (lines 190-191); it is not an error
  (`ReaderProperties.TruncatedStringSuspendsOnFinalChunk`).
- The `Value` of a container token is its one marker byte (line 128), not an
  empty span.
- `TryGetInt64` accepts any digits after the optional sign, leading zeros
  included. Only `ReadDigits` rejects leading zeros.
- The error kinds follow the exceptions the code throws. For example, a
  non-digit where a key is due fails with `ExpectedNumber`, from `ReadDigits`.

## Model

| member | source | states |
|---|---|---|
| `BitStack.Push` | dotTorrent.Bencode/BencodeReader.cs:122-125 | opening a container adds exactly one frame, which becomes the top, and leaves the frames below untouched |
| `BitStack.Pop` | dotTorrent.Bencode/BencodeReader.cs:150 | closing removes exactly the top frame, leaves the frames below as they were, and returns the kind of the container that is now innermost |
| `BitStack.PopPush` | dotTorrent.Bencode/BencodeReader.cs:120-154 | Pop undoes Push and exposes the enclosing container's kind again |
| `BitStack.PushPop` | dotTorrent.Bencode/BencodeReader.cs:120-154 | pushing back the popped flag restores the stack |
| `Bytes.DecimalRoundTrip` | dotTorrent.Bencode/BencodeReader.cs:247-249 | the decimal value of the shortest spelling of `n` is `n` |
| `IntDecoder.DigitByte` | dotTorrent.Bencode/BencodeReader.cs:248 | `(byte)(b - '0')` is below 10 exactly when `b` is an ASCII digit, and is then the digit's value |
| `IntDecoder.TryGetInt64Wrapping` | dotTorrent.Bencode/BencodeReader.cs:241-261 | the decoder as written, with the ulong accumulator reduced modulo 2^64 at every step; on success the value lies in [-max, max], on failure it is 0 |
| `IntDecoder.AccumulateSpec` | dotTorrent.Bencode/BencodeReader.cs:247-257 | the exact digit loop succeeds iff the rest of the text is all digits spelling at most `max`, and then yields that number |
| `IntDecoder.TryGetInt64` | dotTorrent.Bencode/BencodeReader.cs:241-261 | corrected decoder: succeeds iff every byte after an optional `-` is a digit and the magnitude is at most `max`; then yields the signed value, else 0 |
| `IntDecoder.TryGetInt32` | dotTorrent.Bencode/BencodeReader.cs:235-239 | succeeds iff the text decodes with magnitude at most int.MaxValue; the value is then the signed number, in [-2147483647, 2147483647] |
| `IntDecoder.DecodeIntegerText` | dotTorrent.Bencode/BencodeReader.cs:241-261 | decoding the canonical spelling of `v` gives back `v` iff abs(v) <= max, and fails otherwise |
| `IntDecoder.Int32Range` | dotTorrent.Bencode/BencodeReader.cs:235-239 | TryGetInt32 accepts exactly [-2147483647, 2147483647] and returns the number read; int.MinValue is rejected |
| `IntDecoder.WrappingAgrees` | dotTorrent.Bencode/BencodeReader.cs:241-261 | the source's decoder and the corrected one give the same result on every text the corrected one accepts and on every text with a non-digit after the sign; they can differ only on digit runs above `max` |
| `IntDecoder.AccumulateNoWrap` | dotTorrent.Bencode/BencodeReader.cs:245-257 | when `10 * max + 9` is below 2^64, the wrapping loop equals the exact one |
| `IntDecoder.Int32DecoderExact` | dotTorrent.Bencode/BencodeReader.cs:235-239 | with max = int.MaxValue, the source's wrapping decoder agrees with the corrected one on every input, so byte-string lengths are decoded exactly |
| `IntDecoder.WrappingAcceptsTwoToThe64` | dotTorrent.Bencode/BencodeReader.cs:249-253 | as written, "18446744073709551616" is accepted with value 0 at max = long.MaxValue; the text is not decodable, and the corrected decoder rejects it |
| `Reader.Create` | dotTorrent.Bencode/BencodeReader.cs:40-51 | the new reader is valid and has its cursor at 0; the token kind and stack come from the snapshot; the dictionary flag is the stack's top |
| `ReaderProperties.CreateHasNoToken` | dotTorrent.Bencode/BencodeReader.cs:45-50 | a new reader's token starts at 0 and its payload is empty, so on a reader resumed from the snapshot of a Number token GetInt64 and GetInt32 report IndexOutOfRange |
| `Reader.CreateFinal` | dotTorrent.Bencode/BencodeReader.cs:37-38 | a reader over exactly `data` as a single final chunk, with no token read yet (`None`), no container open and no key forced |
| `Reader.SetCurrentToken` | dotTorrent.Bencode/BencodeReader.cs:222-228 | the token starts at the old cursor; the cursor moves by exactly the token length; the payload is the given span; buffer and stack are unchanged |
| `Reader.ReadStartDictionary` | dotTorrent.Bencode/BencodeReader.cs:120-130 | `d` is one StartDictionary token whose payload is the marker byte; it pushes a dictionary frame and sets the dictionary flag |
| `Reader.ReadStartList` | dotTorrent.Bencode/BencodeReader.cs:132-142 | `l` is one StartList token; it pushes a list frame and clears the dictionary flag |
| `Reader.ReadEndObject` | dotTorrent.Bencode/BencodeReader.cs:144-154 | fails iff no container is open; otherwise EndDictionary iff the innermost frame is a dictionary, and exactly one frame is popped |
| `Reader.RunEnd` | dotTorrent.Bencode/BencodeReader.cs:198-206 | the scan stops at the first non-digit at or after `start`, or at the end of the buffer, and everything before that point is a digit |
| `Reader.ReadDigits` | dotTorrent.Bencode/BencodeReader.cs:197-220 | a complete run is canonical (non-empty, all digits, no leading zero unless a lone `0`) and a non-digit delimiter follows it inside the buffer |
| `ReaderProperties.ReadDigitsComplete` | dotTorrent.Bencode/BencodeReader.cs:197-220 | conversely, every canonical run followed by a non-digit is found as a complete run of exactly its length |
| `ReaderProperties.ReadDigitsOutcome` | dotTorrent.Bencode/BencodeReader.cs:208-217 | needs more data iff the digits reach the end of a non-final buffer; fails with RanOutOfData iff they reach the end of the final one; ExpectedNumber iff no digit is at `start`; InvalidLeadingZeros only for a `0` followed by a digit |
| `Reader.ReadNumber` | dotTorrent.Bencode/BencodeReader.cs:156-174 | a suspended call changes nothing; a produced Number token is encoded by exactly the bytes consumed, as `i`, integer text, `e` |
| `Reader.ReadByteString` | dotTorrent.Bencode/BencodeReader.cs:176-195 | a suspended call changes nothing; a produced token of the requested kind is a canonical length prefix, a colon and exactly that many payload bytes |
| `Reader.Read` | dotTorrent.Bencode/BencodeReader.cs:53-92 | "no token" leaves the reader unchanged; a token is encoded by exactly the consumed bytes and changes the stack as its kind demands; it is a DictionaryKey iff a key is due |
| `Reader.TryGetInt64` | dotTorrent.Bencode/BencodeReader.cs:106-111 | over the corrected decoder: WrongType unless the token is a Number; otherwise succeeds iff the payload is decodable within long.MaxValue, with its signed value |
| `Reader.TryGetInt64AsWritten` | dotTorrent.Bencode/BencodeReader.cs:106-111 | over the source's decoder: WrongType unless the token is a Number; the signed value on every decodable payload, failure on every payload with a non-digit, and a value within long.MaxValue whenever it succeeds |
| `Reader.TryGetInt32` | dotTorrent.Bencode/BencodeReader.cs:113-118 | as TryGetInt64, within int.MaxValue |
| `Reader.GetInt64` | dotTorrent.Bencode/BencodeReader.cs:100-104 | over the corrected decoder: the payload's value iff it decodes within long.MaxValue; InvalidNumber exactly for a Number payload that does not decode |
| `Reader.GetInt64AsWritten` | dotTorrent.Bencode/BencodeReader.cs:100-111 | over the source's decoder: the payload's value whenever it decodes, InvalidNumber for a payload with a non-digit, and never a value beyond long.MaxValue |
| `Reader.GetInt32` | dotTorrent.Bencode/BencodeReader.cs:94-98 | as GetInt64, within int.MaxValue, so the value lies in [-2147483647, 2147483647] |
| `ReaderProperties.EndOfChunk` | dotTorrent.Bencode/BencodeReader.cs:54-58 | at the end of the chunk, Read fails iff this is the final chunk and a container is open; otherwise it reports "no token" and changes nothing |
| `ReaderProperties.CloseContainer` | dotTorrent.Bencode/BencodeReader.cs:144-154 | `e` at depth 0 is an error; otherwise the token is EndDictionary or EndList by the innermost frame, the stack loses its top frame and the cursor moves by one |
| `ReaderProperties.OpenContainer` | dotTorrent.Bencode/BencodeReader.cs:120-142 | `d`/`l` (no key due) push one frame, `true` for `d`, and set the dictionary flag accordingly |
| `ReaderProperties.UnknownLeadByte` | dotTorrent.Bencode/BencodeReader.cs:89-90 | with no key due, a byte that is not a digit, `i`, `d`, `l` or `e` fails with ExpectedToken |
| `ReaderProperties.ForcedKeyMustBeString` | dotTorrent.Bencode/BencodeReader.cs:66-67 | when a key is due, a byte that is not a digit is an error, whatever token it would otherwise start |
| `ReaderProperties.NoKeyAfterKey` | dotTorrent.Bencode/BencodeReader.cs:66 | the token after a DictionaryKey is never another key |
| `ReaderProperties.ShortNumber` | dotTorrent.Bencode/BencodeReader.cs:158-159 | `i` with fewer than three bytes left suspends on a non-final chunk and fails with RanOutOfData on the final one |
| `ReaderProperties.ReadNumberComplete` | dotTorrent.Bencode/BencodeReader.cs:156-174 | `i<text>e` with well-formed integer text is a Number whose payload is exactly the text between `i` and `e`; the cursor moves past the `e` and the stack is unchanged |
| `ReaderProperties.NumberWithoutEnd` | dotTorrent.Bencode/BencodeReader.cs:156-170 | a complete digit run after `i` and an optional `-`, not followed by `e`, fails with ExpectedEDelimiter |
| `ReaderProperties.ReadString` | dotTorrent.Bencode/BencodeReader.cs:176-195 | `<n>:`: a length above int.MaxValue fails on any chunk; a short payload suspends without consuming; otherwise the payload is exactly the `n` bytes after the colon, and the token is a key iff a key is due |
| `ReaderProperties.StringWithoutColon` | dotTorrent.Bencode/BencodeReader.cs:182-183 | a length prefix followed by anything but `:` fails with ExpectedColonDelimiter |
| `ReaderProperties.NumberRoundTrip` | dotTorrent.Bencode/BencodeReader.cs:100-111 | a fresh reader over `i<v>e` reads one Number; the corrected GetInt64 returns `v` iff abs(v) <= long.MaxValue and InvalidNumber otherwise; GetInt64 as written also returns `v` whenever abs(v) <= long.MaxValue |
| `ReaderProperties.NegativeZeroAccepted` | dotTorrent.Bencode/BencodeReader.cs:164-174 | "i-0e" is read as a Number with payload "-0", which decodes to 0 |
| `ReaderProperties.KeyWithoutValueAccepted` | dotTorrent.Bencode/BencodeReader.cs:66-67 | "d3:fooe" reads as StartDictionary, DictionaryKey "foo", EndDictionary, ending at depth 0 |
| `ReaderProperties.TruncatedStringSuspendsOnFinalChunk` | dotTorrent.Bencode/BencodeReader.cs:189-191 | "5:ab" on the final chunk reports "no token" rather than an error |
| `ReaderProperties.WrappedNumberAccepted` | dotTorrent.Bencode/BencodeReader.cs:100-111 | wherever `i18446744073709551616e` stands and no key is due, Read gives a Number token with those digits; GetInt64 as written returns 0, the corrected GetInt64 returns InvalidNumber |
| `Reader.WrapInt` | dotTorrent.Bencode/BencodeReader.cs:190 | a C# `int` sum: a value in [int.MinValue, int.MaxValue] congruent to the exact sum modulo 2^32 |
| `Reader.ReadPayloadAsWritten` | dotTorrent.Bencode/BencodeReader.cs:185-193 | the payload step with the `int` sum at line 190: a suspended call changes nothing, a produced token is as ReadByteString's, and the only errors are ByteStringOversized and the slice's ArgumentOutOfRange |
| `ReaderProperties.ShortNumberAtMaximalChunk` | dotTorrent.Bencode/BencodeReader.cs:157-166 | on a chunk of int.MaxValue bytes with `i` in its last two bytes, the source's `HasEnoughData(3)` passes where the exact one fails; after `i` and a byte that is neither a digit nor `-` the source's digit scan fails with ExpectedNumber, while Read suspends or fails with RanOutOfData |
| `ReaderProperties.PayloadAsWritten` | dotTorrent.Bencode/BencodeReader.cs:189-193 | the source's payload step and the model's differ exactly when `consumed + prefix + 1 + len` passes int.MaxValue: the source then throws ArgumentOutOfRange where the model suspends |
| `ReaderProperties.OverlongPrefixThrows` | dotTorrent.Bencode/BencodeReader.cs:176-193 | a length prefix whose payload would end past int.MaxValue: Read reaches the payload step and suspends, while the source's step throws |
| `ReaderProperties.MaxLengthPrefixThrows` | dotTorrent.Bencode/BencodeReader.cs:189-191 | "2147483647:" on the final chunk: Read suspends, and the source's payload step throws ArgumentOutOfRange |
| `ReaderProperties.EnoughDataAsWritten` | dotTorrent.Bencode/BencodeReader.cs:231-233 | the source's `HasEnoughData` agrees with the exact one while `consumed + min` is within int.MaxValue, and reports data whenever the sum passes it |
| `ReaderProperties.EndOfMaximalChunk` | dotTorrent.Bencode/BencodeReader.cs:53-58 | at the end of a chunk of int.MaxValue bytes the source's check reports a byte that is not there; Read suspends, or fails with UnexpectedEndOfInput on a final chunk with a container open |
| `Resumption.ReadTokens` | dotTorrent.Scratchpad/Program.cs:13-26 | the loop `while (reader.Read())`: the tokens read cover the consumed bytes in order, without gap or overlap; it stops only on suspension, on failure, or when the call budget is spent |
| `Resumption.ReadShift` | dotTorrent.Bencode/BencodeReader.cs:53-92 | one Read on a reader re-based onto a suffix of its buffer has the same outcome: the same error, or the same token shifted by the offset |
| `Resumption.ReadTokensShift` | dotTorrent.Bencode/BencodeReader.cs:53-92 | by induction on the calls: re-based readers produce the same token sequence, fail alike and suspend alike |
| `Resumption.ResumeContinues` | dotTorrent.Bencode/BencodeReader.cs:29 | a reader rebuilt from CurrentState over the unconsumed bytes continues with the same tokens, the same failure and the same suspension |
| `Resumption.ReadExtend` | dotTorrent.Bencode/BencodeReader.cs:208-211 | on a non-final chunk, any token or error Read reports depends only on bytes already in the chunk: over any longer buffer it is the same |
| `Resumption.ReadTokensExtend` | dotTorrent.Bencode/BencodeReader.cs:208-211 | the run over a non-final chunk is a prefix of the run over any longer buffer, which then continues as the widened last reader does |
| `Resumption.ReadTokensFailExtend` | dotTorrent.Bencode/BencodeReader.cs:208-211 | a run that fails over a non-final chunk fails the same way over any longer buffer: the error does not depend on bytes past the chunk |
| `Resumption.ChunkSplit` | dotTorrent.Bencode/BencodeReader.cs:40-51 | reading a non-final chunk, then resuming from the snapshot over its rest plus the next chunk, yields the same tokens, failure and suspension as reading the joined input in one pass, when the first chunk's run succeeds |
| `Resumption.ChunkSplitFailure` | dotTorrent.Bencode/BencodeReader.cs:208-211 | a run that fails inside the non-final first chunk gives the same failure when the joined input is read in one pass |

## Left out

- Console output and file reading in `dotTorrent.Scratchpad/Program.cs`: I/O. Only its read loop is modelled, as `Resumption.ReadTokens`.
- `dotTorrent.Bencode/Bencoder.cs`: a separate parser built on a parser-combinator library whose behaviour is not part of this model.
- `BitStack` internals: the bit packing and the move to a growable vector are not part of this model. The stack is a sequence of flags, read as described above.
- `ReadOnlySpan`/`ref struct` details: borrowing and zero-copy slicing. `Value` is an (offset, length) pair into the buffer, and `ValueBytes` is the slice.
- Exception types and messages: collapsed into `ErrorKind`, one constructor per distinct exception.
- C# `int` sums at line 190 and in `HasEnoughData` (line 232): the reader's members use exact sums. The wrapped sums are modelled apart (`Reader.WrapInt`, `Reader.HasEnoughDataAsWritten`, `Reader.ReadPayloadAsWritten`), and where they differ is listed under Findings. The chunk is at most int.MaxValue bytes (`Reader.Valid`). `_tokenStartIndex` is a `long` and is modelled as a `nat`.
- Reader.ReadPayload: uses the exact sum at line 190. For a declared length with `consumed + prefix + 1 + len` above int.MaxValue the source's sum wraps and the slice at line 226 throws, while the model suspends (`ReaderProperties.PayloadAsWritten`).
- Reader.ReadNumber: uses the exact `HasEnoughData(3)` at line 158. On a chunk of int.MaxValue bytes the source's sum wraps when `i` is in the last two bytes. With `i` as the last byte it then throws IndexOutOfRange at line 164. With `i` and then a byte that is neither a digit nor `-`, ReadDigits throws "expected number" (line 214). The model suspends, or fails with RanOutOfData on the final chunk (`ReaderProperties.ShortNumberAtMaximalChunk`).
- Reader.ReadByteString: ends in `Reader.ReadPayload`, so it suspends where the source throws on the wrapped sum.
- Reader.Read: uses the exact `HasEnoughData` and `Reader.ReadPayload`. At the end of a chunk of int.MaxValue bytes, on an `i` in the last two bytes of such a chunk, and on a length prefix whose payload would end past int.MaxValue, the source throws where the model suspends or fails otherwise (`ReaderProperties.EndOfMaximalChunk`, `ReaderProperties.ShortNumberAtMaximalChunk`, `ReaderProperties.OverlongPrefixThrows`).
- ReaderProperties.ReadString: states the exact sum. As written, a length with `consumed + n + 1 + len` above int.MaxValue throws instead of suspending.
- ReaderProperties.ShortNumber: states the exact check. As written, on a chunk of int.MaxValue bytes ending in `i`, or in `i` and a byte that is neither a digit nor `-`, the source throws instead (IndexOutOfRange at line 164, "expected number" at line 214).
- ReaderProperties.EndOfChunk: states the exact check. As written, at the end of a chunk of int.MaxValue bytes the source reads one byte past the end and throws.
- Reader.TryGetInt64: uses the corrected decoder. As written it succeeds with the wrapped value on some digit runs above long.MaxValue, such as 2^64 (`Reader.TryGetInt64AsWritten`, `ReaderProperties.WrappedNumberAccepted`).
- Reader.GetInt64: uses the corrected decoder. As written it returns 0 on the payload `18446744073709551616`, where the model returns InvalidNumber (`Reader.GetInt64AsWritten`).
- ReaderProperties.NumberRoundTrip: its "InvalidNumber otherwise" is about the corrected accessor. For the source's accessor it states only the range where abs(v) <= long.MaxValue.
- Resumption.ReadShift: proved for the exact sums. As written, the wrap at line 190 depends on the absolute cursor, so a re-based reader can suspend where the original throws.
- Resumption.ReadTokensShift: inherits the same restriction from `Resumption.ReadShift`.
- Resumption.ResumeContinues: inherits the same restriction from `Resumption.ReadShift`.
- Resumption.ChunkSplit: proved for the exact sums. As written, an overlong length prefix throws or suspends depending on where the chunk boundary falls.
- Lexicographic order of dictionary keys: the code does not check it (lines 64-65).
- `Reader.CurrentState`: a plain projection of the token kind and stack. It has no contract of its own; its meaning is stated by `Resumption.ResumeContinues` and `Resumption.ChunkSplit`.
- `Reader.HasEnoughData`: a predicate, used in the other contracts. How it differs from the source's `int` sum is stated by `ReaderProperties.EnoughDataAsWritten`.
- IntDecoder.TryGetInt64Wrapping: requires `max <= long.MaxValue`. The source takes any `ulong` maximum, but its only callers pass long.MaxValue and int.MaxValue.
- Resumption.ReadTokens: reads at most `fuel` tokens rather than looping until Read returns false; every property is stated for every budget.
- Resumption.ReadExtend: says nothing about a step that suspends on the chunk. Over a longer buffer that step may produce a token.

## Findings

| source | as written | input that shows it | evidently intended | confidence | as-written member | corrected member |
|---|---|---|---|---|---|---|
| dotTorrent.Bencode/BencodeReader.cs:249-253 | `unsigned = (unsigned * 10) + b` is computed in a `ulong` and can wrap modulo 2^64 before it is compared with `maxValue` | "18446744073709551616" (2^64) with max = long.MaxValue: the first nineteen digits spell 1844674407370955161, and the last step wraps to 0, so `TryGetInt64` returns true with value 0 | reject every magnitude above `maxValue` (comment at lines 251-252) | not executed | `IntDecoder.WrappingAcceptsTwoToThe64` (on `IntDecoder.TryGetInt64Wrapping`), `ReaderProperties.WrappedNumberAccepted` (on `Reader.GetInt64AsWritten`) | `IntDecoder.TryGetInt64`, `Reader.GetInt64` |
| dotTorrent.Bencode/BencodeReader.cs:189-191 | `_consumed + byteLen + 1 + len` is an `int` sum. A length near int.MaxValue wraps it negative, the check passes, and `_buffer.Slice` at line 226 throws ArgumentOutOfRangeException | the final chunk "2147483647:": the sum is 2147483658, which wraps to -2147483638 | return false while the payload is not yet in the buffer, as for every shorter length (comment at line 189) | not executed | `ReaderProperties.MaxLengthPrefixThrows` (on `Reader.ReadPayloadAsWritten`) | `Reader.ReadPayload`, `ReaderProperties.ReadString` |
| dotTorrent.Bencode/BencodeReader.cs:231-233 | `_consumed + min` is an `int` sum. Once the cursor is within `min` bytes of int.MaxValue it wraps negative, and `HasEnoughData` returns true | a non-final chunk of 2147483647 bytes read to its end, such as 715827882 copies of `i0e` followed by `l`: the next `Read` indexes `_buffer[2147483647]` and throws. In `ReadNumber` (`min` = 3, line 158): 715827882 copies of `i0e` followed by `i`, where line 164 indexes `_buffer[2147483647]`; or 715827881 copies of `i0e`, then `le` and `ix`, where ReadDigits throws "expected number" | report that too few bytes are left, so `Read` returns false, or throws "unexpected end of input" ("ran out of data" in `ReadNumber`) on a final chunk | not executed | `ReaderProperties.EndOfMaximalChunk`, `ReaderProperties.ShortNumberAtMaximalChunk` (on `Reader.HasEnoughDataAsWritten`) | `ReaderProperties.EndOfChunk`, `ReaderProperties.ShortNumber` |

The corrected definitions are the ones the rest of the model uses: the
reader's integer accessors, `Read` and the resumption theorems. The
as-written members exist to state each discrepancy. For
`TryGetInt32` (max = int.MaxValue) the wrap cannot occur:
`IntDecoder.Int32DecoderExact` proves that the source's decoder and the
corrected one agree on every input there. Byte-string lengths are therefore
decoded as the source decodes them.
