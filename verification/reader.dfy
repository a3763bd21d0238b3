/** BencodeReader: a forward-only, resumable token reader over one chunk of
    input. Each operation is a pure step: it takes the reader and returns the
    reader after the step, or the error the source would throw. */
module Reader {
  import opened Bytes
  import opened BitStack
  import opened IntDecoder
  import opened BencodeTypes
  import opened Grammar

  /** BencodeReaderState: what survives a chunk boundary. */
  datatype ReaderState = ReaderState(tokenType: TokenType, stack: Stack)

  /** `new BencodeReaderState()`: no token yet, no container open. */
  const DefaultState: ReaderState := ReaderState(TokenType.None, Empty)

  /** The span of input bytes the reader was constructed over. */
  datatype Chunk = Chunk(bytes: seq<byte>)

  /** The reader's fields: the chunk, whether it is the last one, the cursor
      (`BytesConsumed`), the current token's kind, start and payload, the
      dictionary flag and the container stack. */
  datatype Reader = Reader(
    chunk: Chunk,
    isFinal: bool,
    consumed: nat,
    tokenStart: nat,
    tokenType: TokenType,
    value: Span,
    inObject: bool,
    stack: Stack)
  {
    /** The chunk's bytes. */
    const buffer: seq<byte> := chunk.bytes
  }

  /** The outcome of a successful call: whether a token was produced (the
      `bool` the source returns) and the reader afterwards. */
  datatype Step = Step(produced: bool, next: Reader)

  /** Facts every reader keeps: a span can be at most int.MaxValue long, the
      cursor and the payload lie in the buffer, and the dictionary flag is the
      innermost frame of the stack. */
  predicate Valid(r: Reader) {
    && |r.buffer| <= IntMax
    && r.consumed <= |r.buffer|
    && r.tokenStart <= r.consumed
    && r.value.End() <= |r.buffer|
    && r.inObject == Peek(r.stack)
  }

  /** The bytes of the current token's payload (`Value`). */
  function ValueBytes(r: Reader): seq<byte>
    requires Valid(r)
  {
    r.buffer[r.value.offset..r.value.End()]
  }

  /** A successful step that produced a token: the buffer is unchanged, the
      token starts at the old cursor, the bytes up to the new cursor encode
      exactly that token, and the stack changed as the token demands. */
  predicate Advanced(r: Reader, t: Reader) {
    && t.buffer == r.buffer
    && t.isFinal == r.isFinal
    && t.tokenStart == r.consumed
    && EncodesToken(r.buffer, r.consumed, t.consumed, t.tokenType, t.value)
    && StackEffect(r.stack, t.tokenType, t.stack)
  }

  // ---------------------------------------------------------------------------
  // Construction and snapshot
  // ---------------------------------------------------------------------------

  /** The constructor: cursor at 0, no payload, and the token kind and stack
      taken from the snapshot, with the dictionary flag read off the stack. */
  function Create(data: seq<byte>, isFinal: bool, state: ReaderState): (r: Reader)
    requires |data| <= IntMax
    ensures Valid(r)
    ensures r.buffer == data && r.isFinal == isFinal && r.consumed == 0
    ensures r.tokenType == state.tokenType && r.stack == state.stack
  {
    Reader(Chunk(data), isFinal, 0, 0, state.tokenType, Span(0, 0), Peek(state.stack), state.stack)
  }

  /** `new BencodeReader(data)`: a single final chunk and the default state. */
  function CreateFinal(data: seq<byte>): (r: Reader)
    requires |data| <= IntMax
    ensures Valid(r) && r.buffer == data && r.isFinal && r.consumed == 0
    ensures r.tokenType == TokenType.None && !r.inObject && Depth(r.stack) == 0
  {
    Create(data, true, DefaultState)
  }

  /** CurrentState: the snapshot to resume from. */
  function CurrentState(r: Reader): ReaderState {
    ReaderState(r.tokenType, r.stack)
  }

  /** The cursor has `min` more bytes available. */
  predicate HasEnoughData(r: Reader, min: nat) {
    r.consumed + min <= |r.buffer|
  }

  /** Records a token of `length` bytes at the cursor with payload
      `buffer[start..start + len]`, and moves the cursor past it. */
  function SetCurrentToken(r: Reader, kind: TokenType, length: nat, start: nat, len: nat): (t: Reader)
    requires Valid(r) && r.consumed + length <= |r.buffer| && start + len <= |r.buffer|
    ensures Valid(t)
    ensures t.tokenStart == r.consumed && t.consumed == r.consumed + length
    ensures t.tokenType == kind && t.value == Span(start, len)
    ensures t.buffer == r.buffer && t.isFinal == r.isFinal
    ensures t.stack == r.stack && t.inObject == r.inObject
  {
    r.(tokenStart := r.consumed, tokenType := kind, value := Span(start, len), consumed := r.consumed + length)
  }

  // ---------------------------------------------------------------------------
  // Containers
  // ---------------------------------------------------------------------------

  function ReadStartDictionary(r: Reader): (t: Reader)
    requires Valid(r) && HasEnoughData(r, 1) && r.buffer[r.consumed] == LowerD
    ensures Valid(t) && Advanced(r, t)
    ensures t.tokenType == StartDictionary && t.consumed == r.consumed + 1
    ensures t.inObject
  {
    var stack := if Depth(r.stack) == 0 then SetFirstBit(r.stack) else PushTrue(r.stack);
    SetCurrentToken(r.(stack := stack, inObject := true), StartDictionary, 1, r.consumed, 1)
  }

  function ReadStartList(r: Reader): (t: Reader)
    requires Valid(r) && HasEnoughData(r, 1) && r.buffer[r.consumed] == LowerL
    ensures Valid(t) && Advanced(r, t)
    ensures t.tokenType == StartList && t.consumed == r.consumed + 1
    ensures !t.inObject
  {
    var stack := if Depth(r.stack) == 0 then ResetFirstBit(r.stack) else PushFalse(r.stack);
    SetCurrentToken(r.(stack := stack, inObject := false), StartList, 1, r.consumed, 1)
  }

  /** Closes the innermost container; the token says which kind it was. */
  function ReadEndObject(r: Reader): (res: Result<Reader>)
    requires Valid(r) && HasEnoughData(r, 1) && r.buffer[r.consumed] == LowerE
    ensures res.Fail? <==> Depth(r.stack) == 0
    ensures res.Fail? ==> res.error == UnexpectedEndOfObject
    ensures res.Ok? ==> Valid(res.value) && Advanced(r, res.value)
    ensures res.Ok? ==> (res.value.tokenType == EndDictionary <==> Peek(r.stack))
    ensures res.Ok? ==> Depth(res.value.stack) + 1 == Depth(r.stack)
  {
    if Depth(r.stack) == 0 then Fail(UnexpectedEndOfObject)
    else
      var kind := if r.inObject then EndDictionary else EndList;
      var popped := Pop(r.stack);
      Ok(SetCurrentToken(r.(stack := popped.0, inObject := popped.1), kind, 1, r.consumed, 1))
  }

  // ---------------------------------------------------------------------------
  // Digit runs
  // ---------------------------------------------------------------------------

  /** The end of the run of digits that starts at `i`. */
  function RunEnd(data: seq<byte>, i: nat): (e: nat)
    ensures i <= e
    ensures i > |data| ==> e == i
    ensures i <= |data| ==> e <= |data| && AllDigits(data[i..e])
    ensures e < |data| ==> !IsDigit(data[e])
    decreases |data| - i
  {
    if i >= |data| || !IsDigit(data[i]) then i
    else
      var e := RunEnd(data, i + 1);
      assert data[i..e] == [data[i]] + data[i + 1..e];
      e
  }

  /** The outcome of ReadDigits: a complete run of `len` digits with a delimiter
      after it, or a run that reaches the end of a non-final chunk. */
  datatype DigitScan = Complete(len: nat) | Incomplete

  /** ReadDigits: scans the digit run at `start`. A complete run is canonical
      and is followed by a byte that is not a digit, so the caller can read
      its delimiter. A run that reaches the end of the buffer needs more data,
      which is an error on the final chunk. */
  function ReadDigits(data: seq<byte>, start: nat, isFinal: bool): (res: Result<DigitScan>)
    ensures res.Ok? && res.value.Complete? ==>
      && start + res.value.len < |data|
      && IsCanonicalRun(data[start..start + res.value.len])
      && !IsDigit(data[start + res.value.len])
  {
    var end := RunEnd(data, start);
    var len := end - start;
    if end == |data| then
      if !isFinal then Ok(Incomplete) else Fail(RanOutOfData)
    else if len == 0 then Fail(ExpectedNumber)
    else if data[start] == Zero && len > 1 then Fail(InvalidLeadingZeros)
    else Ok(Complete(len))
  }

  // ---------------------------------------------------------------------------
  // Integers and byte strings
  // ---------------------------------------------------------------------------

  /** The number token ReadNumber records once the digits and the closing `e`
      have been checked. */
  lemma NumberAdvanced(r: Reader, offset: nat, n: nat)
    requires Valid(r) && (offset == 1 || offset == 2)
    requires r.consumed + offset + n < |r.buffer|
    requires r.buffer[r.consumed] == LowerI && r.buffer[r.consumed + offset + n] == LowerE
    requires offset == 2 <==> r.buffer[r.consumed + 1] == Minus
    requires IsCanonicalRun(r.buffer[r.consumed + offset..r.consumed + offset + n])
    ensures Advanced(r, SetCurrentToken(r, Number, offset + n + 1, r.consumed + 1, n + offset - 1))
  {
    var t := SetCurrentToken(r, Number, offset + n + 1, r.consumed + 1, n + offset - 1);
    NumberTextAt(r.buffer, r.consumed, offset, n);
    assert t.value.End() == r.consumed + offset + n;
  }

  /** The bytes between `i` and `e`: the digits, after a `-` when offset is 2. */
  lemma NumberTextAt(buf: seq<byte>, c: nat, offset: nat, n: nat)
    requires c + offset + n < |buf| && (offset == 1 || offset == 2)
    requires offset == 2 <==> buf[c + 1] == Minus
    requires IsCanonicalRun(buf[c + offset..c + offset + n])
    ensures IsIntegerText(buf[c + 1..c + offset + n])
  {
    if offset == 2 {
      assert buf[c + 1..c + offset + n][1..] == buf[c + offset..c + offset + n];
    } else {
      assert buf[c + 1..c + offset + n] == buf[c + offset..c + offset + n];
    }
  }

  /** ReadNumber: `i[-]<digits>e`. Fewer than three bytes left suspends on a
      non-final chunk; otherwise the payload is the sign and the digits. */
  function ReadNumber(r: Reader): (res: Result<Step>)
    requires Valid(r)
    ensures res.Ok? && !res.value.produced ==> res.value.next == r
    ensures res.Ok? && res.value.produced ==>
      Valid(res.value.next) && Advanced(r, res.value.next) && res.value.next.tokenType == Number
  {
    if !HasEnoughData(r, 3) then
      if !r.isFinal then Ok(Step(false, r)) else Fail(RanOutOfData)
    else if r.buffer[r.consumed] != LowerI then Fail(ExpectedIMarker)
    else ReadSigned(r, if r.buffer[r.consumed + 1] == Minus then 2 else 1)
  }

  /** The rest of ReadNumber past the `i` and, when `offset` is 2, the `-`:
      the digit run, then the closing `e`. */
  function ReadSigned(r: Reader, offset: nat): (res: Result<Step>)
    requires Valid(r) && HasEnoughData(r, 3) && r.buffer[r.consumed] == LowerI
    requires (offset == 1 || offset == 2) && (offset == 2 <==> r.buffer[r.consumed + 1] == Minus)
    ensures res.Ok? && !res.value.produced ==> res.value.next == r
    ensures res.Ok? && res.value.produced ==>
      Valid(res.value.next) && Advanced(r, res.value.next) && res.value.next.tokenType == Number
  {
    match ReadDigits(r.buffer, r.consumed + offset, r.isFinal)
    case Fail(e) => Fail(e)
    case Ok(Incomplete) => Ok(Step(false, r))
    case Ok(Complete(byteLen)) => CloseNumber(r, offset, byteLen)
  }

  /** The rest of ReadNumber once the `i`, the optional `-` (`offset` is 2
      after one) and a canonical run of `digits` digits have been found: the
      run must be followed by `e`. */
  function CloseNumber(r: Reader, offset: nat, digits: nat): (res: Result<Step>)
    requires Valid(r) && (offset == 1 || offset == 2)
    requires r.consumed + offset + digits < |r.buffer|
    requires r.buffer[r.consumed] == LowerI && (offset == 2 <==> r.buffer[r.consumed + 1] == Minus)
    requires IsCanonicalRun(r.buffer[r.consumed + offset..r.consumed + offset + digits])
    ensures res.Ok? && !res.value.produced ==> res.value.next == r
    ensures res.Ok? && res.value.produced ==>
      Valid(res.value.next) && Advanced(r, res.value.next) && res.value.next.tokenType == Number
  {
    if r.buffer[r.consumed + offset + digits] != LowerE then Fail(ExpectedEDelimiter)
    else
      NumberAdvanced(r, offset, digits);
      Ok(Step(true, SetCurrentToken(r, Number, offset + digits + 1, r.consumed + 1, digits + offset - 1)))
  }

  /** The string token ReadByteString records once the length prefix, the
      colon and the payload's presence have been checked. */
  lemma StringAdvanced(r: Reader, kind: TokenType, n: nat, len: nat)
    requires Valid(r) && IsStringKind(kind)
    requires r.consumed + n < |r.buffer| && r.buffer[r.consumed + n] == Colon
    requires IsCanonicalRun(r.buffer[r.consumed..r.consumed + n])
    requires DecimalValue(r.buffer[r.consumed..r.consumed + n]) == len
    requires r.consumed + n + 1 + len <= |r.buffer|
    ensures Advanced(r, SetCurrentToken(r, kind, n + 1 + len, r.consumed + n + 1, len))
  {
  }

  /** ReadByteString: `<n>:<bytes>`, reported as `kind`. A length that does not
      fit an int is corrupt input even mid-stream; a payload that is not yet
      complete suspends, on the final chunk too. */
  function ReadByteString(r: Reader, kind: TokenType): (res: Result<Step>)
    requires Valid(r) && IsStringKind(kind)
    ensures res.Ok? && !res.value.produced ==> res.value.next == r
    ensures res.Ok? && res.value.produced ==>
      Valid(res.value.next) && Advanced(r, res.value.next) && res.value.next.tokenType == kind
  {
    match ReadDigits(r.buffer, r.consumed, r.isFinal)
    case Fail(e) => Fail(e)
    case Ok(Incomplete) => Ok(Step(false, r))
    case Ok(Complete(byteLen)) =>
      if r.buffer[r.consumed + byteLen] != Colon then Fail(ExpectedColonDelimiter)
      else ReadPayload(r, kind, byteLen)
  }

  /** The rest of ReadByteString once a canonical length prefix of `prefix`
      digits and its colon have been found: the length must fit an int, and
      the payload must be in the buffer. */
  function ReadPayload(r: Reader, kind: TokenType, prefix: nat): (res: Result<Step>)
    requires Valid(r) && IsStringKind(kind)
    requires r.consumed + prefix < |r.buffer| && r.buffer[r.consumed + prefix] == Colon
    requires IsCanonicalRun(r.buffer[r.consumed..r.consumed + prefix])
    ensures res.Ok? && !res.value.produced ==> res.value.next == r
    ensures res.Ok? && res.value.produced ==>
      Valid(res.value.next) && Advanced(r, res.value.next) && res.value.next.tokenType == kind
  {
    var digits := r.buffer[r.consumed..r.consumed + prefix];
    var n := IntDecoder.TryGetInt32(digits);
    if !n.success then Fail(ByteStringOversized)
    else
      assert Magnitude(digits) == digits;
      var len := n.value as nat;
      if |r.buffer| < r.consumed + prefix + 1 + len then Ok(Step(false, r))
      else
        StringAdvanced(r, kind, prefix, len);
        Ok(Step(true, SetCurrentToken(r, kind, prefix + 1 + len, r.consumed + prefix + 1, len)))
  }

  // ---------------------------------------------------------------------------
  // Read
  // ---------------------------------------------------------------------------

  /** Inside a dictionary, unless the last token was a key or the next byte
      closes the dictionary, the next token must be a key. */
  predicate KeyForced(r: Reader)
    requires Valid(r) && HasEnoughData(r, 1)
  {
    r.inObject && r.tokenType != DictionaryKey && r.buffer[r.consumed] != LowerE
  }

  /** Read: produces the next token, suspends (`produced` false) when the chunk
      holds too little, or fails. */
  function Read(r: Reader): (res: Result<Step>)
    requires Valid(r)
    ensures res.Ok? && !res.value.produced ==> res.value.next == r
    ensures res.Ok? && res.value.produced ==> Valid(res.value.next) && Advanced(r, res.value.next)
    ensures res.Ok? && res.value.produced ==>
      (res.value.next.tokenType == DictionaryKey <==> KeyForced(r))
  {
    if !HasEnoughData(r, 1) then
      if r.isFinal && Depth(r.stack) > 0 then Fail(UnexpectedEndOfInput) else Ok(Step(false, r))
    else
      var next := r.buffer[r.consumed];
      if KeyForced(r) then ReadByteString(r, DictionaryKey)
      else if IsDigit(next) then ReadByteString(r, ByteString)
      else if next == LowerI then ReadNumber(r)
      else if next == LowerD then Ok(Step(true, ReadStartDictionary(r)))
      else if next == LowerL then Ok(Step(true, ReadStartList(r)))
      else if next == LowerE then
        match ReadEndObject(r)
        case Ok(t) => Ok(Step(true, t))
        case Fail(e) => Fail(e)
      else Fail(ExpectedToken)
  }

  // ---------------------------------------------------------------------------
  // Integer accessors
  // ---------------------------------------------------------------------------

  /** TryGetInt64(out long): only on a Number token; decodes the payload with
      magnitude at most long.MaxValue. */
  function TryGetInt64(r: Reader): (res: Result<TryInt>)
    requires Valid(r)
    ensures r.tokenType != Number ==> res == Fail(WrongType)
    ensures res.Fail? && r.tokenType == Number ==> res.error == IndexOutOfRange && r.value.len == 0
    ensures res.Ok? ==> r.tokenType == Number && |ValueBytes(r)| > 0
    ensures res.Ok? && res.value.success ==>
      Decodable(ValueBytes(r), LongMax) && res.value.value == SignedValue(ValueBytes(r))
    ensures res.Ok? && !res.value.success ==> !Decodable(ValueBytes(r), LongMax)
  {
    if r.tokenType != Number then Fail(WrongType)
    else if r.value.len == 0 then Fail(IndexOutOfRange)
    else Ok(IntDecoder.TryGetInt64(ValueBytes(r), LongMax))
  }

  /** TryGetInt32(out int): as TryGetInt64, bounded by int.MaxValue. */
  function TryGetInt32(r: Reader): (res: Result<TryInt>)
    requires Valid(r)
    ensures r.tokenType != Number ==> res == Fail(WrongType)
    ensures res.Fail? && r.tokenType == Number ==> res.error == IndexOutOfRange && r.value.len == 0
    ensures res.Ok? ==> r.tokenType == Number && |ValueBytes(r)| > 0
    ensures res.Ok? && res.value.success ==>
      Decodable(ValueBytes(r), IntMax) && res.value.value == SignedValue(ValueBytes(r))
    ensures res.Ok? && !res.value.success ==> !Decodable(ValueBytes(r), IntMax)
  {
    if r.tokenType != Number then Fail(WrongType)
    else if r.value.len == 0 then Fail(IndexOutOfRange)
    else Ok(IntDecoder.TryGetInt32(ValueBytes(r)))
  }

  /** GetInt64: the value, or InvalidNumber when it does not decode. */
  function GetInt64(r: Reader): (res: Result<int>)
    requires Valid(r)
    ensures res.Ok? <==> r.tokenType == Number && r.value.len > 0 && Decodable(ValueBytes(r), LongMax)
    ensures res.Ok? ==> res.value == SignedValue(ValueBytes(r))
    ensures res == Fail(InvalidNumber) <==>
      r.tokenType == Number && r.value.len > 0 && !Decodable(ValueBytes(r), LongMax)
  {
    match TryGetInt64(r)
    case Fail(e) => Fail(e)
    case Ok(v) => if !v.success then Fail(InvalidNumber) else Ok(v.value)
  }

  /** GetInt32: the value, or InvalidNumber when it does not fit an int. */
  function GetInt32(r: Reader): (res: Result<int>)
    requires Valid(r)
    ensures res.Ok? <==> r.tokenType == Number && r.value.len > 0 && Decodable(ValueBytes(r), IntMax)
    ensures res.Ok? ==> res.value == SignedValue(ValueBytes(r)) && -(IntMax as int) <= res.value <= IntMax
    ensures res == Fail(InvalidNumber) <==>
      r.tokenType == Number && r.value.len > 0 && !Decodable(ValueBytes(r), IntMax)
  {
    match TryGetInt32(r)
    case Fail(e) => Fail(e)
    case Ok(v) => if !v.success then Fail(InvalidNumber) else Ok(v.value)
  }

  // ---------------------------------------------------------------------------
  // As written: three places where the source's arithmetic departs from the
  // exact arithmetic the members above use
  // ---------------------------------------------------------------------------

  /** A C# `int` result: the exact value reduced modulo 2^32 into
      [int.MinValue, int.MaxValue]. */
  function WrapInt(x: int): (w: int)
    ensures -(IntMax as int) - 1 <= w <= IntMax
    ensures (x - w) % IntModulus == 0
  {
    (x + IntMax + 1) % IntModulus - IntMax - 1
  }

  /** HasEnoughData as written: `_consumed + min` is an `int`, which wraps
      negative past int.MaxValue before it is widened and compared with the
      length. */
  predicate HasEnoughDataAsWritten(r: Reader, min: nat) {
    WrapInt(r.consumed + min) <= |r.buffer|
  }

  /** ReadPayload as written: the sum compared with the length is an `int`,
      so a length near int.MaxValue wraps it negative, the check passes, and
      slicing the payload past the end of the buffer throws. */
  function ReadPayloadAsWritten(r: Reader, kind: TokenType, prefix: nat): (res: Result<Step>)
    requires Valid(r) && IsStringKind(kind)
    requires r.consumed + prefix < |r.buffer| && r.buffer[r.consumed + prefix] == Colon
    requires IsCanonicalRun(r.buffer[r.consumed..r.consumed + prefix])
    ensures res.Ok? && !res.value.produced ==> res.value.next == r
    ensures res.Ok? && res.value.produced ==>
      Valid(res.value.next) && Advanced(r, res.value.next) && res.value.next.tokenType == kind
    ensures res.Fail? ==> res.error == ByteStringOversized || res.error == ArgumentOutOfRange
  {
    var digits := r.buffer[r.consumed..r.consumed + prefix];
    var n := IntDecoder.TryGetInt32(digits);
    if !n.success then Fail(ByteStringOversized)
    else
      assert Magnitude(digits) == digits;
      var len := n.value as nat;
      if |r.buffer| < WrapInt(r.consumed + prefix + 1 + len) then Ok(Step(false, r))
      else if |r.buffer| < r.consumed + prefix + 1 + len then Fail(ArgumentOutOfRange)
      else
        StringAdvanced(r, kind, prefix, len);
        Ok(Step(true, SetCurrentToken(r, kind, prefix + 1 + len, r.consumed + prefix + 1, len)))
  }

  /** TryGetInt64(out long) as written, over the wrapping decoder: it agrees
      with TryGetInt64 on every payload that decodes and on every payload
      holding a non-digit. */
  function TryGetInt64AsWritten(r: Reader): (res: Result<TryInt>)
    requires Valid(r)
    ensures r.tokenType != Number ==> res == Fail(WrongType)
    ensures res.Fail? && r.tokenType == Number ==> res.error == IndexOutOfRange && r.value.len == 0
    ensures res.Ok? ==> r.tokenType == Number && |ValueBytes(r)| > 0
    ensures res.Ok? && Decodable(ValueBytes(r), LongMax) ==>
      res.value == TryInt(true, SignedValue(ValueBytes(r)))
    ensures res.Ok? && !AllDigits(Magnitude(ValueBytes(r))) ==> res.value == TryInt(false, 0)
    ensures res.Ok? && res.value.success ==> -(LongMax as int) <= res.value.value <= LongMax
  {
    if r.tokenType != Number then Fail(WrongType)
    else if r.value.len == 0 then Fail(IndexOutOfRange)
    else
      WrappingAgrees(ValueBytes(r), LongMax);
      Ok(TryGetInt64Wrapping(ValueBytes(r), LongMax))
  }

  /** GetInt64 as written. */
  function GetInt64AsWritten(r: Reader): (res: Result<int>)
    requires Valid(r)
    ensures r.tokenType != Number ==> res == Fail(WrongType)
    ensures r.tokenType == Number && r.value.len == 0 ==> res == Fail(IndexOutOfRange)
    ensures r.tokenType == Number && r.value.len > 0 && Decodable(ValueBytes(r), LongMax) ==>
      res == Ok(SignedValue(ValueBytes(r)))
    ensures r.tokenType == Number && r.value.len > 0 && !AllDigits(Magnitude(ValueBytes(r))) ==>
      res == Fail(InvalidNumber)
    ensures res.Ok? ==> -(LongMax as int) <= res.value <= LongMax
  {
    match TryGetInt64AsWritten(r)
    case Fail(e) => Fail(e)
    case Ok(v) => if !v.success then Fail(InvalidNumber) else Ok(v.value)
  }
}
