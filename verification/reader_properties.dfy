/** Properties of one Read: what it does at the end of a chunk, on each kind of
    token, inside dictionaries, on the inputs where the reader is more
    permissive than the Bencode grammar, and where the source's 32- and 64-bit
    arithmetic departs from the exact arithmetic of the model.

    Read, ReadNumber and ReadByteString unfold into large formulas. Lemmas
    such as DigitsRead, SignRead, PrefixRead and SameToken each state one
    unfolding step or one equality of arguments on their own, so that the
    lemmas that use them stay small for the verifier. */
module ReaderProperties {
  import opened Bytes
  import opened BitStack
  import opened IntDecoder
  import opened BencodeTypes
  import opened Grammar
  import opened Reader

  // ---------------------------------------------------------------------------
  // Digit runs
  // ---------------------------------------------------------------------------

  /** A run of digits from `i` to `j` that stops at a non-digit (or the end)
      is exactly what RunEnd finds. */
  lemma {:induction false} RunEndAt(data: seq<byte>, i: nat, j: nat)
    requires i <= j <= |data| && AllDigits(data[i..j])
    requires j < |data| ==> !IsDigit(data[j])
    ensures RunEnd(data, i) == j
    decreases j - i
  {
    if i < j {
      assert IsDigit(data[i..j][0]);
      assert data[i + 1..j] == data[i..j][1..];
      RunEndAt(data, i + 1, j);
    }
  }

  /** ReadDigits finds every canonical run that has a delimiter after it. */
  lemma ReadDigitsComplete(data: seq<byte>, start: nat, n: nat, isFinal: bool)
    requires start + n < |data|
    requires IsCanonicalRun(data[start..start + n]) && !IsDigit(data[start + n])
    ensures ReadDigits(data, start, isFinal) == Ok(Complete(n))
  {
    RunEndAt(data, start, start + n);
    assert data[start] == data[start..start + n][0];
  }

  /** Every outcome of ReadDigits and what causes it: it needs more data
      exactly when the digits run to the end of the buffer (an error on the
      final chunk), and it reports an empty run or a leading zero otherwise. */
  lemma ReadDigitsOutcome(data: seq<byte>, start: nat, isFinal: bool)
    ensures var res := ReadDigits(data, start, isFinal);
      && (res == Ok(Incomplete) <==> !isFinal && start <= |data| && AllDigits(data[start..]))
      && (res == Fail(RanOutOfData) <==> isFinal && start <= |data| && AllDigits(data[start..]))
      && (res == Fail(ExpectedNumber) <==> start > |data| || (start < |data| && !IsDigit(data[start])))
      && (res == Fail(InvalidLeadingZeros) ==> start + 1 < |data| && data[start] == Zero && IsDigit(data[start + 1]))
      && (res.Fail? ==> res.error in {RanOutOfData, ExpectedNumber, InvalidLeadingZeros})
  {
    var e := RunEnd(data, start);
    if start <= |data| {
      if e == |data| {
        assert data[start..] == data[start..e];
      } else {
        assert data[start..][e - start] == data[e];
      }
    }
  }

  // ---------------------------------------------------------------------------
  // Construction
  // ---------------------------------------------------------------------------

  /** A new reader holds no token yet: the token start is 0 and the payload is
      empty. A reader resumed from the snapshot of a Number token therefore
      reports IndexOutOfRange from the integer accessors. */
  lemma CreateHasNoToken(data: seq<byte>, isFinal: bool, state: ReaderState)
    requires |data| <= IntMax
    ensures Create(data, isFinal, state).tokenStart == 0
    ensures Create(data, isFinal, state).value == Span(0, 0)
    ensures state.tokenType == Number ==>
      && GetInt64(Create(data, isFinal, state)) == Fail(IndexOutOfRange)
      && GetInt32(Create(data, isFinal, state)) == Fail(IndexOutOfRange)
  {
  }

  // ---------------------------------------------------------------------------
  // End of chunk and nesting
  // ---------------------------------------------------------------------------

  /** With no byte left, Read suspends, unless this is the final chunk and a
      container is still open. */
  lemma EndOfChunk(r: Reader)
    requires Valid(r) && r.consumed == |r.buffer|
    ensures r.isFinal && Depth(r.stack) > 0 ==> Read(r) == Fail(UnexpectedEndOfInput)
    ensures !(r.isFinal && Depth(r.stack) > 0) ==> Read(r) == Ok(Step(false, r))
  {
  }

  /** `e` with no container open is an error; otherwise it closes the innermost
      container, reporting its kind, and pops exactly one frame. */
  lemma CloseContainer(r: Reader)
    requires Valid(r) && HasEnoughData(r, 1) && r.buffer[r.consumed] == LowerE
    ensures Depth(r.stack) == 0 ==> Read(r) == Fail(UnexpectedEndOfObject)
    ensures Depth(r.stack) > 0 ==>
      && Read(r).Ok? && Read(r).value.produced
      && Read(r).value.next.tokenType == (if Peek(r.stack) then EndDictionary else EndList)
      && Read(r).value.next.stack == r.stack[..Depth(r.stack) - 1]
      && Read(r).value.next.consumed == r.consumed + 1
  {
  }

  /** `d` and `l` open one frame each, recording the container kind. */
  lemma OpenContainer(r: Reader)
    requires Valid(r) && HasEnoughData(r, 1)
    requires r.buffer[r.consumed] == LowerD || r.buffer[r.consumed] == LowerL
    requires !KeyForced(r)
    ensures Read(r).Ok? && Read(r).value.produced
    ensures Read(r).value.next.stack == r.stack + [r.buffer[r.consumed] == LowerD]
    ensures Read(r).value.next.inObject <==> r.buffer[r.consumed] == LowerD
    ensures Read(r).value.next.tokenType ==
      (if r.buffer[r.consumed] == LowerD then StartDictionary else StartList)
  {
  }

  // ---------------------------------------------------------------------------
  // Dictionary keys
  // ---------------------------------------------------------------------------

  /** Inside a dictionary, when a key is due, a byte that cannot start a length
      prefix is an error: the reader never falls back to another token kind. */
  lemma ForcedKeyMustBeString(r: Reader)
    requires Valid(r) && HasEnoughData(r, 1) && KeyForced(r)
    requires !IsDigit(r.buffer[r.consumed])
    ensures Read(r) == Fail(ExpectedNumber)
  {
  }

  /** A key is never followed by another key. */
  lemma NoKeyAfterKey(r: Reader)
    requires Valid(r) && r.tokenType == DictionaryKey
    ensures Read(r).Ok? && Read(r).value.produced ==> Read(r).value.next.tokenType != DictionaryKey
  {
  }

  /** With no key due, a byte that starts no token is an error. */
  lemma UnknownLeadByte(r: Reader)
    requires Valid(r) && HasEnoughData(r, 1) && !KeyForced(r)
    requires var b := r.buffer[r.consumed];
      !IsDigit(b) && b != LowerI && b != LowerD && b != LowerL && b != LowerE
    ensures Read(r) == Fail(ExpectedToken)
  {
  }

  // ---------------------------------------------------------------------------
  // Integers
  // ---------------------------------------------------------------------------

  /** An integer token with fewer than three bytes left suspends on a non-final
      chunk and is an error on the final one. */
  lemma ShortNumber(r: Reader)
    requires Valid(r) && HasEnoughData(r, 1) && !HasEnoughData(r, 3)
    requires r.buffer[r.consumed] == LowerI && !KeyForced(r)
    ensures r.isFinal ==> Read(r) == Fail(RanOutOfData)
    ensures !r.isFinal ==> Read(r) == Ok(Step(false, r))
  {
  }

  /** Past the `i`, the optional `-` and a complete digit run, ReadNumber is
      down to checking for the closing `e`. */
  lemma DigitsRead(r: Reader, offset: nat, n: nat)
    requires Valid(r) && HasEnoughData(r, 3) && r.buffer[r.consumed] == LowerI
    requires (offset == 1 && r.buffer[r.consumed + 1] != Minus) || (offset == 2 && r.buffer[r.consumed + 1] == Minus)
    requires ReadDigits(r.buffer, r.consumed + offset, r.isFinal) == Ok(Complete(n))
    ensures ReadNumber(r) == CloseNumber(r, offset, n)
  {
    SignRead(r, offset);
    SignedDigitsRead(r, offset, n);
  }

  /** Once the digit run is complete, ReadSigned is down to CloseNumber. */
  lemma SignedDigitsRead(r: Reader, offset: nat, n: nat)
    requires Valid(r) && HasEnoughData(r, 3) && r.buffer[r.consumed] == LowerI
    requires (offset == 1 || offset == 2) && (offset == 2 <==> r.buffer[r.consumed + 1] == Minus)
    requires ReadDigits(r.buffer, r.consumed + offset, r.isFinal) == Ok(Complete(n))
    ensures ReadSigned(r, offset) == CloseNumber(r, offset, n)
  {
    match ReadDigits(r.buffer, r.consumed + offset, r.isFinal)
    case Ok(Complete(byteLen)) => assert byteLen == n;
  }

  /** ReadNumber hands over to ReadSigned with the offset the sign dictates. */
  lemma SignRead(r: Reader, offset: nat)
    requires Valid(r) && HasEnoughData(r, 3) && r.buffer[r.consumed] == LowerI
    requires (offset == 1 && r.buffer[r.consumed + 1] != Minus) || (offset == 2 && r.buffer[r.consumed + 1] == Minus)
    ensures ReadNumber(r) == ReadSigned(r, offset)
  {
    assert offset == if r.buffer[r.consumed + 1] == Minus then 2 else 1;
  }

  /** A digit run followed by anything but `e` is an error. */
  lemma NumberUnclosed(r: Reader, offset: nat, n: nat)
    requires Valid(r) && (offset == 1 || offset == 2)
    requires r.consumed + offset + n < |r.buffer|
    requires r.buffer[r.consumed] == LowerI && (offset == 2 <==> r.buffer[r.consumed + 1] == Minus)
    requires IsCanonicalRun(r.buffer[r.consumed + offset..r.consumed + offset + n])
    requires r.buffer[r.consumed + offset + n] != LowerE
    ensures CloseNumber(r, offset, n) == Fail(ExpectedEDelimiter)
  {
  }

  /** A digit run closed by `e` is a Number whose payload is the optional sign
      and the digits. */
  lemma NumberClosed(r: Reader, offset: nat, n: nat)
    requires Valid(r) && (offset == 1 || offset == 2)
    requires r.consumed + offset + n < |r.buffer|
    requires r.buffer[r.consumed] == LowerI && (offset == 2 <==> r.buffer[r.consumed + 1] == Minus)
    requires IsCanonicalRun(r.buffer[r.consumed + offset..r.consumed + offset + n])
    requires r.buffer[r.consumed + offset + n] == LowerE
    ensures CloseNumber(r, offset, n) == Ok(Step(true, SetCurrentToken(r, Number, offset + n + 1, r.consumed + 1, n + offset - 1)))
  {
  }

  /** An integer whose digits are not closed by `e`. */
  lemma NumberUnclosedAt(r: Reader, offset: nat, n: nat)
    requires Valid(r) && HasEnoughData(r, 3) && r.buffer[r.consumed] == LowerI
    requires (offset == 1 && r.buffer[r.consumed + 1] != Minus) || (offset == 2 && r.buffer[r.consumed + 1] == Minus)
    requires ReadDigits(r.buffer, r.consumed + offset, r.isFinal) == Ok(Complete(n))
    requires r.buffer[r.consumed + offset + n] != LowerE
    ensures ReadNumber(r) == Fail(ExpectedEDelimiter)
  {
    DigitsRead(r, offset, n);
    NumberUnclosed(r, offset, n);
  }

  /** An integer token whose digit run fails or runs off the chunk. */
  lemma NumberStopAt(r: Reader, offset: nat)
    requires Valid(r) && HasEnoughData(r, 3) && r.buffer[r.consumed] == LowerI
    requires (offset == 1 && r.buffer[r.consumed + 1] != Minus) || (offset == 2 && r.buffer[r.consumed + 1] == Minus)
    requires !ReadDigits(r.buffer, r.consumed + offset, r.isFinal).Ok? ||
             !ReadDigits(r.buffer, r.consumed + offset, r.isFinal).value.Complete?
    ensures ReadDigits(r.buffer, r.consumed + offset, r.isFinal).Fail? ==>
      ReadNumber(r) == Fail(ReadDigits(r.buffer, r.consumed + offset, r.isFinal).error)
    ensures ReadDigits(r.buffer, r.consumed + offset, r.isFinal).Ok? ==> ReadNumber(r) == Ok(Step(false, r))
  {
  }

  /** ReadNumber on `i<text>e` with a well-formed integer text. */
  lemma ReadNumberText(r: Reader, n: nat)
    requires Valid(r) && r.consumed + n + 1 < |r.buffer|
    requires r.buffer[r.consumed] == LowerI && r.buffer[r.consumed + n + 1] == LowerE
    requires IsIntegerText(r.buffer[r.consumed + 1..r.consumed + n + 1])
    ensures ReadNumber(r) == Ok(Step(true, SetCurrentToken(r, Number, n + 2, r.consumed + 1, n)))
  {
    if r.buffer[r.consumed + 1] == Minus {
      NegativeText(r, n);
    } else {
      PositiveText(r, n);
    }
  }

  /** The number token ReadNumber produces once its digits and `e` are found. */
  lemma NumberProducedAt(r: Reader, offset: nat, n: nat)
    requires Valid(r) && HasEnoughData(r, 3) && r.buffer[r.consumed] == LowerI
    requires (offset == 1 && r.buffer[r.consumed + 1] != Minus) || (offset == 2 && r.buffer[r.consumed + 1] == Minus)
    requires ReadDigits(r.buffer, r.consumed + offset, r.isFinal) == Ok(Complete(n))
    requires r.buffer[r.consumed + offset + n] == LowerE
    ensures ReadNumber(r) == Ok(Step(true, SetCurrentToken(r, Number, offset + n + 1, r.consumed + 1, n + offset - 1)))
  {
    DigitsRead(r, offset, n);
    NumberClosed(r, offset, n);
  }

  lemma NegativeText(r: Reader, n: nat)
    requires Valid(r) && r.consumed + n + 1 < |r.buffer|
    requires r.buffer[r.consumed] == LowerI && r.buffer[r.consumed + n + 1] == LowerE
    requires IsIntegerText(r.buffer[r.consumed + 1..r.consumed + n + 1]) && r.buffer[r.consumed + 1] == Minus
    ensures ReadNumber(r) == Ok(Step(true, SetCurrentToken(r, Number, n + 2, r.consumed + 1, n)))
  {
    NegativeDigits(r.buffer, r.consumed, n);
    var offset, m := 2, n - 1;
    ReadDigitsComplete(r.buffer, r.consumed + offset, m, r.isFinal);
    NumberProducedAt(r, offset, m);
    SameToken(r, Number, offset + m + 1, n + 2, r.consumed + 1, m + offset - 1, n);
  }

  lemma PositiveText(r: Reader, n: nat)
    requires Valid(r) && r.consumed + n + 1 < |r.buffer|
    requires r.buffer[r.consumed] == LowerI && r.buffer[r.consumed + n + 1] == LowerE
    requires IsIntegerText(r.buffer[r.consumed + 1..r.consumed + n + 1]) && r.buffer[r.consumed + 1] != Minus
    ensures ReadNumber(r) == Ok(Step(true, SetCurrentToken(r, Number, n + 2, r.consumed + 1, n)))
  {
    var offset := 1;
    assert r.buffer[r.consumed + 1..r.consumed + n + 1] == r.buffer[r.consumed + offset..r.consumed + offset + n];
    ReadDigitsComplete(r.buffer, r.consumed + offset, n, r.isFinal);
    NumberProducedAt(r, offset, n);
    SameToken(r, Number, offset + n + 1, n + 2, r.consumed + 1, n + offset - 1, n);
  }

  /** The digits of a negative integer text of length `n`: the `n - 1` bytes
      after the sign. */
  lemma NegativeDigits(buf: seq<byte>, c: nat, n: nat)
    requires c + n + 1 < |buf| && buf[c + n + 1] == LowerE
    requires IsIntegerText(buf[c + 1..c + n + 1]) && buf[c + 1] == Minus
    ensures n >= 1 && c + 2 + (n - 1) < |buf|
    ensures IsCanonicalRun(buf[c + 2..c + 2 + (n - 1)]) && !IsDigit(buf[c + 2 + (n - 1)])
  {
    var text := buf[c + 1..c + n + 1];
    assert text[0] == Minus;
    assert !IsCanonicalRun(text);
    assert text[1..] == buf[c + 2..c + 2 + (n - 1)];
  }

  /** The same token recorded with equal lengths spelled differently. */
  lemma SameToken(r: Reader, kind: TokenType, length: nat, length': nat, start: nat, len: nat, len': nat)
    requires Valid(r) && r.consumed + length <= |r.buffer| && start + len <= |r.buffer|
    requires length == length' && len == len'
    ensures SetCurrentToken(r, kind, length, start, len) == SetCurrentToken(r, kind, length', start, len')
  {
  }

  /** `i<text>e` with a well-formed integer text is read as a Number whose
      payload is exactly the text, and the cursor moves past the `e`. */
  lemma ReadNumberComplete(r: Reader, n: nat)
    requires Valid(r) && r.consumed + n + 1 < |r.buffer|
    requires r.buffer[r.consumed] == LowerI && r.buffer[r.consumed + n + 1] == LowerE
    requires IsIntegerText(r.buffer[r.consumed + 1..r.consumed + n + 1])
    requires !KeyForced(r)
    ensures Read(r).Ok? && Read(r).value.produced
    ensures Read(r).value.next.tokenType == Number
    ensures Read(r).value.next.value == Span(r.consumed + 1, n)
    ensures Read(r).value.next.consumed == r.consumed + n + 2
    ensures Read(r).value.next.stack == r.stack
  {
    assert Read(r) == ReadNumber(r);
    ReadNumberText(r, n);
  }

  /** An integer whose digits, after the optional `-`, are not closed by
      `e` is an error. */
  lemma NumberWithoutEnd(r: Reader, offset: nat, n: nat)
    requires Valid(r) && r.consumed + offset + n < |r.buffer| && r.buffer[r.consumed] == LowerI
    requires (offset == 1 && r.buffer[r.consumed + 1] != Minus) || (offset == 2 && r.buffer[r.consumed + 1] == Minus)
    requires IsCanonicalRun(r.buffer[r.consumed + offset..r.consumed + offset + n])
    requires !IsDigit(r.buffer[r.consumed + offset + n]) && r.buffer[r.consumed + offset + n] != LowerE
    requires !KeyForced(r)
    ensures Read(r) == Fail(ExpectedEDelimiter)
  {
    ReadDigitsComplete(r.buffer, r.consumed + offset, n, r.isFinal);
    assert Read(r) == ReadNumber(r);
    NumberUnclosedAt(r, offset, n);
  }

  // ---------------------------------------------------------------------------
  // Byte strings
  // ---------------------------------------------------------------------------

  /** `<n>:` followed by the payload. A length beyond int.MaxValue is an error
      on every chunk; a payload not yet complete suspends, on the final chunk
      too; otherwise the token's payload is exactly the `n` bytes after the
      colon, and it is a key precisely when a key is due. */
  lemma ReadString(r: Reader, n: nat)
    requires Valid(r) && r.consumed + n < |r.buffer|
    requires IsCanonicalRun(r.buffer[r.consumed..r.consumed + n])
    requires r.buffer[r.consumed + n] == Colon
    ensures var len := DecimalValue(r.buffer[r.consumed..r.consumed + n]);
      && (len > IntMax ==> Read(r) == Fail(ByteStringOversized))
      && (len <= IntMax && r.consumed + n + 1 + len > |r.buffer| ==> Read(r) == Ok(Step(false, r)))
      && (r.consumed + n + 1 + len <= |r.buffer| ==>
            && Read(r).Ok? && Read(r).value.produced
            && Read(r).value.next.value == Span(r.consumed + n + 1, len)
            && Read(r).value.next.consumed == r.consumed + n + 1 + len
            && Read(r).value.next.stack == r.stack
            && Read(r).value.next.tokenType == (if KeyForced(r) then DictionaryKey else ByteString))
  {
    assert IsDigit(r.buffer[r.consumed..r.consumed + n][0]);
    ReadDigitsComplete(r.buffer, r.consumed, n, r.isFinal);
    var kind := if KeyForced(r) then DictionaryKey else ByteString;
    StringLead(r, kind);
    PrefixRead(r, kind, n);
    PayloadOutcome(r, kind, n);
  }

  /** A digit where a token starts leads Read into ReadByteString, for a key
      when one is due. */
  lemma StringLead(r: Reader, kind: TokenType)
    requires Valid(r) && HasEnoughData(r, 1) && IsDigit(r.buffer[r.consumed])
    requires kind == if KeyForced(r) then DictionaryKey else ByteString
    ensures Read(r) == ReadByteString(r, kind)
  {
  }

  /** After a complete length prefix and its colon, ReadByteString is down to
      the payload. */
  lemma PrefixRead(r: Reader, kind: TokenType, n: nat)
    requires Valid(r) && IsStringKind(kind)
    requires ReadDigits(r.buffer, r.consumed, r.isFinal) == Ok(Complete(n))
    requires r.buffer[r.consumed + n] == Colon
    ensures ReadByteString(r, kind) == ReadPayload(r, kind, n)
  {
  }

  /** The three outcomes of the payload step, by the length the prefix spells. */
  lemma PayloadOutcome(r: Reader, kind: TokenType, n: nat)
    requires Valid(r) && IsStringKind(kind) && r.consumed + n < |r.buffer|
    requires IsCanonicalRun(r.buffer[r.consumed..r.consumed + n])
    requires r.buffer[r.consumed + n] == Colon
    ensures var len := DecimalValue(r.buffer[r.consumed..r.consumed + n]);
      && (len > IntMax ==> ReadPayload(r, kind, n) == Fail(ByteStringOversized))
      && (len <= IntMax && r.consumed + n + 1 + len > |r.buffer| ==> ReadPayload(r, kind, n) == Ok(Step(false, r)))
      && (r.consumed + n + 1 + len <= |r.buffer| ==>
            ReadPayload(r, kind, n) == Ok(Step(true, SetCurrentToken(r, kind, n + 1 + len, r.consumed + n + 1, len))))
  {
    var len := DecimalValue(r.buffer[r.consumed..r.consumed + n]);
    if len > IntMax {
      LengthOversized(r, kind, n);
    } else if r.consumed + n + 1 + len > |r.buffer| {
      LengthMissing(r, kind, n, len);
    } else {
      LengthPresent(r, kind, n, len);
    }
  }

  lemma LengthOversized(r: Reader, kind: TokenType, n: nat)
    requires Valid(r) && IsStringKind(kind) && r.consumed + n < |r.buffer|
    requires IsCanonicalRun(r.buffer[r.consumed..r.consumed + n])
    requires r.buffer[r.consumed + n] == Colon
    requires DecimalValue(r.buffer[r.consumed..r.consumed + n]) > IntMax
    ensures ReadPayload(r, kind, n) == Fail(ByteStringOversized)
  {
    PrefixLength(r.buffer[r.consumed..r.consumed + n]);
    PayloadOversized(r, kind, n);
  }

  lemma LengthMissing(r: Reader, kind: TokenType, n: nat, len: nat)
    requires Valid(r) && IsStringKind(kind) && r.consumed + n < |r.buffer|
    requires IsCanonicalRun(r.buffer[r.consumed..r.consumed + n])
    requires r.buffer[r.consumed + n] == Colon
    requires DecimalValue(r.buffer[r.consumed..r.consumed + n]) == len <= IntMax
    requires r.consumed + n + 1 + len > |r.buffer|
    ensures ReadPayload(r, kind, n) == Ok(Step(false, r))
  {
    PrefixLength(r.buffer[r.consumed..r.consumed + n]);
    PayloadMissing(r, kind, n, len);
  }

  lemma LengthPresent(r: Reader, kind: TokenType, n: nat, len: nat)
    requires Valid(r) && IsStringKind(kind) && r.consumed + n < |r.buffer|
    requires IsCanonicalRun(r.buffer[r.consumed..r.consumed + n])
    requires r.buffer[r.consumed + n] == Colon
    requires DecimalValue(r.buffer[r.consumed..r.consumed + n]) == len
    requires r.consumed + n + 1 + len <= |r.buffer|
    ensures ReadPayload(r, kind, n) == Ok(Step(true, SetCurrentToken(r, kind, n + 1 + len, r.consumed + n + 1, len)))
  {
    PrefixLength(r.buffer[r.consumed..r.consumed + n]);
    PayloadPresent(r, kind, n, len);
  }

  /** A canonical length prefix decodes, through TryGetInt32, to the value it
      spells whenever that value fits an int. */
  lemma PrefixLength(digits: seq<byte>)
    requires IsCanonicalRun(digits)
    ensures IntDecoder.TryGetInt32(digits).success <==> DecimalValue(digits) <= IntMax
    ensures IntDecoder.TryGetInt32(digits).success ==> IntDecoder.TryGetInt32(digits) == TryInt(true, DecimalValue(digits))
  {
    assert Magnitude(digits) == digits;
  }

  lemma PayloadOversized(r: Reader, kind: TokenType, n: nat)
    requires Valid(r) && IsStringKind(kind) && r.consumed + n < |r.buffer|
    requires IsCanonicalRun(r.buffer[r.consumed..r.consumed + n])
    requires r.buffer[r.consumed + n] == Colon
    requires !IntDecoder.TryGetInt32(r.buffer[r.consumed..r.consumed + n]).success
    ensures ReadPayload(r, kind, n) == Fail(ByteStringOversized)
  {
  }

  lemma PayloadMissing(r: Reader, kind: TokenType, n: nat, len: int)
    requires Valid(r) && IsStringKind(kind) && r.consumed + n < |r.buffer|
    requires IsCanonicalRun(r.buffer[r.consumed..r.consumed + n])
    requires r.buffer[r.consumed + n] == Colon
    requires IntDecoder.TryGetInt32(r.buffer[r.consumed..r.consumed + n]) == TryInt(true, len)
    requires r.consumed + n + 1 + len > |r.buffer|
    ensures ReadPayload(r, kind, n) == Ok(Step(false, r))
  {
  }

  lemma PayloadPresent(r: Reader, kind: TokenType, n: nat, len: nat)
    requires Valid(r) && IsStringKind(kind) && r.consumed + n < |r.buffer|
    requires IsCanonicalRun(r.buffer[r.consumed..r.consumed + n])
    requires r.buffer[r.consumed + n] == Colon
    requires IntDecoder.TryGetInt32(r.buffer[r.consumed..r.consumed + n]) == TryInt(true, len)
    requires r.consumed + n + 1 + len <= |r.buffer|
    ensures ReadPayload(r, kind, n) == Ok(Step(true, SetCurrentToken(r, kind, n + 1 + len, r.consumed + n + 1, len)))
  {
  }

  /** The string token ReadByteString produces once its prefix, colon and
      payload are found. */
  lemma StringProducedAt(r: Reader, kind: TokenType, n: nat, digits: seq<byte>, len: nat)
    requires Valid(r) && IsStringKind(kind)
    requires ReadDigits(r.buffer, r.consumed, r.isFinal) == Ok(Complete(n))
    requires r.buffer[r.consumed + n] == Colon
    requires digits == r.buffer[r.consumed..r.consumed + n] && IntDecoder.TryGetInt32(digits) == TryInt(true, len)
    requires r.consumed + n + 1 + len <= |r.buffer|
    ensures ReadByteString(r, kind) == Ok(Step(true, SetCurrentToken(r, kind, n + 1 + len, r.consumed + n + 1, len)))
  {
    PrefixRead(r, kind, n);
    PayloadPresent(r, kind, n, len);
  }

  /** A length prefix followed by anything but `:` is an error. */
  lemma StringWithoutColon(r: Reader, n: nat)
    requires Valid(r) && r.consumed + n < |r.buffer|
    requires IsCanonicalRun(r.buffer[r.consumed..r.consumed + n])
    requires !IsDigit(r.buffer[r.consumed + n]) && r.buffer[r.consumed + n] != Colon
    ensures Read(r) == Fail(ExpectedColonDelimiter)
  {
    assert IsDigit(r.buffer[r.consumed..r.consumed + n][0]);
    ReadDigitsComplete(r.buffer, r.consumed, n, r.isFinal);
  }

  // ---------------------------------------------------------------------------
  // Integer tokens decode to the number they spell
  // ---------------------------------------------------------------------------

  lemma IntegerTextWellFormed(v: int)
    ensures IsIntegerText(IntegerText(v))
  {
    if v < 0 {
      assert IntegerText(v)[1..] == DecimalDigits(-v);
    }
  }

  /** `i<v>e` read by a fresh reader is a Number token, and GetInt64 yields `v`
      exactly when |v| <= long.MaxValue; within that range GetInt64 as
      written yields `v` too. */
  lemma NumberRoundTrip(v: int)
    ensures var buf := [LowerI] + IntegerText(v) + [LowerE];
      |buf| <= IntMax ==>
        var res := Read(CreateFinal(buf));
        && res.Ok? && res.value.produced && res.value.next.tokenType == Number
        && GetInt64(res.value.next) == (if -(LongMax as int) <= v <= LongMax then Ok(v) else Fail(InvalidNumber))
        && (-(LongMax as int) <= v <= LongMax ==> GetInt64AsWritten(res.value.next) == Ok(v))
  {
    var text := IntegerText(v);
    var buf := [LowerI] + text + [LowerE];
    if |buf| <= IntMax {
      var r := CreateFinal(buf);
      var n := |text|;
      assert buf[1..n + 1] == text;
      IntegerTextWellFormed(v);
      ReadNumberComplete(r, n);
      var t := Read(r).value.next;
      assert ValueBytes(t) == text;
      DecodeIntegerText(v, LongMax);
    }
  }

  // ---------------------------------------------------------------------------
  // Inputs the reader accepts although Bencode forbids them
  // ---------------------------------------------------------------------------

  /** "i-0e" is read as a Number whose payload is "-0", and it decodes to 0. */
  lemma NegativeZeroAccepted()
    ensures var r := CreateFinal([LowerI, Minus, Zero, LowerE]);
      && Read(r).Ok? && Read(r).value.produced
      && Read(r).value.next.tokenType == Number
      && ValueBytes(Read(r).value.next) == [Minus, Zero]
      && GetInt64(Read(r).value.next) == Ok(0)
  {
    var r := CreateFinal([LowerI, Minus, Zero, LowerE]);
    assert r.buffer[1..3] == [Minus, Zero];
    assert [Minus, Zero][1..] == [Zero];
    ReadNumberComplete(r, 2);
    var t := Read(r).value.next;
    assert ValueBytes(t) == [Minus, Zero];
    assert Magnitude([Minus, Zero]) == [Zero];
    assert DecimalValue([Zero]) == 0;
  }

  /** "d3:fooe": a key directly followed by the end of its dictionary is
      accepted; the tokens are StartDictionary, DictionaryKey("foo"),
      EndDictionary. */
  lemma KeyWithoutValueAccepted()
    ensures var r0 := CreateFinal([LowerD, 51, Colon, 102, 111, 111, LowerE]);
      && Read(r0).Ok? && Read(r0).value.produced
      && Read(r0).value.next.tokenType == StartDictionary
      && var r1 := Read(r0).value.next;
         && Read(r1).Ok? && Read(r1).value.produced
         && Read(r1).value.next.tokenType == DictionaryKey
         && ValueBytes(Read(r1).value.next) == [102, 111, 111]
         && var r2 := Read(r1).value.next;
            && Read(r2).Ok? && Read(r2).value.produced
            && Read(r2).value.next.tokenType == EndDictionary
            && Read(r2).value.next.consumed == 7
            && Depth(Read(r2).value.next.stack) == 0
  {
    var buf: seq<byte> := [LowerD, 51, Colon, 102, 111, 111, LowerE];
    var r0 := CreateFinal(buf);
    var r1 := KeyDictionaryOpens(r0);
    assert r1.buffer[3..6] == [102, 111, 111];
    var r2 := KeyIsRead(r1);
    CloseContainer(r2);
  }

  /** The first step of "d3:fooe": `d` opens a dictionary, and a key is due. */
  lemma KeyDictionaryOpens(r0: Reader) returns (r1: Reader)
    requires Valid(r0) && r0.consumed == 0 && |r0.buffer| == 7 && r0.stack == Empty
    requires r0.buffer[0] == LowerD && r0.buffer[1] != LowerE
    ensures Read(r0) == Ok(Step(true, r1)) && r1.tokenType == StartDictionary
    ensures Valid(r1) && r1.buffer == r0.buffer && r1.isFinal == r0.isFinal && r1.consumed == 1
    ensures r1.stack == [true] && KeyForced(r1)
  {
    OpenContainer(r0);
    r1 := Read(r0).value.next;
    assert r1.stack == [] + [true];
  }

  /** The second step of "d3:fooe": "3:foo" is read as the key "foo". */
  lemma KeyIsRead(r1: Reader) returns (r2: Reader)
    requires Valid(r1) && r1.consumed == 1 && |r1.buffer| == 7 && KeyForced(r1)
    requires r1.buffer[1] == 51 && r1.buffer[2] == Colon && r1.buffer[3..6] == [102, 111, 111]
    ensures Read(r1) == Ok(Step(true, r2)) && r2.tokenType == DictionaryKey
    ensures Valid(r2) && ValueBytes(r2) == [102, 111, 111]
    ensures r2.buffer == r1.buffer && r2.consumed == 6 && r2.stack == r1.stack
  {
    assert r1.buffer[1..2] == [51];
    assert DecimalValue([51]) == 3;
    ReadString(r1, 1);
    r2 := Read(r1).value.next;
  }

  /** "5:ab" on the final chunk: the payload is short, yet Read reports "no
      token" rather than an error. */
  lemma TruncatedStringSuspendsOnFinalChunk()
    ensures var r := CreateFinal([53, Colon, 97, 98]);
      Read(r) == Ok(Step(false, r))
  {
    var r := CreateFinal([53, Colon, 97, 98]);
    assert r.buffer[0..1] == [53];
    assert DecimalValue([53]) == 5;
    ReadString(r, 1);
  }

  // ---------------------------------------------------------------------------
  // Where the source's fixed-width arithmetic departs from the model
  // ---------------------------------------------------------------------------

  /** The as-written check agrees with HasEnoughData until the cursor comes
      within `min` bytes of int.MaxValue; beyond that the sum wraps negative
      and the check always reports data. */
  lemma EnoughDataAsWritten(r: Reader, min: nat)
    requires Valid(r) && min <= IntMax
    ensures r.consumed + min <= IntMax ==> (HasEnoughDataAsWritten(r, min) <==> HasEnoughData(r, min))
    ensures r.consumed + min > IntMax ==> HasEnoughDataAsWritten(r, min)
  {
  }

  /** At the end of a chunk of int.MaxValue bytes the as-written check reports
      one more byte, so the source reads `_buffer[_consumed]` past the end and
      throws; Read, with the exact check, suspends or reports the open
      container. */
  lemma EndOfMaximalChunk(r: Reader)
    requires Valid(r) && |r.buffer| == IntMax && r.consumed == IntMax
    ensures HasEnoughDataAsWritten(r, 1) && !HasEnoughData(r, 1)
    ensures r.isFinal && Depth(r.stack) > 0 ==> Read(r) == Fail(UnexpectedEndOfInput)
    ensures !(r.isFinal && Depth(r.stack) > 0) ==> Read(r) == Ok(Step(false, r))
  {
    EnoughDataAsWritten(r, 1);
    EndOfChunk(r);
  }

  /** On a chunk of int.MaxValue bytes with `i` in its last two bytes, the
      as-written `HasEnoughData(3)` passes although fewer than three bytes are
      left. The source then reads `_buffer[_consumed + 1]`, past the end when
      `i` is the last byte; after `i` and a byte that is neither a digit nor
      `-` its digit scan fails with ExpectedNumber. Read, with the exact check,
      suspends or fails with RanOutOfData. */
  lemma ShortNumberAtMaximalChunk(r: Reader)
    requires Valid(r) && |r.buffer| == IntMax && IntMax - 2 <= r.consumed < IntMax
    requires r.buffer[r.consumed] == LowerI && !KeyForced(r)
    ensures HasEnoughDataAsWritten(r, 3) && !HasEnoughData(r, 3)
    ensures r.consumed + 2 == IntMax && !IsDigit(r.buffer[r.consumed + 1]) && r.buffer[r.consumed + 1] != Minus ==>
      ReadDigits(r.buffer, r.consumed + 1, r.isFinal) == Fail(ExpectedNumber)
    ensures r.isFinal ==> Read(r) == Fail(RanOutOfData)
    ensures !r.isFinal ==> Read(r) == Ok(Step(false, r))
  {
    EnoughDataAsWritten(r, 3);
    ShortNumber(r);
  }

  /** The as-written payload step differs from ReadPayload exactly when
      `consumed + prefix + 1 + len` passes int.MaxValue: the source then
      throws, where ReadPayload suspends as for any payload not yet in the
      buffer. */
  lemma PayloadAsWritten(r: Reader, kind: TokenType, n: nat)
    requires Valid(r) && IsStringKind(kind) && r.consumed + n < |r.buffer|
    requires IsCanonicalRun(r.buffer[r.consumed..r.consumed + n])
    requires r.buffer[r.consumed + n] == Colon
    ensures var len := DecimalValue(r.buffer[r.consumed..r.consumed + n]);
      && (len <= IntMax && r.consumed + n + 1 + len > IntMax ==>
            && ReadPayloadAsWritten(r, kind, n) == Fail(ArgumentOutOfRange)
            && ReadPayload(r, kind, n) == Ok(Step(false, r)))
      && (len > IntMax || r.consumed + n + 1 + len <= IntMax ==>
            ReadPayloadAsWritten(r, kind, n) == ReadPayload(r, kind, n))
  {
    var digits := r.buffer[r.consumed..r.consumed + n];
    var len := DecimalValue(digits);
    PrefixLength(digits);
    if len > IntMax {
      PayloadOversized(r, kind, n);
      AsWrittenOversized(r, kind, n);
    } else if r.consumed + n + 1 + len > IntMax {
      PayloadMissing(r, kind, n, len);
      AsWrittenWrapped(r, kind, n, len);
    } else {
      AsWrittenExact(r, kind, n, len);
    }
  }

  lemma AsWrittenOversized(r: Reader, kind: TokenType, n: nat)
    requires Valid(r) && IsStringKind(kind) && r.consumed + n < |r.buffer|
    requires IsCanonicalRun(r.buffer[r.consumed..r.consumed + n])
    requires r.buffer[r.consumed + n] == Colon
    requires !IntDecoder.TryGetInt32(r.buffer[r.consumed..r.consumed + n]).success
    ensures ReadPayloadAsWritten(r, kind, n) == Fail(ByteStringOversized)
  {
  }

  lemma AsWrittenWrapped(r: Reader, kind: TokenType, n: nat, len: nat)
    requires Valid(r) && IsStringKind(kind) && r.consumed + n < |r.buffer|
    requires IsCanonicalRun(r.buffer[r.consumed..r.consumed + n])
    requires r.buffer[r.consumed + n] == Colon
    requires IntDecoder.TryGetInt32(r.buffer[r.consumed..r.consumed + n]) == TryInt(true, len)
    requires len <= IntMax && r.consumed + n + 1 + len > IntMax
    ensures ReadPayloadAsWritten(r, kind, n) == Fail(ArgumentOutOfRange)
  {
    WrapIntPast(r.consumed + n + 1 + len);
  }

  lemma AsWrittenExact(r: Reader, kind: TokenType, n: nat, len: nat)
    requires Valid(r) && IsStringKind(kind) && r.consumed + n < |r.buffer|
    requires IsCanonicalRun(r.buffer[r.consumed..r.consumed + n])
    requires r.buffer[r.consumed + n] == Colon
    requires IntDecoder.TryGetInt32(r.buffer[r.consumed..r.consumed + n]) == TryInt(true, len)
    requires r.consumed + n + 1 + len <= IntMax
    ensures ReadPayloadAsWritten(r, kind, n) == ReadPayload(r, kind, n)
  {
    WrapIntWithin(r.consumed + n + 1 + len);
    if r.consumed + n + 1 + len > |r.buffer| {
      PayloadMissing(r, kind, n, len);
      AsWrittenMissing(r, kind, n, len);
    } else {
      PayloadPresent(r, kind, n, len);
      AsWrittenPresent(r, kind, n, len);
    }
  }

  lemma AsWrittenMissing(r: Reader, kind: TokenType, n: nat, len: nat)
    requires Valid(r) && IsStringKind(kind) && r.consumed + n < |r.buffer|
    requires IsCanonicalRun(r.buffer[r.consumed..r.consumed + n])
    requires r.buffer[r.consumed + n] == Colon
    requires IntDecoder.TryGetInt32(r.buffer[r.consumed..r.consumed + n]) == TryInt(true, len)
    requires WrapInt(r.consumed + n + 1 + len) == r.consumed + n + 1 + len > |r.buffer|
    ensures ReadPayloadAsWritten(r, kind, n) == Ok(Step(false, r))
  {
  }

  lemma AsWrittenPresent(r: Reader, kind: TokenType, n: nat, len: nat)
    requires Valid(r) && IsStringKind(kind) && r.consumed + n < |r.buffer|
    requires IsCanonicalRun(r.buffer[r.consumed..r.consumed + n])
    requires r.buffer[r.consumed + n] == Colon
    requires IntDecoder.TryGetInt32(r.buffer[r.consumed..r.consumed + n]) == TryInt(true, len)
    requires WrapInt(r.consumed + n + 1 + len) == r.consumed + n + 1 + len <= |r.buffer|
    ensures ReadPayloadAsWritten(r, kind, n) == Ok(Step(true, SetCurrentToken(r, kind, n + 1 + len, r.consumed + n + 1, len)))
  {
  }

  /** An `int` sum that passes int.MaxValue by less than 2^31 wraps negative. */
  lemma WrapIntPast(x: int)
    requires IntMax < x < IntModulus
    ensures WrapInt(x) == x - IntModulus < 0
  {
  }

  /** A sum within int.MaxValue does not wrap. */
  lemma WrapIntWithin(x: nat)
    requires x <= IntMax
    ensures WrapInt(x) == x
  {
  }

  /** A length prefix `<len>:` whose payload can never fit, because
      `consumed + |prefix| + 1 + len` passes int.MaxValue: with no key due,
      Read suspends, as for any payload not yet in the buffer; as written,
      the sum wraps and slicing the payload throws. */
  lemma OverlongPrefixThrows(r: Reader, n: nat)
    requires Valid(r) && r.consumed + n < |r.buffer|
    requires IsCanonicalRun(r.buffer[r.consumed..r.consumed + n]) && r.buffer[r.consumed + n] == Colon
    requires var len := DecimalValue(r.buffer[r.consumed..r.consumed + n]);
      len <= IntMax && r.consumed + n + 1 + len > IntMax
    requires !KeyForced(r)
    ensures Read(r) == ReadByteString(r, ByteString)
    ensures ReadByteString(r, ByteString) == ReadPayload(r, ByteString, n)
    ensures ReadPayload(r, ByteString, n) == Ok(Step(false, r))
    ensures ReadPayloadAsWritten(r, ByteString, n) == Fail(ArgumentOutOfRange)
  {
    assert IsDigit(r.buffer[r.consumed..r.consumed + n][0]);
    ReadDigitsComplete(r.buffer, r.consumed, n, r.isFinal);
    assert Read(r) == ReadByteString(r, ByteString);
    PrefixRead(r, ByteString, n);
    PayloadAsWritten(r, ByteString, n);
  }

  /** "2147483647:" on the final chunk is such a prefix: ten digits, a colon,
      and a declared payload of int.MaxValue bytes. */
  lemma MaxLengthPrefixThrows()
    ensures |DecimalDigits(IntMax)| == 10
    ensures var r := CreateFinal(DecimalDigits(IntMax) + [Colon]);
      && r.buffer[0..10] == DecimalDigits(IntMax)
      && Read(r) == Ok(Step(false, r))
      && ReadPayloadAsWritten(r, ByteString, 10) == Fail(ArgumentOutOfRange)
  {
    IntMaxSpelling();
    var digits := DecimalDigits(IntMax);
    var r := CreateFinal(digits + [Colon]);
    assert r.buffer[0..10] == digits;
    OverlongPrefixThrows(r, 10);
  }

  /** int.MaxValue is spelled with ten digits. */
  lemma IntMaxSpelling()
    ensures |DecimalDigits(IntMax)| == 10 && DecimalValue(DecimalDigits(IntMax)) == IntMax
  {
    DecimalRoundTrip(IntMax);
  }

  /** Wherever the input holds `i18446744073709551616e` (2^64) and no key is
      due, Read gives a Number token whose payload is the digits. GetInt64 as
      written returns 0, the wrapped accumulator; GetInt64 reports
      InvalidNumber. */
  lemma WrappedNumberAccepted(r: Reader)
    requires Valid(r) && r.consumed + |TwoToThe64Text()| + 2 <= |r.buffer|
    requires r.buffer[r.consumed..r.consumed + |TwoToThe64Text()| + 2] == [LowerI] + TwoToThe64Text() + [LowerE]
    requires !KeyForced(r)
    ensures Read(r).Ok? && Read(r).value.produced && Read(r).value.next.tokenType == Number
    ensures ValueBytes(Read(r).value.next) == TwoToThe64Text()
    ensures GetInt64AsWritten(Read(r).value.next) == Ok(0)
    ensures GetInt64(Read(r).value.next) == Fail(InvalidNumber)
  {
    IntegerTextWellFormed(ULongModulus);
    NumberTextRead(r, TwoToThe64Text());
    WrappedPayload(Read(r).value.next);
  }

  /** Read over `i<text>e`, for well-formed integer text, gives the Number
      token whose payload is the text. */
  lemma NumberTextRead(r: Reader, text: seq<byte>)
    requires Valid(r) && r.consumed + |text| + 2 <= |r.buffer|
    requires r.buffer[r.consumed..r.consumed + |text| + 2] == [LowerI] + text + [LowerE]
    requires IsIntegerText(text) && !KeyForced(r)
    ensures Read(r).Ok? && Read(r).value.produced && Read(r).value.next.tokenType == Number
    ensures ValueBytes(Read(r).value.next) == text
  {
    EnclosedText(r.buffer, r.consumed, text);
    ReadNumberComplete(r, |text|);
  }

  /** The bytes of `i<text>e` found at `c`: the markers and the text. */
  lemma EnclosedText(buffer: seq<byte>, c: nat, text: seq<byte>)
    requires c + |text| + 2 <= |buffer|
    requires buffer[c..c + |text| + 2] == [LowerI] + text + [LowerE]
    ensures buffer[c] == LowerI && buffer[c + |text| + 1] == LowerE
    ensures buffer[c + 1..c + |text| + 1] == text
  {
    var n := |text|;
    var w := buffer[c..c + n + 2];
    assert buffer[c] == w[0];
    assert buffer[c + n + 1] == w[n + 1];
    forall k | 0 <= k < n
      ensures buffer[c + 1..c + n + 1][k] == text[k]
    {
      assert buffer[c + 1 + k] == w[1 + k];
    }
  }

  /** A Number token whose payload spells 2^64. */
  lemma WrappedPayload(t: Reader)
    requires Valid(t) && t.tokenType == Number && ValueBytes(t) == TwoToThe64Text()
    ensures GetInt64AsWritten(t) == Ok(0)
    ensures GetInt64(t) == Fail(InvalidNumber)
  {
    WrappingAcceptsTwoToThe64();
    assert TryGetInt64AsWritten(t) == Ok(TryInt(true, 0));
  }
}
