/** Reading a sequence of tokens, and resuming across chunk boundaries: a reader
    rebuilt from CurrentState over the unconsumed bytes continues with the same
    tokens, and an input split into a non-final chunk and a final one yields
    the same tokens as the whole input read at once. */
module Resumption {
  import opened Bytes
  import opened BitStack
  import opened IntDecoder
  import opened BencodeTypes
  import opened Grammar
  import opened Reader
  import opened ReaderProperties

  /** What a caller observes of one token: its kind, the bytes that encode it,
      and its payload. */
  datatype Token = Token(kind: TokenType, raw: seq<byte>, payload: seq<byte>)

  function TokenOf(r: Reader): Token
    requires Valid(r)
  {
    Token(r.tokenType, r.buffer[r.tokenStart..r.consumed], ValueBytes(r))
  }

  /** The encoded bytes of a token sequence, end to end. */
  function Concat(ts: seq<Token>): seq<byte> {
    if |ts| == 0 then [] else ts[0].raw + Concat(ts[1..])
  }

  /** The tokens produced by up to `fuel` calls of Read, the reader after them,
      and whether the last call reported "no token". */
  datatype Run = Run(tokens: seq<Token>, last: Reader, suspended: bool)

  function PrependAll(ts: seq<Token>, res: Result<Run>): Result<Run> {
    match res
    case Fail(e) => Fail(e)
    case Ok(run) => Ok(run.(tokens := ts + run.tokens))
  }

  /** Calls Read until it fails, reports "no token", or `fuel` tokens are read.
      The tokens cover the consumed bytes in order, with no gap and no overlap. */
  function ReadTokens(r: Reader, fuel: nat): (res: Result<Run>)
    requires Valid(r)
    ensures res.Ok? ==> Valid(res.value.last)
    ensures res.Ok? ==> res.value.last.buffer == r.buffer && res.value.last.isFinal == r.isFinal
    ensures res.Ok? ==> r.consumed <= res.value.last.consumed
    ensures res.Ok? ==> Concat(res.value.tokens) == r.buffer[r.consumed..res.value.last.consumed]
    ensures res.Ok? ==> |res.value.tokens| == fuel || res.value.suspended
    decreases fuel
  {
    if fuel == 0 then Ok(Run([], r, false))
    else
      match Read(r)
      case Fail(e) => Fail(e)
      case Ok(step) =>
        if !step.produced then Ok(Run([], r, true))
        else
          var t := step.next;
          var rest := ReadTokens(t, fuel - 1);
          if rest.Ok? then
            ConcatAfterToken(r, t, rest.value);
            PrependAll([TokenOf(t)], rest)
          else rest
  }

  /** The bytes of a token followed by the bytes of the tokens after it are
      the bytes from the token's start to the end of the last one. */
  lemma ConcatAfterToken(r: Reader, t: Reader, run: Run)
    requires Valid(r) && Valid(t) && t.buffer == r.buffer && t.tokenStart == r.consumed
    requires t.consumed <= run.last.consumed <= |r.buffer|
    requires Concat(run.tokens) == t.buffer[t.consumed..run.last.consumed]
    ensures Concat([TokenOf(t)] + run.tokens) == r.buffer[r.consumed..run.last.consumed]
  {
    assert ([TokenOf(t)] + run.tokens)[1..] == run.tokens;
    assert r.buffer[r.consumed..t.consumed] + r.buffer[t.consumed..run.last.consumed] == r.buffer[r.consumed..run.last.consumed];
  }

  // ---------------------------------------------------------------------------
  // Re-basing a reader onto a suffix of its buffer
  // ---------------------------------------------------------------------------

  /** `b` reads `a.buffer[k..]` and stands where `a` stands. */
  predicate Shifted(a: Reader, b: Reader, k: nat) {
    && k <= |a.buffer|
    && b.buffer == a.buffer[k..]
    && b.consumed + k == a.consumed
    && b.isFinal == a.isFinal
    && b.tokenType == a.tokenType
    && b.inObject == a.inObject
    && b.stack == a.stack
  }

  /** Shifted, and the current tokens are the same token. */
  predicate ShiftedToken(a: Reader, b: Reader, k: nat) {
    && Shifted(a, b, k)
    && a.tokenStart == b.tokenStart + k
    && a.value == Span(b.value.offset + k, b.value.len)
  }

  /** Two step outcomes are the same up to the shift `k`. */
  predicate StepsAgree(x: Result<Step>, y: Result<Step>, k: nat) {
    match x
    case Fail(e) => y == Fail(e)
    case Ok(sx) =>
      && y.Ok? && y.value.produced == sx.produced
      && (sx.produced ==> ShiftedToken(sx.next, y.value.next, k))
  }

  /** The `n` bytes at the shifted reader's position are the `n` bytes at the
      original's. */
  lemma ShiftedSlice(a: Reader, b: Reader, k: nat, n: nat)
    requires Shifted(a, b, k) && a.consumed + n <= |a.buffer|
    ensures b.buffer[b.consumed..b.consumed + n] == a.buffer[a.consumed..a.consumed + n]
  {
  }

  lemma RunEndShift(data: seq<byte>, k: nat, i: nat)
    requires k <= |data|
    ensures RunEnd(data[k..], i) + k == RunEnd(data, i + k)
  {
    var e := RunEnd(data, i + k);
    if i + k <= |data| {
      assert data[k..][i..e - k] == data[i + k..e];
      RunEndAt(data[k..], i, e - k);
    }
  }

  lemma ReadDigitsShift(data: seq<byte>, sub: seq<byte>, k: nat, start: nat, isFinal: bool)
    requires k <= |data| && sub == data[k..]
    ensures ReadDigits(sub, start, isFinal) == ReadDigits(data, start + k, isFinal)
  {
    RunEndShift(data, k, start);
  }

  /** The digit run of an integer token reads the same after the shift. */
  lemma NumberDigitsShift(a: Reader, b: Reader, k: nat, offset: nat)
    requires Valid(a) && Valid(b) && Shifted(a, b, k)
    requires HasEnoughData(a, 3) && (offset == 1 || offset == 2)
    ensures ReadDigits(b.buffer, b.consumed + offset, b.isFinal) == ReadDigits(a.buffer, a.consumed + offset, a.isFinal)
  {
    var start := b.consumed + offset;
    ReadDigitsShift(a.buffer, b.buffer, k, start, a.isFinal);
    assert start + k == a.consumed + offset;
  }

  /** The same token recorded by both readers, its payload `k` bytes further
      on in the longer buffer. */
  lemma TokenAgree(a: Reader, b: Reader, k: nat, kind: TokenType, length: nat, sa: nat, sb: nat, len: nat)
    requires Valid(a) && Valid(b) && Shifted(a, b, k)
    requires a.consumed + length <= |a.buffer| && sa + len <= |a.buffer|
    requires b.consumed + length <= |b.buffer| && sb + len <= |b.buffer|
    requires sa == sb + k
    ensures StepsAgree(Ok(Step(true, SetCurrentToken(a, kind, length, sa, len))), Ok(Step(true, SetCurrentToken(b, kind, length, sb, len))), k)
  {
  }

  lemma NumberProducedShift(a: Reader, b: Reader, k: nat, offset: nat, n: nat)
    requires Valid(a) && Valid(b) && Shifted(a, b, k)
    requires HasEnoughData(a, 3) && a.buffer[a.consumed] == LowerI
    requires b.buffer[b.consumed] == LowerI && b.buffer[b.consumed + 1] == a.buffer[a.consumed + 1]
    requires (offset == 1 && a.buffer[a.consumed + 1] != Minus) || (offset == 2 && a.buffer[a.consumed + 1] == Minus)
    requires ReadDigits(a.buffer, a.consumed + offset, a.isFinal) == Ok(Complete(n))
    requires ReadDigits(b.buffer, b.consumed + offset, b.isFinal) == Ok(Complete(n))
    requires a.buffer[a.consumed + offset + n] == LowerE
    ensures StepsAgree(ReadNumber(a), ReadNumber(b), k)
  {
    NumberProducedAt(a, offset, n);
    NumberProducedShifted(a, b, k, offset, n);
    TokenAgree(a, b, k, Number, offset + n + 1, a.consumed + 1, b.consumed + 1, n + offset - 1);
  }

  /** The shifted reader finds the same integer token as the original. */
  lemma NumberProducedShifted(a: Reader, b: Reader, k: nat, offset: nat, n: nat)
    requires Valid(a) && Valid(b) && Shifted(a, b, k)
    requires HasEnoughData(a, 3) && a.buffer[a.consumed] == LowerI
    requires b.buffer[b.consumed] == LowerI && b.buffer[b.consumed + 1] == a.buffer[a.consumed + 1]
    requires (offset == 1 && a.buffer[a.consumed + 1] != Minus) || (offset == 2 && a.buffer[a.consumed + 1] == Minus)
    requires ReadDigits(b.buffer, b.consumed + offset, b.isFinal) == Ok(Complete(n))
    requires a.consumed + offset + n < |a.buffer| && a.buffer[a.consumed + offset + n] == LowerE
    ensures ReadNumber(b) == Ok(Step(true, SetCurrentToken(b, Number, offset + n + 1, b.consumed + 1, n + offset - 1)))
  {
    assert b.buffer[b.consumed + offset + n] == a.buffer[a.consumed + offset + n];
    NumberProducedAt(b, offset, n);
  }

  lemma NumberUnclosedShift(a: Reader, b: Reader, k: nat, offset: nat, n: nat)
    requires Valid(a) && Valid(b) && Shifted(a, b, k)
    requires HasEnoughData(a, 3) && a.buffer[a.consumed] == LowerI
    requires b.buffer[b.consumed] == LowerI && b.buffer[b.consumed + 1] == a.buffer[a.consumed + 1]
    requires (offset == 1 && a.buffer[a.consumed + 1] != Minus) || (offset == 2 && a.buffer[a.consumed + 1] == Minus)
    requires ReadDigits(a.buffer, a.consumed + offset, a.isFinal) == Ok(Complete(n))
    requires ReadDigits(b.buffer, b.consumed + offset, b.isFinal) == Ok(Complete(n))
    requires a.buffer[a.consumed + offset + n] != LowerE
    ensures StepsAgree(ReadNumber(a), ReadNumber(b), k)
  {
    assert b.buffer[b.consumed + offset + n] == a.buffer[a.consumed + offset + n];
    NumberUnclosedAt(a, offset, n);
    NumberUnclosedAt(b, offset, n);
  }

  lemma NumberStopShift(a: Reader, b: Reader, k: nat, offset: nat)
    requires Valid(a) && Valid(b) && Shifted(a, b, k)
    requires HasEnoughData(a, 3) && a.buffer[a.consumed] == LowerI
    requires (offset == 1 && a.buffer[a.consumed + 1] != Minus) || (offset == 2 && a.buffer[a.consumed + 1] == Minus)
    requires !ReadDigits(a.buffer, a.consumed + offset, a.isFinal).Ok? ||
             !ReadDigits(a.buffer, a.consumed + offset, a.isFinal).value.Complete?
    ensures StepsAgree(ReadNumber(a), ReadNumber(b), k)
  {
    assert b.buffer[b.consumed] == a.buffer[a.consumed];
    assert b.buffer[b.consumed + 1] == a.buffer[a.consumed + 1];
    NumberDigitsShift(a, b, k, offset);
    NumberStopAt(a, offset);
    NumberStopAt(b, offset);
  }

  lemma ReadNumberShift(a: Reader, b: Reader, k: nat)
    requires Valid(a) && Valid(b) && Shifted(a, b, k)
    ensures StepsAgree(ReadNumber(a), ReadNumber(b), k)
  {
    if HasEnoughData(a, 3) && a.buffer[a.consumed] == LowerI {
      var offset := if a.buffer[a.consumed + 1] == Minus then 2 else 1;
      NumberShiftAt(a, b, k, offset);
    } else if HasEnoughData(a, 3) {
      assert b.buffer[b.consumed] == a.buffer[a.consumed];
    }
  }

  /** ReadNumber past the `i` marker, with the digits starting at `offset`. */
  lemma NumberShiftAt(a: Reader, b: Reader, k: nat, offset: nat)
    requires Valid(a) && Valid(b) && Shifted(a, b, k)
    requires HasEnoughData(a, 3) && a.buffer[a.consumed] == LowerI
    requires (offset == 1 && a.buffer[a.consumed + 1] != Minus) || (offset == 2 && a.buffer[a.consumed + 1] == Minus)
    ensures StepsAgree(ReadNumber(a), ReadNumber(b), k)
  {
    var d := ReadDigits(a.buffer, a.consumed + offset, a.isFinal);
    if d.Ok? && d.value.Complete? {
      assert b.buffer[b.consumed] == a.buffer[a.consumed];
      assert b.buffer[b.consumed + 1] == a.buffer[a.consumed + 1];
      NumberDigitsShift(a, b, k, offset);
      if a.buffer[a.consumed + offset + d.value.len] == LowerE {
        NumberProducedShift(a, b, k, offset, d.value.len);
      } else {
        NumberUnclosedShift(a, b, k, offset, d.value.len);
      }
    } else {
      NumberStopShift(a, b, k, offset);
    }
  }

  /** A length prefix with no colon after it, a length beyond int.MaxValue,
      or a payload not yet in the chunk. */
  lemma StringStopAt(r: Reader, kind: TokenType, n: nat)
    requires Valid(r) && IsStringKind(kind)
    requires ReadDigits(r.buffer, r.consumed, r.isFinal) == Ok(Complete(n))
    ensures var v := IntDecoder.TryGetInt32(r.buffer[r.consumed..r.consumed + n]);
      && (r.buffer[r.consumed + n] != Colon ==> ReadByteString(r, kind) == Fail(ExpectedColonDelimiter))
      && (r.buffer[r.consumed + n] == Colon && !v.success ==> ReadByteString(r, kind) == Fail(ByteStringOversized))
      && (r.buffer[r.consumed + n] == Colon && v.success && r.consumed + n + 1 + v.value > |r.buffer| ==>
            ReadByteString(r, kind) == Ok(Step(false, r)))
  {
    if r.buffer[r.consumed + n] == Colon {
      PayloadStopAt(r, kind, n);
    } else {
      ColonMissingAt(r, kind, n);
    }
  }

  lemma ColonMissingAt(r: Reader, kind: TokenType, n: nat)
    requires Valid(r) && IsStringKind(kind)
    requires ReadDigits(r.buffer, r.consumed, r.isFinal) == Ok(Complete(n))
    requires r.buffer[r.consumed + n] != Colon
    ensures ReadByteString(r, kind) == Fail(ExpectedColonDelimiter)
  {
  }

  lemma PayloadStopAt(r: Reader, kind: TokenType, n: nat)
    requires Valid(r) && IsStringKind(kind)
    requires ReadDigits(r.buffer, r.consumed, r.isFinal) == Ok(Complete(n))
    requires r.buffer[r.consumed + n] == Colon
    ensures var v := IntDecoder.TryGetInt32(r.buffer[r.consumed..r.consumed + n]);
      && (!v.success ==> ReadByteString(r, kind) == Fail(ByteStringOversized))
      && (v.success && r.consumed + n + 1 + v.value > |r.buffer| ==> ReadByteString(r, kind) == Ok(Step(false, r)))
  {
    PrefixRead(r, kind, n);
    var v := IntDecoder.TryGetInt32(r.buffer[r.consumed..r.consumed + n]);
    if !v.success {
      PayloadOversized(r, kind, n);
    } else if r.consumed + n + 1 + v.value > |r.buffer| {
      PayloadMissing(r, kind, n, v.value);
    }
  }

  lemma StringProducedShift(a: Reader, b: Reader, k: nat, kind: TokenType, n: nat, len: nat)
    requires Valid(a) && Valid(b) && Shifted(a, b, k) && IsStringKind(kind)
    requires ReadDigits(a.buffer, a.consumed, a.isFinal) == Ok(Complete(n))
    requires ReadDigits(b.buffer, b.consumed, b.isFinal) == Ok(Complete(n))
    requires a.buffer[a.consumed + n] == Colon
    requires IntDecoder.TryGetInt32(a.buffer[a.consumed..a.consumed + n]) == TryInt(true, len)
    requires a.consumed + n + 1 + len <= |a.buffer|
    ensures StepsAgree(ReadByteString(a, kind), ReadByteString(b, kind), k)
  {
    StringProducedAt(a, kind, n, a.buffer[a.consumed..a.consumed + n], len);
    StringProducedShifted(a, b, k, kind, n, len);
    TokenAgree(a, b, k, kind, n + 1 + len, a.consumed + n + 1, b.consumed + n + 1, len);
  }

  /** The shifted reader finds the same string token as the original. */
  lemma StringProducedShifted(a: Reader, b: Reader, k: nat, kind: TokenType, n: nat, len: nat)
    requires Valid(a) && Valid(b) && Shifted(a, b, k) && IsStringKind(kind)
    requires ReadDigits(b.buffer, b.consumed, b.isFinal) == Ok(Complete(n))
    requires a.consumed + n < |a.buffer| && a.buffer[a.consumed + n] == Colon
    requires n > 0 && IntDecoder.TryGetInt32(a.buffer[a.consumed..a.consumed + n]) == TryInt(true, len)
    requires a.consumed + n + 1 + len <= |a.buffer|
    ensures ReadByteString(b, kind) == Ok(Step(true, SetCurrentToken(b, kind, n + 1 + len, b.consumed + n + 1, len)))
  {
    ShiftedSlice(a, b, k, n);
    assert b.buffer[b.consumed + n] == a.buffer[a.consumed + n];
    StringProducedAt(b, kind, n, a.buffer[a.consumed..a.consumed + n], len);
  }

  lemma StringStopShift(a: Reader, b: Reader, k: nat, kind: TokenType, n: nat)
    requires Valid(a) && Valid(b) && Shifted(a, b, k) && IsStringKind(kind)
    requires ReadDigits(a.buffer, a.consumed, a.isFinal) == Ok(Complete(n))
    requires ReadDigits(b.buffer, b.consumed, b.isFinal) == Ok(Complete(n))
    requires var v := IntDecoder.TryGetInt32(a.buffer[a.consumed..a.consumed + n]);
      a.buffer[a.consumed + n] != Colon || !v.success || a.consumed + n + 1 + v.value > |a.buffer|
    ensures StepsAgree(ReadByteString(a, kind), ReadByteString(b, kind), k)
  {
    assert b.buffer[b.consumed + n] == a.buffer[a.consumed + n];
    ShiftedSlice(a, b, k, n);
    StringStopAt(a, kind, n);
    StringStopAt(b, kind, n);
  }

  /** A length prefix that fails or runs off the chunk. */
  lemma StringDigitsStopShift(a: Reader, b: Reader, k: nat, kind: TokenType)
    requires Valid(a) && Valid(b) && Shifted(a, b, k) && IsStringKind(kind)
    requires ReadDigits(b.buffer, b.consumed, b.isFinal) == ReadDigits(a.buffer, a.consumed, a.isFinal)
    requires !ReadDigits(a.buffer, a.consumed, a.isFinal).Ok? || !ReadDigits(a.buffer, a.consumed, a.isFinal).value.Complete?
    ensures StepsAgree(ReadByteString(a, kind), ReadByteString(b, kind), k)
  {
  }

  lemma ReadByteStringShift(a: Reader, b: Reader, k: nat, kind: TokenType)
    requires Valid(a) && Valid(b) && Shifted(a, b, k) && IsStringKind(kind)
    ensures StepsAgree(ReadByteString(a, kind), ReadByteString(b, kind), k)
  {
    var start := b.consumed;
    ReadDigitsShift(a.buffer, b.buffer, k, start, a.isFinal);
    assert start + k == a.consumed;
    var d := ReadDigits(a.buffer, a.consumed, a.isFinal);
    if d.Ok? && d.value.Complete? {
      var n := d.value.len;
      var v := IntDecoder.TryGetInt32(a.buffer[a.consumed..a.consumed + n]);
      if a.buffer[a.consumed + n] == Colon && v.success && a.consumed + n + 1 + v.value <= |a.buffer| {
        StringProducedShift(a, b, k, kind, n, v.value);
      } else {
        StringStopShift(a, b, k, kind, n);
      }
    } else {
      StringDigitsStopShift(a, b, k, kind);
    }
  }

  /** One Read on a re-based reader does what it does on the original. */
  lemma ReadShift(a: Reader, b: Reader, k: nat)
    requires Valid(a) && Valid(b) && Shifted(a, b, k)
    ensures StepsAgree(Read(a), Read(b), k)
  {
    if HasEnoughData(a, 1) {
      var next := a.buffer[a.consumed];
      assert b.buffer[b.consumed] == next;
      if KeyForced(a) {
        ReadByteStringShift(a, b, k, DictionaryKey);
      } else if IsDigit(next) {
        ReadByteStringShift(a, b, k, ByteString);
      } else if next == LowerI {
        ReadNumberShift(a, b, k);
      } else {
        MarkerShift(a, b, k);
      }
    }
  }

  /** A container marker, or a byte that starts no token. */
  lemma MarkerShift(a: Reader, b: Reader, k: nat)
    requires Valid(a) && Valid(b) && Shifted(a, b, k) && HasEnoughData(a, 1)
    requires b.buffer[b.consumed] == a.buffer[a.consumed]
    requires !KeyForced(a) && !IsDigit(a.buffer[a.consumed]) && a.buffer[a.consumed] != LowerI
    ensures StepsAgree(Read(a), Read(b), k)
  {
  }

  /** Re-based readers observe the same tokens. */
  lemma TokenOfShift(a: Reader, b: Reader, k: nat)
    requires Valid(a) && Valid(b) && ShiftedToken(a, b, k)
    ensures TokenOf(a) == TokenOf(b)
  {
    assert b.buffer[b.tokenStart..b.consumed] == a.buffer[a.tokenStart..a.consumed];
    assert b.buffer[b.value.offset..b.value.End()] == a.buffer[a.value.offset..a.value.End()];
  }

  /** Two runs are the same up to the shift `k`. */
  predicate RunsAgree(x: Result<Run>, y: Result<Run>, k: nat) {
    match x
    case Fail(e) => y == Fail(e)
    case Ok(rx) =>
      && y.Ok?
      && y.value.tokens == rx.tokens
      && y.value.suspended == rx.suspended
      && Shifted(rx.last, y.value.last, k)
  }

  /** ReadTokens after a produced token: that token, then the rest. */
  lemma ReadTokensProduced(r: Reader, fuel: nat)
    requires Valid(r) && fuel > 0 && Read(r).Ok? && Read(r).value.produced
    ensures ReadTokens(r, fuel) == PrependAll([TokenOf(Read(r).value.next)], ReadTokens(Read(r).value.next, fuel - 1))
  {
  }

  /** ReadTokens when no token is produced: no fuel, a failure, or a
      suspension. */
  lemma ReadTokensStopped(r: Reader, fuel: nat)
    requires Valid(r) && (fuel == 0 || Read(r).Fail? || !Read(r).value.produced)
    ensures fuel == 0 ==> ReadTokens(r, fuel) == Ok(Run([], r, false))
    ensures fuel > 0 && Read(r).Fail? ==> ReadTokens(r, fuel) == Fail(Read(r).error)
    ensures fuel > 0 && Read(r).Ok? ==> ReadTokens(r, fuel) == Ok(Run([], r, true))
  {
  }

  /** Prepending the same tokens keeps two runs in agreement. */
  lemma PrependAgree(ts: seq<Token>, x: Result<Run>, y: Result<Run>, k: nat)
    requires RunsAgree(x, y, k)
    ensures RunsAgree(PrependAll(ts, x), PrependAll(ts, y), k)
  {
  }

  /** Two runs agree when their first tokens are the same and the rest agree. */
  lemma ProducedAgree(a: Reader, b: Reader, a': Reader, b': Reader, k: nat, rest: nat, fuel: nat)
    requires Valid(a) && Valid(b) && Valid(a') && Valid(b') && fuel == rest + 1
    requires Read(a) == Ok(Step(true, a')) && Read(b) == Ok(Step(true, b'))
    requires RunsAgree(ReadTokens(a', rest), ReadTokens(b', rest), k)
    requires ShiftedToken(a', b', k)
    ensures RunsAgree(ReadTokens(a, fuel), ReadTokens(b, fuel), k)
  {
    var tok := TokenOf(a');
    TokenOfShift(a', b', k);
    ReadTokensNext(a, a', rest, tok);
    ReadTokensNext(b, b', rest, tok);
    PrependAgree([tok], ReadTokens(a', rest), ReadTokens(b', rest), k);
  }

  /** Two runs that stop at once agree when the steps agree. */
  lemma StoppedAgree(a: Reader, b: Reader, k: nat, fuel: nat)
    requires Valid(a) && Valid(b) && Shifted(a, b, k)
    requires fuel == 0 || (StepsAgree(Read(a), Read(b), k) && !(Read(a).Ok? && Read(a).value.produced))
    ensures RunsAgree(ReadTokens(a, fuel), ReadTokens(b, fuel), k)
  {
    ReadTokensStopped(a, fuel);
    ReadTokensStopped(b, fuel);
  }

  lemma {:induction false} ReadTokensShift(a: Reader, b: Reader, k: nat, fuel: nat)
    requires Valid(a) && Valid(b) && Shifted(a, b, k)
    ensures RunsAgree(ReadTokens(a, fuel), ReadTokens(b, fuel), k)
    decreases fuel
  {
    if fuel > 0 {
      ReadShift(a, b, k);
      if Read(a).Ok? && Read(a).value.produced {
        var a', b' := Read(a).value.next, Read(b).value.next;
        var rest := fuel - 1;
        ReadTokensShift(a', b', k, rest);
        ProducedAgree(a, b, a', b', k, rest, fuel);
        return;
      }
    }
    StoppedAgree(a, b, k, fuel);
  }

  /** A reader for the rest of the input: the unconsumed bytes of `r`'s chunk
      followed by `more`, started from `r`'s snapshot. */
  function Resume(r: Reader, more: seq<byte>, isFinal: bool): (s: Reader)
    requires Valid(r) && |r.buffer| + |more| <= IntMax
    ensures Valid(s) && s.buffer == r.buffer[r.consumed..] + more
  {
    Create(r.buffer[r.consumed..] + more, isFinal, CurrentState(r))
  }

  /** A reader rebuilt from CurrentState over the unconsumed bytes of its chunk
      produces the same tokens, fails the same way, and suspends at the same
      point as the reader it was taken from. */
  lemma ResumeContinues(r: Reader, fuel: nat)
    requires Valid(r)
    ensures RunsAgree(ReadTokens(r, fuel), ReadTokens(Resume(r, [], r.isFinal), fuel), r.consumed)
  {
    var s := Resume(r, [], r.isFinal);
    assert s.buffer == r.buffer[r.consumed..];
    ReadTokensShift(r, s, r.consumed, fuel);
  }

  // ---------------------------------------------------------------------------
  // Reading a non-final prefix of the input
  // ---------------------------------------------------------------------------

  /** The reader `r`, now over the buffer `w`. */
  function Widen(r: Reader, w: seq<byte>, isFinal: bool): Reader {
    r.(chunk := Chunk(w), isFinal := isFinal)
  }

  /** `b` stands where `a` stands, over a buffer that extends `a`'s non-final
      chunk. */
  predicate Widened(a: Reader, b: Reader) {
    && !a.isFinal
    && |a.buffer| <= |b.buffer| <= IntMax
    && b.buffer[..|a.buffer|] == a.buffer
    && b.consumed == a.consumed
    && b.tokenStart == a.tokenStart
    && b.tokenType == a.tokenType
    && b.value == a.value
    && b.inObject == a.inObject
    && b.stack == a.stack
  }

  lemma WidenIsWidened(a: Reader, w: seq<byte>, isFinal: bool)
    requires !a.isFinal && |a.buffer| <= |w| <= IntMax && w[..|a.buffer|] == a.buffer
    ensures Widened(a, Widen(a, w, isFinal))
  {
  }

  lemma WidenedIsWiden(a: Reader, b: Reader)
    requires Widened(a, b)
    ensures b == Widen(a, b.buffer, b.isFinal)
  {
  }

  /** A step on the chunk that fails or produces a token is the same step on
      the longer buffer. */
  predicate StepExtends(x: Result<Step>, y: Result<Step>) {
    match x
    case Fail(e) => y == Fail(e)
    case Ok(s) => s.produced ==> y.Ok? && y.value.produced && Widened(s.next, y.value.next)
  }

  /** A byte inside the chunk reads the same from the longer buffer. */
  lemma PrefixAt(data: seq<byte>, w: seq<byte>, i: nat)
    requires |data| <= |w| && w[..|data|] == data && i < |data|
    ensures w[i] == data[i]
  {
    assert w[i] == w[..|data|][i];
  }

  /** Slices inside a prefix read the same from the longer sequence. */
  lemma PrefixSlice(data: seq<byte>, w: seq<byte>, i: nat, j: nat)
    requires |data| <= |w| && w[..|data|] == data && i <= j <= |data|
    ensures w[i..j] == data[i..j]
  {
    forall t | i <= t < j
      ensures w[t] == data[t]
    {
      PrefixAt(data, w, t);
    }
  }

  lemma ReadDigitsExtend(data: seq<byte>, w: seq<byte>, start: nat, isFinal: bool)
    requires |data| <= |w| && w[..|data|] == data && start <= |data|
    ensures ReadDigits(data, start, false).Ok? && ReadDigits(data, start, false).value.Complete? ==>
      ReadDigits(w, start, isFinal) == ReadDigits(data, start, false)
    ensures ReadDigits(data, start, false).Fail? ==>
      ReadDigits(w, start, isFinal) == ReadDigits(data, start, false)
  {
    var e := RunEnd(data, start);
    if e < |data| {
      PrefixSlice(data, w, start, e);
      PrefixAt(data, w, e);
      RunEndAt(w, start, e);
    }
  }

  /** Recording a token keeps two readers widened. */
  lemma SetCurrentTokenWidened(a: Reader, b: Reader, kind: TokenType, length: nat, start: nat, len: nat)
    requires Valid(a) && Valid(b) && Widened(a, b)
    requires a.consumed + length <= |a.buffer| && start + len <= |a.buffer|
    ensures Widened(SetCurrentToken(a, kind, length, start, len), SetCurrentToken(b, kind, length, start, len))
  {
  }

  lemma NumberProducedExtend(a: Reader, b: Reader, offset: nat, n: nat)
    requires Valid(a) && Valid(b) && Widened(a, b)
    requires HasEnoughData(a, 3) && a.buffer[a.consumed] == LowerI
    requires (offset == 1 && a.buffer[a.consumed + 1] != Minus) || (offset == 2 && a.buffer[a.consumed + 1] == Minus)
    requires b.buffer[b.consumed] == LowerI && b.buffer[b.consumed + 1] == a.buffer[a.consumed + 1]
    requires ReadDigits(a.buffer, a.consumed + offset, a.isFinal) == Ok(Complete(n))
    requires ReadDigits(b.buffer, b.consumed + offset, b.isFinal) == Ok(Complete(n))
    requires a.buffer[a.consumed + offset + n] == LowerE && b.buffer[b.consumed + offset + n] == LowerE
    ensures StepExtends(ReadNumber(a), ReadNumber(b))
  {
    NumberProducedAt(a, offset, n);
    NumberProducedAt(b, offset, n);
    SetCurrentTokenWidened(a, b, Number, offset + n + 1, a.consumed + 1, n + offset - 1);
  }

  lemma NumberUnclosedExtend(a: Reader, b: Reader, offset: nat, n: nat)
    requires Valid(a) && Valid(b) && Widened(a, b)
    requires HasEnoughData(a, 3) && a.buffer[a.consumed] == LowerI
    requires (offset == 1 && a.buffer[a.consumed + 1] != Minus) || (offset == 2 && a.buffer[a.consumed + 1] == Minus)
    requires b.buffer[b.consumed] == LowerI && b.buffer[b.consumed + 1] == a.buffer[a.consumed + 1]
    requires ReadDigits(a.buffer, a.consumed + offset, a.isFinal) == Ok(Complete(n))
    requires ReadDigits(b.buffer, b.consumed + offset, b.isFinal) == Ok(Complete(n))
    requires a.buffer[a.consumed + offset + n] != LowerE && b.buffer[b.consumed + offset + n] != LowerE
    ensures StepExtends(ReadNumber(a), ReadNumber(b))
  {
    NumberUnclosedAt(a, offset, n);
    NumberUnclosedAt(b, offset, n);
  }

  lemma NumberStopExtend(a: Reader, b: Reader, offset: nat)
    requires Valid(a) && Valid(b) && Widened(a, b)
    requires HasEnoughData(a, 3) && a.buffer[a.consumed] == LowerI
    requires (offset == 1 && a.buffer[a.consumed + 1] != Minus) || (offset == 2 && a.buffer[a.consumed + 1] == Minus)
    requires b.buffer[b.consumed] == LowerI && b.buffer[b.consumed + 1] == a.buffer[a.consumed + 1]
    requires !ReadDigits(a.buffer, a.consumed + offset, a.isFinal).Ok? ||
             !ReadDigits(a.buffer, a.consumed + offset, a.isFinal).value.Complete?
    ensures StepExtends(ReadNumber(a), ReadNumber(b))
  {
    ReadDigitsExtend(a.buffer, b.buffer, a.consumed + offset, b.isFinal);
    NumberStopAt(a, offset);
    if ReadDigits(a.buffer, a.consumed + offset, a.isFinal).Fail? {
      NumberStopAt(b, offset);
    }
  }

  /** ReadNumber on a chunk too short for `i`, a digit and `e`, or on a byte
      other than `i`. */
  lemma NumberEarlyExtend(a: Reader, b: Reader)
    requires Valid(a) && Valid(b) && Widened(a, b)
    requires !HasEnoughData(a, 3) || (a.buffer[a.consumed] != LowerI && b.buffer[b.consumed] == a.buffer[a.consumed])
    ensures StepExtends(ReadNumber(a), ReadNumber(b))
  {
  }

  /** ReadNumber once the digit run is complete: closed by `e` or not. */
  lemma NumberCompleteExtend(a: Reader, b: Reader, offset: nat, n: nat)
    requires Valid(a) && Valid(b) && Widened(a, b)
    requires HasEnoughData(a, 3) && a.buffer[a.consumed] == LowerI
    requires (offset == 1 && a.buffer[a.consumed + 1] != Minus) || (offset == 2 && a.buffer[a.consumed + 1] == Minus)
    requires b.buffer[b.consumed] == LowerI && b.buffer[b.consumed + 1] == a.buffer[a.consumed + 1]
    requires ReadDigits(a.buffer, a.consumed + offset, a.isFinal) == Ok(Complete(n))
    ensures StepExtends(ReadNumber(a), ReadNumber(b))
  {
    ReadDigitsExtend(a.buffer, b.buffer, a.consumed + offset, b.isFinal);
    PrefixAt(a.buffer, b.buffer, a.consumed + offset + n);
    if a.buffer[a.consumed + offset + n] == LowerE {
      NumberProducedExtend(a, b, offset, n);
    } else {
      NumberUnclosedExtend(a, b, offset, n);
    }
  }

  /** ReadNumber past the `i` marker, with the digits starting at `offset`. */
  lemma NumberOffsetExtend(a: Reader, b: Reader, offset: nat)
    requires Valid(a) && Valid(b) && Widened(a, b)
    requires HasEnoughData(a, 3) && a.buffer[a.consumed] == LowerI
    requires (offset == 1 && a.buffer[a.consumed + 1] != Minus) || (offset == 2 && a.buffer[a.consumed + 1] == Minus)
    requires b.buffer[b.consumed] == LowerI && b.buffer[b.consumed + 1] == a.buffer[a.consumed + 1]
    ensures StepExtends(ReadNumber(a), ReadNumber(b))
  {
    var d := ReadDigits(a.buffer, a.consumed + offset, a.isFinal);
    if d.Ok? && d.value.Complete? {
      NumberCompleteExtend(a, b, offset, d.value.len);
    } else {
      NumberStopExtend(a, b, offset);
    }
  }

  /** ReadNumber past the `i` marker. */
  lemma NumberBodyExtend(a: Reader, b: Reader)
    requires Valid(a) && Valid(b) && Widened(a, b)
    requires HasEnoughData(a, 3) && a.buffer[a.consumed] == LowerI && b.buffer[b.consumed] == LowerI
    ensures StepExtends(ReadNumber(a), ReadNumber(b))
  {
    PrefixAt(a.buffer, b.buffer, a.consumed + 1);
    if a.buffer[a.consumed + 1] == Minus {
      NumberOffsetExtend(a, b, 2);
    } else {
      NumberOffsetExtend(a, b, 1);
    }
  }

  lemma ReadNumberExtend(a: Reader, b: Reader)
    requires Valid(a) && Valid(b) && Widened(a, b)
    ensures StepExtends(ReadNumber(a), ReadNumber(b))
  {
    if HasEnoughData(a, 3) {
      PrefixAt(a.buffer, b.buffer, a.consumed);
      if a.buffer[a.consumed] == LowerI {
        NumberBodyExtend(a, b);
        return;
      }
    }
    NumberEarlyExtend(a, b);
  }

  lemma StringProducedExtend(a: Reader, b: Reader, kind: TokenType, n: nat, len: nat)
    requires Valid(a) && Valid(b) && Widened(a, b) && IsStringKind(kind)
    requires ReadDigits(a.buffer, a.consumed, a.isFinal) == Ok(Complete(n))
    requires ReadDigits(b.buffer, b.consumed, b.isFinal) == Ok(Complete(n))
    requires a.buffer[a.consumed + n] == Colon && b.buffer[b.consumed + n] == Colon
    requires b.buffer[b.consumed..b.consumed + n] == a.buffer[a.consumed..a.consumed + n]
    requires IntDecoder.TryGetInt32(a.buffer[a.consumed..a.consumed + n]) == TryInt(true, len)
    requires a.consumed + n + 1 + len <= |a.buffer|
    ensures StepExtends(ReadByteString(a, kind), ReadByteString(b, kind))
  {
    var digits := a.buffer[a.consumed..a.consumed + n];
    StringProducedAt(a, kind, n, digits, len);
    StringProducedAt(b, kind, n, digits, len);
    SetCurrentTokenWidened(a, b, kind, n + 1 + len, a.consumed + n + 1, len);
  }

  /** A missing colon or an oversized length fails on the longer buffer too. */
  lemma StringStopExtend(a: Reader, b: Reader, kind: TokenType, n: nat)
    requires Valid(a) && Valid(b) && Widened(a, b) && IsStringKind(kind)
    requires ReadDigits(a.buffer, a.consumed, a.isFinal) == Ok(Complete(n))
    requires ReadDigits(b.buffer, b.consumed, b.isFinal) == Ok(Complete(n))
    requires b.buffer[b.consumed + n] == a.buffer[a.consumed + n]
    requires b.buffer[b.consumed..b.consumed + n] == a.buffer[a.consumed..a.consumed + n]
    requires a.buffer[a.consumed + n] != Colon || !IntDecoder.TryGetInt32(a.buffer[a.consumed..a.consumed + n]).success
    ensures StepExtends(ReadByteString(a, kind), ReadByteString(b, kind))
  {
    StringStopAt(a, kind, n);
    StringStopAt(b, kind, n);
  }

  /** A length prefix whose scan fails fails on the longer buffer too. */
  lemma StringDigitsStopExtend(a: Reader, b: Reader, kind: TokenType)
    requires Valid(a) && Valid(b) && Widened(a, b) && IsStringKind(kind)
    requires ReadDigits(a.buffer, a.consumed, a.isFinal).Fail?
    requires ReadDigits(b.buffer, b.consumed, b.isFinal) == ReadDigits(a.buffer, a.consumed, a.isFinal)
    ensures StepExtends(ReadByteString(a, kind), ReadByteString(b, kind))
  {
  }

  lemma ReadByteStringExtend(a: Reader, b: Reader, kind: TokenType)
    requires Valid(a) && Valid(b) && Widened(a, b) && IsStringKind(kind)
    ensures StepExtends(ReadByteString(a, kind), ReadByteString(b, kind))
  {
    ReadDigitsExtend(a.buffer, b.buffer, a.consumed, b.isFinal);
    var d := ReadDigits(a.buffer, a.consumed, a.isFinal);
    if d.Ok? && d.value.Complete? {
      var n := d.value.len;
      PrefixAt(a.buffer, b.buffer, a.consumed + n);
      PrefixSlice(a.buffer, b.buffer, a.consumed, a.consumed + n);
      var v := IntDecoder.TryGetInt32(a.buffer[a.consumed..a.consumed + n]);
      if a.buffer[a.consumed + n] != Colon || !v.success {
        StringStopExtend(a, b, kind, n);
      } else if a.consumed + n + 1 + v.value <= |a.buffer| {
        StringProducedExtend(a, b, kind, n, v.value);
      } else {
        StringStopAt(a, kind, n);
      }
    } else if d.Fail? {
      StringDigitsStopExtend(a, b, kind);
    }
  }

  /** On a non-final chunk, every token Read produces and every error it
      reports depends only on bytes already in the chunk: over any longer
      buffer, final or not, Read produces the same token or the same error. */
  lemma ReadExtend(a: Reader, b: Reader)
    requires Valid(a) && Valid(b) && Widened(a, b)
    ensures StepExtends(Read(a), Read(b))
  {
    if HasEnoughData(a, 1) {
      var next := a.buffer[a.consumed];
      PrefixAt(a.buffer, b.buffer, a.consumed);
      if KeyForced(a) {
        ReadByteStringExtend(a, b, DictionaryKey);
      } else if IsDigit(next) {
        ReadByteStringExtend(a, b, ByteString);
      } else if next == LowerI {
        ReadNumberExtend(a, b);
      }
    }
  }

  /** Widened readers observe the same token. */
  lemma TokenOfExtend(a: Reader, b: Reader)
    requires Valid(a) && Valid(b) && Widened(a, b)
    ensures TokenOf(b) == TokenOf(a)
  {
    PrefixSlice(a.buffer, b.buffer, a.tokenStart, a.consumed);
    PrefixSlice(a.buffer, b.buffer, a.value.offset, a.value.End());
  }

  lemma PrependNothing(x: Result<Run>)
    ensures PrependAll([], x) == x
  {
    if x.Ok? {
      assert [] + x.value.tokens == x.value.tokens;
    }
  }

  lemma PrependAllTwice(ts: seq<Token>, us: seq<Token>, x: Result<Run>)
    ensures PrependAll(ts, PrependAll(us, x)) == PrependAll(ts + us, x)
  {
    if x.Ok? {
      assert ts + (us + x.value.tokens) == (ts + us) + x.value.tokens;
    }
  }

  /** Equal counts give equal runs; stated so that a count computed from a
      length can be exchanged for a variable. */
  lemma SameFuel(r: Reader, n: nat, k: nat)
    requires Valid(r) && n == k
    ensures ReadTokens(r, n) == ReadTokens(r, k)
  {
  }

  /** ReadTokens over a reader whose Read produces the token `tok`. */
  lemma ReadTokensNext(r: Reader, t: Reader, k: nat, tok: Token)
    requires Valid(r) && Valid(t) && Read(r) == Ok(Step(true, t)) && TokenOf(t) == tok
    ensures ReadTokens(r, k + 1) == PrependAll([tok], ReadTokens(t, k))
  {
    ReadTokensProduced(r, k + 1);
  }

  /** A run that began with a produced token: that token, then the run from
      the next reader with one call fewer. */
  lemma RunAfterStep(a: Reader, a': Reader, fuel: nat, run: Run) returns (rest: Run, f: nat)
    requires Valid(a) && Valid(a') && fuel > 0 && Read(a) == Ok(Step(true, a'))
    requires ReadTokens(a, fuel) == Ok(run)
    ensures fuel == f + 1 && ReadTokens(a', f) == Ok(rest)
    ensures run == Run([TokenOf(a')] + rest.tokens, rest.last, rest.suspended)
  {
    f := fuel - 1;
    ReadTokensNext(a, a', f, TokenOf(a'));
    rest := ReadTokens(a', f).value;
  }

  /** A produced token over the chunk is produced over the wider buffer too,
      and the readers after it are again widened. */
  lemma ExtendFirst(a: Reader, b: Reader) returns (a': Reader, b': Reader)
    requires Valid(a) && Valid(b) && Widened(a, b)
    requires Read(a).Ok? && Read(a).value.produced
    ensures Valid(a') && Valid(b') && Widened(a', b')
    ensures Read(a) == Ok(Step(true, a'))
    ensures Read(b) == Ok(Step(true, b')) && b'.buffer == b.buffer && b'.isFinal == b.isFinal
  {
    a' := Read(a).value.next;
    ReadExtend(a, b);
    b' := Read(b).value.next;
  }

  /** The widened run after a produced token, given the widened run from the
      next reader on. */
  lemma ExtendProduced(b: Reader, a': Reader, b': Reader, m: nat, run: Run, rest: Run, n: nat, k: nat)
    requires Valid(b) && Valid(a') && Valid(b') && Widened(a', b') && n == k + 1
    requires Read(b) == Ok(Step(true, b')) && b'.buffer == b.buffer && b'.isFinal == b.isFinal
    requires run == Run([TokenOf(a')] + rest.tokens, rest.last, rest.suspended)
    requires Valid(Widen(rest.last, b.buffer, b.isFinal))
    requires ReadTokens(b', k) == PrependAll(rest.tokens, ReadTokens(Widen(rest.last, b.buffer, b.isFinal), m))
    ensures ReadTokens(b, n) == PrependAll(run.tokens, ReadTokens(Widen(run.last, b.buffer, b.isFinal), m))
  {
    TokenOfExtend(a', b');
    ReadTokensNext(b, b', k, TokenOf(a'));
    PrependAllTwice([TokenOf(a')], rest.tokens, ReadTokens(Widen(rest.last, b.buffer, b.isFinal), m));
  }

  /** The widened run when the chunk's run stops at once. */
  lemma ExtendStopped(a: Reader, b: Reader, fuel: nat, m: nat, run: Run, n: nat)
    requires Valid(a) && Valid(b) && Widened(a, b) && ReadTokens(a, fuel) == Ok(run)
    requires fuel == 0 || !Read(a).value.produced
    requires n == |run.tokens| + m
    ensures Valid(Widen(run.last, b.buffer, b.isFinal))
    ensures ReadTokens(b, n) == PrependAll(run.tokens, ReadTokens(Widen(run.last, b.buffer, b.isFinal), m))
  {
    ReadTokensStopped(a, fuel);
    WidenedIsWiden(a, b);
    SameFuel(b, n, m);
    PrependNothing(ReadTokens(b, m));
  }

  /** Reading a non-final chunk, then going on over a longer buffer: the
      `n = |run.tokens| + m` calls over the longer buffer produce the chunk's
      tokens first and then what the widened last reader produces in `m`
      calls. Nothing the chunk run read depends on bytes past its end. */
  lemma {:induction false} ReadTokensExtend(a: Reader, b: Reader, fuel: nat, m: nat, run: Run, n: nat)
    requires Valid(a) && Valid(b) && Widened(a, b) && ReadTokens(a, fuel) == Ok(run)
    requires n == |run.tokens| + m
    ensures Valid(Widen(run.last, b.buffer, b.isFinal))
    ensures ReadTokens(b, n) == PrependAll(run.tokens, ReadTokens(Widen(run.last, b.buffer, b.isFinal), m))
    decreases fuel
  {
    if fuel > 0 && Read(a).value.produced {
      var a', b' := ExtendFirst(a, b);
      var rest, f := RunAfterStep(a, a', fuel, run);
      var k := |rest.tokens| + m;
      ReadTokensExtend(a', b', f, m, rest, k);
      ExtendProduced(b, a', b', m, run, rest, n, k);
    } else {
      ExtendStopped(a, b, fuel, m, run, n);
    }
  }

  /** A run over a non-final chunk that fails fails the same way over any
      longer buffer: the tokens before the error and the error itself depend
      only on bytes already in the chunk. */
  lemma {:induction false} ReadTokensFailExtend(a: Reader, b: Reader, fuel: nat)
    requires Valid(a) && Valid(b) && Widened(a, b) && ReadTokens(a, fuel).Fail?
    ensures ReadTokens(b, fuel) == ReadTokens(a, fuel)
    decreases fuel
  {
    var stopped, a', b', f := FailExtendStep(a, b, fuel);
    if !stopped {
      ReadTokensFailExtend(a', b', f);
    }
  }

  /** One step of a failing run: either the first Read fails and the runs
      agree at once, or both first Reads produce the same token and the runs
      agree if their rests, one call shorter, do. */
  lemma FailExtendStep(a: Reader, b: Reader, fuel: nat) returns (stopped: bool, a': Reader, b': Reader, f: int)
    requires Valid(a) && Valid(b) && Widened(a, b) && ReadTokens(a, fuel).Fail?
    ensures stopped ==> ReadTokens(b, fuel) == ReadTokens(a, fuel)
    ensures !stopped ==> 0 <= f < fuel && Valid(a') && Valid(b') && Widened(a', b') && ReadTokens(a', f).Fail?
    ensures !stopped && ReadTokens(b', f) == ReadTokens(a', f) ==> ReadTokens(b, fuel) == ReadTokens(a, fuel)
  {
    f := fuel - 1;
    stopped := Read(a).Fail?;
    if stopped {
      FailExtendAtOnce(a, b, fuel);
      a', b' := a, b;
    } else {
      a', b' := FailExtendFirst(a, b, fuel);
      if ReadTokens(b', fuel - 1) == ReadTokens(a', fuel - 1) {
        FailExtendProduced(a, b, a', b', fuel);
      }
    }
  }

  /** The chunk's first Read fails: so does the first Read over the longer
      buffer, with the same error. */
  lemma FailExtendAtOnce(a: Reader, b: Reader, fuel: nat)
    requires Valid(a) && Valid(b) && Widened(a, b) && ReadTokens(a, fuel).Fail? && Read(a).Fail?
    ensures ReadTokens(b, fuel) == ReadTokens(a, fuel)
  {
    ReadExtend(a, b);
    ReadTokensStopped(a, fuel);
    ReadTokensStopped(b, fuel);
  }

  /** A failing run whose first Read succeeds began with a produced token, and
      the rest of the run, one call shorter, fails. */
  lemma FailExtendFirst(a: Reader, b: Reader, fuel: nat) returns (a': Reader, b': Reader)
    requires Valid(a) && Valid(b) && Widened(a, b) && ReadTokens(a, fuel).Fail? && Read(a).Ok?
    ensures fuel > 0 && Valid(a') && Valid(b') && Widened(a', b')
    ensures Read(a) == Ok(Step(true, a')) && Read(b) == Ok(Step(true, b'))
    ensures ReadTokens(a', fuel - 1).Fail?
  {
    if !Read(a).value.produced {
      ReadTokensStopped(a, fuel);
      assert false;
    }
    a', b' := ExtendFirst(a, b);
    ReadTokensProduced(a, fuel);
  }

  /** Both runs begin with the same produced token; if the rest of the runs
      agree, so do the whole runs. */
  lemma FailExtendProduced(a: Reader, b: Reader, a': Reader, b': Reader, fuel: nat)
    requires Valid(a) && Valid(b) && Valid(a') && Valid(b') && Widened(a', b') && fuel > 0
    requires Read(a) == Ok(Step(true, a')) && Read(b) == Ok(Step(true, b'))
    requires ReadTokens(b', fuel - 1) == ReadTokens(a', fuel - 1)
    ensures ReadTokens(b, fuel) == ReadTokens(a, fuel)
  {
    TokenOfExtend(a', b');
    ReadTokensProduced(a, fuel);
    ReadTokensProduced(b, fuel);
    assert ReadTokens(b, fuel) == PrependAll([TokenOf(a')], ReadTokens(a', fuel - 1));
  }

  // ---------------------------------------------------------------------------
  // Splitting the input into two chunks
  // ---------------------------------------------------------------------------

  lemma CreateWidened(p: seq<byte>, q: seq<byte>, state: ReaderState, isFinal: bool)
    requires |p| + |q| <= IntMax
    ensures Widened(Create(p, false, state), Create(p + q, isFinal, state))
  {
    assert (p + q)[..|p|] == p;
  }

  /** The reader resumed over the rest of its chunk and the next chunk stands
      where the same reader over the joined buffer stands. */
  lemma ResumeShifted(r: Reader, q: seq<byte>, isFinal: bool)
    requires Valid(r) && |r.buffer| + |q| <= IntMax
    ensures Valid(Widen(r, r.buffer + q, isFinal))
    ensures Shifted(Widen(r, r.buffer + q, isFinal), Resume(r, q, isFinal), r.consumed)
  {
    assert (r.buffer + q)[r.consumed..] == r.buffer[r.consumed..] + q;
  }

  lemma SplitAlgebra(ts: seq<Token>, x: Result<Run>, y: Result<Run>, whole: Result<Run>, k: nat)
    requires whole == PrependAll(ts, x) && RunsAgree(x, y, k)
    ensures y.Fail? ==> whole == Fail(y.error)
    ensures y.Ok? ==> whole.Ok? && whole.value.tokens == ts + y.value.tokens && whole.value.suspended == y.value.suspended
  {
  }

  /** ChunkSplit over readers: `a` reads the chunk, `b` the chunk followed by
      `q`, and `total` counts the calls over `b`. */
  lemma SplitRuns(a: Reader, b: Reader, q: seq<byte>, isFinal: bool, n: nat, m: nat, first: Run, total: nat)
    requires Valid(a) && Valid(b) && Widened(a, b) && b.buffer == a.buffer + q && b.isFinal == isFinal
    requires ReadTokens(a, n) == Ok(first) && total == |first.tokens| + m
    ensures var rest := ReadTokens(Resume(first.last, q, isFinal), m);
      var whole := ReadTokens(b, total);
      && (rest.Fail? ==> whole == Fail(rest.error))
      && (rest.Ok? ==>
            && whole.Ok?
            && whole.value.tokens == first.tokens + rest.value.tokens
            && whole.value.suspended == rest.value.suspended)
  {
    ReadTokensExtend(a, b, n, m, first, total);
    ResumeShifted(first.last, q, isFinal);
    ReadTokensShift(Widen(first.last, b.buffer, isFinal), Resume(first.last, q, isFinal), first.last.consumed, m);
    SplitAlgebra(first.tokens, ReadTokens(Widen(first.last, b.buffer, isFinal), m), ReadTokens(Resume(first.last, q, isFinal), m),
      ReadTokens(b, total), first.last.consumed);
  }

  /** Splitting the input into a non-final chunk `p` and a chunk `q`: let
      `first` be what `n` calls read from `p`. The tokens of `first`, followed
      by those read in `m` calls after resuming from the snapshot over the
      unconsumed rest of `p` and then `q`, are the tokens `|first.tokens| + m`
      calls read from `p + q` at once; the resumed reader fails exactly when
      the one-pass reader fails, with the same error, and suspends exactly
      when it suspends. */
  lemma ChunkSplit(p: seq<byte>, q: seq<byte>, state: ReaderState, isFinal: bool, n: nat, m: nat, first: Run, total: nat)
    requires |p| + |q| <= IntMax
    requires ReadTokens(Create(p, false, state), n) == Ok(first) && total == |first.tokens| + m
    ensures var rest := ReadTokens(Resume(first.last, q, isFinal), m);
      var whole := ReadTokens(Create(p + q, isFinal, state), total);
      && (rest.Fail? ==> whole == Fail(rest.error))
      && (rest.Ok? ==>
            && whole.Ok?
            && whole.value.tokens == first.tokens + rest.value.tokens
            && whole.value.suspended == rest.value.suspended)
  {
    CreateWidened(p, q, state, isFinal);
    SplitRuns(Create(p, false, state), Create(p + q, isFinal, state), q, isFinal, n, m, first, total);
  }

  /** A failure inside the first chunk: `n` calls over the joined input fail
      with the same error as `n` calls over the non-final chunk `p` alone. */
  lemma ChunkSplitFailure(p: seq<byte>, q: seq<byte>, state: ReaderState, isFinal: bool, n: nat)
    requires |p| + |q| <= IntMax
    requires ReadTokens(Create(p, false, state), n).Fail?
    ensures ReadTokens(Create(p + q, isFinal, state), n) == ReadTokens(Create(p, false, state), n)
  {
    CreateWidened(p, q, state, isFinal);
    ReadTokensFailExtend(Create(p, false, state), Create(p + q, isFinal, state), n);
  }
}
