/** The token grammar as the reader accepts it, stated declaratively: what the
    bytes of one token look like, where its payload lies, and what it does to
    the container stack. The reader's contracts are stated against these. */
module Grammar {
  import opened Bytes
  import opened BitStack
  import opened BencodeTypes

  /** A view of `len` bytes of the buffer starting at `offset`. */
  datatype Span = Span(offset: nat, len: nat) {
    function End(): nat {
      offset + len
    }
  }

  /** The payload of an integer token: a canonical digit run, optionally
      preceded by one `-`. "-0" is admitted. */
  predicate IsIntegerText(t: seq<byte>) {
    IsCanonicalRun(t) || (|t| >= 2 && t[0] == Minus && IsCanonicalRun(t[1..]))
  }

  predicate IsStringKind(kind: TokenType) {
    kind == ByteString || kind == DictionaryKey
  }

  /** `buf[start..end]` encodes one token of kind `kind` whose payload is `value`:
      - `d`, `l`, `e`: the single marker byte, which is also the payload;
      - `i<text>e`: the payload is the integer text between the markers;
      - `<n>:<bytes>`: a canonical length prefix `n`, a colon, and a payload of
        exactly `n` bytes. */
  predicate EncodesToken(buf: seq<byte>, start: nat, end: nat, kind: TokenType, value: Span) {
    && start < end <= |buf|
    && value.End() <= |buf|
    && match kind
       case StartDictionary => buf[start] == LowerD && end == start + 1 && value == Span(start, 1)
       case StartList => buf[start] == LowerL && end == start + 1 && value == Span(start, 1)
       case EndDictionary => buf[start] == LowerE && end == start + 1 && value == Span(start, 1)
       case EndList => buf[start] == LowerE && end == start + 1 && value == Span(start, 1)
       case Number =>
         && buf[start] == LowerI
         && value.offset == start + 1
         && end == value.End() + 1
         && buf[value.End()] == LowerE
         && IsIntegerText(buf[value.offset..value.End()])
       case ByteString => IsStringAt(buf, start, end, value)
       case DictionaryKey => IsStringAt(buf, start, end, value)
       case None => false
  }

  predicate IsStringAt(buf: seq<byte>, start: nat, end: nat, value: Span)
    requires end <= |buf|
  {
    && start < value.offset <= |buf|
    && buf[value.offset - 1] == Colon
    && IsCanonicalRun(buf[start..value.offset - 1])
    && DecimalValue(buf[start..value.offset - 1]) == value.len
    && end == value.End()
  }

  /** What a token does to the container stack: a start pushes its kind, an
      end pops a frame of the matching kind, anything else leaves it alone. */
  predicate StackEffect(s: Stack, kind: TokenType, t: Stack) {
    match kind
    case StartDictionary => t == Push(s, true)
    case StartList => t == Push(s, false)
    case EndDictionary => Depth(s) > 0 && Peek(s) && t == Pop(s).0
    case EndList => Depth(s) > 0 && !Peek(s) && t == Pop(s).0
    case _ => t == s
  }
}
