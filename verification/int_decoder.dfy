/** The integer decoder: a run of ASCII digits with an optional leading `-`,
    accumulated as an unsigned 64-bit value and checked against a caller's
    maximum magnitude after every digit (BencodeReader.TryGetInt64). */
module IntDecoder {
  import opened Bytes

  const IntMax: nat := 0x7FFF_FFFF               // int.MaxValue
  const LongMax: nat := 0x7FFF_FFFF_FFFF_FFFF    // long.MaxValue
  const ULongModulus: nat := 0x1_0000_0000_0000_0000
  const IntModulus: nat := 0x1_0000_0000

  /** The `bool` result and `out` value of a Try method; the value is 0 on failure. */
  datatype TryInt = TryInt(success: bool, value: int)

  /** `(byte)(b - '0')`: the difference truncated to eight bits. */
  function DigitByte(b: byte): (d: nat)
    ensures d < 10 <==> IsDigit(b)
    ensures IsDigit(b) ==> d == DigitValue(b)
  {
    (b as int - Zero as int) % 256
  }

  /** 1 when the text starts with a minus sign, else 0. */
  function SignLength(data: seq<byte>): (n: nat)
    requires |data| > 0
    ensures n <= 1
  {
    if data[0] == Minus then 1 else 0
  }

  /** The digits after the optional sign. */
  function Magnitude(data: seq<byte>): seq<byte>
    requires |data| > 0
  {
    data[SignLength(data)..]
  }

  /** What a correct decoder accepts: only digits after the sign, and a
      magnitude no larger than `max`. */
  predicate Decodable(data: seq<byte>, max: nat)
    requires |data| > 0
  {
    AllDigits(Magnitude(data)) && DecimalValue(Magnitude(data)) <= max
  }

  /** The signed value of decodable text. */
  function SignedValue(data: seq<byte>): int
    requires |data| > 0 && AllDigits(Magnitude(data))
  {
    if data[0] == Minus then -(DecimalValue(Magnitude(data)) as int) else DecimalValue(Magnitude(data))
  }

  // ---------------------------------------------------------------------------
  // As written: the accumulator is a ulong, so `unsigned * 10 + b` wraps modulo
  // 2^64 before it is compared with `max`.
  // ---------------------------------------------------------------------------

  function AccumulateWrapping(data: seq<byte>, i: nat, acc: nat, max: nat): (u: TryInt)
    requires i <= |data| && acc <= max
    ensures u.success ==> 0 <= u.value <= max
    ensures !u.success ==> u.value == 0
    decreases |data| - i
  {
    if i == |data| then TryInt(true, acc)
    else
      var b := DigitByte(data[i]);
      var next := (acc * 10 + b) % ULongModulus;
      if b >= 10 || next > max then TryInt(false, 0)
      else AccumulateWrapping(data, i + 1, next, max)
  }

  /** TryGetInt64(data, maxValue) exactly as the source computes it. */
  function TryGetInt64Wrapping(data: seq<byte>, max: nat): (r: TryInt)
    requires |data| > 0 && max <= LongMax
    ensures r.success ==> -(max as int) <= r.value <= max
    ensures !r.success ==> r.value == 0
  {
    var u := AccumulateWrapping(data, SignLength(data), 0, max);
    if !u.success then TryInt(false, 0)
    else if data[0] == Minus then TryInt(true, -u.value)
    else TryInt(true, u.value)
  }

  // ---------------------------------------------------------------------------
  // Corrected: the same digit-by-digit scan with an exact accumulator.
  // ---------------------------------------------------------------------------

  function Accumulate(data: seq<byte>, i: nat, acc: nat, max: nat): TryInt
    requires i <= |data| && acc <= max
    decreases |data| - i
  {
    if i == |data| then TryInt(true, acc)
    else
      var b := DigitByte(data[i]);
      var next := acc * 10 + b;
      if b >= 10 || next > max then TryInt(false, 0)
      else Accumulate(data, i + 1, next, max)
  }

  /** Once the digits `data[from..i]` are accumulated, the scan succeeds exactly
      when the whole remainder is digits spelling at most `max`. */
  lemma {:induction false} AccumulateSpec(data: seq<byte>, from: nat, i: nat, acc: nat, max: nat)
    requires from <= i <= |data| && acc <= max
    requires AllDigits(data[from..i]) && acc == DecimalValue(data[from..i])
    ensures var u := Accumulate(data, i, acc, max);
      && (u.success <==> AllDigits(data[from..]) && DecimalValue(data[from..]) <= max)
      && (u.success ==> u.value == DecimalValue(data[from..]))
      && (!u.success ==> u.value == 0)
    decreases |data| - i
  {
    if i == |data| {
      assert data[from..i] == data[from..];
    } else {
      var b := DigitByte(data[i]);
      if b >= 10 {
        assert !IsDigit(data[from..][i - from]);
      } else {
        DecimalValueSnoc(data[from..i], data[i]);
        assert data[from..i] + [data[i]] == data[from..i + 1];
        var next := acc * 10 + b;
        if next > max {
          if AllDigits(data[from..]) {
            DecimalValuePrefix(data[from..], i + 1 - from);
            assert data[from..][..i + 1 - from] == data[from..i + 1];
          }
        } else {
          AccumulateSpec(data, from, i + 1, next, max);
        }
      }
    }
  }

  /** TryGetInt64(data, maxValue) with the overflow check made exact: succeeds
      exactly on a digit run (after an optional `-`) whose magnitude is at most
      `max`, and then yields the signed value. */
  function TryGetInt64(data: seq<byte>, max: nat): (r: TryInt)
    requires |data| > 0
    ensures r.success <==> Decodable(data, max)
    ensures r.success ==> r.value == SignedValue(data)
    ensures !r.success ==> r.value == 0
  {
    var start := SignLength(data);
    AccumulateSpec(data, start, start, 0, max);
    var u := Accumulate(data, start, 0, max);
    if !u.success then TryInt(false, 0)
    else if data[0] == Minus then TryInt(true, -u.value)
    else TryInt(true, u.value)
  }

  /** TryGetInt32(data): TryGetInt64 bounded by int.MaxValue, so the range
      accepted is [-2147483647, 2147483647] and int.MinValue is rejected. */
  function TryGetInt32(data: seq<byte>): (r: TryInt)
    requires |data| > 0
    ensures r.success <==> Decodable(data, IntMax)
    ensures r.success ==> r.value == SignedValue(data) && -(IntMax as int) <= r.value <= IntMax
    ensures !r.success ==> r.value == 0
  {
    var l := TryGetInt64(data, IntMax);
    TryInt(l.success, if l.success then l.value else 0)
  }

  /** The canonical Bencode spelling of `v` (without the `i`/`e` markers). */
  function IntegerText(v: int): (t: seq<byte>)
    ensures |t| > 0
  {
    if v < 0 then [Minus] + DecimalDigits(-v) else DecimalDigits(v)
  }

  /** Decoding the spelling of `v` gives back `v` exactly when its magnitude
      is within `max`. */
  lemma DecodeIntegerText(v: int, max: nat)
    ensures TryGetInt64(IntegerText(v), max)
         == if -(max as int) <= v <= max then TryInt(true, v) else TryInt(false, 0)
  {
    var t := IntegerText(v);
    var m := if v < 0 then -v else v;
    assert Magnitude(t) == DecimalDigits(m);
    DecimalRoundTrip(m);
  }

  /** TryGetInt32 accepts exactly the range [-2147483647, 2147483647] and returns
      the number it reads; int.MinValue, -2147483648, is rejected. */
  lemma Int32Range(v: int)
    ensures TryGetInt32(IntegerText(v)).success <==> -(IntMax as int) <= v <= IntMax
    ensures TryGetInt32(IntegerText(v)).success ==> TryGetInt32(IntegerText(v)).value == v
    ensures !TryGetInt32(IntegerText(-0x8000_0000)).success
  {
    DecodeIntegerText(v, IntMax);
    DecodeIntegerText(-0x8000_0000, IntMax);
  }

  // ---------------------------------------------------------------------------
  // Relating the two accumulators.
  // ---------------------------------------------------------------------------

  /** When `10 * max + 9` stays below 2^64 no step can wrap, so the source's
      accumulator is exact. This covers TryGetInt32 (max = int.MaxValue). */
  lemma {:induction false} AccumulateNoWrap(data: seq<byte>, i: nat, acc: nat, max: nat)
    requires i <= |data| && acc <= max && max * 10 + 9 < ULongModulus
    ensures AccumulateWrapping(data, i, acc, max) == Accumulate(data, i, acc, max)
    decreases |data| - i
  {
    if i < |data| {
      var b := DigitByte(data[i]);
      if b < 10 {
        var next := acc * 10 + b;
        NoWrap(next);
        if next <= max {
          AccumulateNoWrap(data, i + 1, next, max);
        }
      }
    }
  }

  /** Reduction modulo 2^64 leaves a value below 2^64 alone. */
  lemma NoWrap(x: nat)
    requires x < ULongModulus
    ensures x % ULongModulus == x
  {
  }

  /** Wherever the exact scan succeeds, no step of the source's scan can have
      wrapped, so the two agree; and the source's scan fails on any text
      that holds a non-digit. */
  lemma {:induction false} WrappingMatches(data: seq<byte>, i: nat, acc: nat, max: nat)
    requires i <= |data| && acc <= max <= LongMax
    ensures Accumulate(data, i, acc, max).success ==>
      AccumulateWrapping(data, i, acc, max) == Accumulate(data, i, acc, max)
    ensures !AllDigits(data[i..]) ==> !AccumulateWrapping(data, i, acc, max).success
    decreases |data| - i
  {
    if i < |data| {
      var b := DigitByte(data[i]);
      if b < 10 {
        assert data[i + 1..] == data[i..][1..];
        var next := acc * 10 + b;
        if next <= max {
          NoWrap(next);
          WrappingMatches(data, i + 1, next, max);
        } else {
          var w := next % ULongModulus;
          if w <= max {
            WrappingMatches(data, i + 1, w, max);
          }
        }
      }
    }
  }

  /** The source's decoder and the corrected one differ only on digit runs
      whose magnitude exceeds `max`: they agree on every text the corrected
      decoder accepts and on every text with a non-digit after the sign. */
  lemma WrappingAgrees(data: seq<byte>, max: nat)
    requires |data| > 0 && max <= LongMax
    ensures Decodable(data, max) || !AllDigits(Magnitude(data)) ==>
      TryGetInt64Wrapping(data, max) == TryGetInt64(data, max)
  {
    var start := SignLength(data);
    WrappingMatches(data, start, 0, max);
    AccumulateSpec(data, start, start, 0, max);
  }

  lemma Int32DecoderExact(data: seq<byte>)
    requires |data| > 0
    ensures TryGetInt64Wrapping(data, IntMax) == TryGetInt64(data, IntMax)
  {
    AccumulateNoWrap(data, SignLength(data), 0, IntMax);
  }

  /** While the digits read so far spell at most `max` (so at most
      long.MaxValue), no step has wrapped: the accumulator holds their value. */
  lemma {:induction false} WrappingPrefix(data: seq<byte>, j: nat, max: nat)
    requires j <= |data| && max <= LongMax
    requires AllDigits(data[..j]) && DecimalValue(data[..j]) <= max
    ensures AccumulateWrapping(data, 0, 0, max) == AccumulateWrapping(data, j, DecimalValue(data[..j]), max)
  {
    if j > 0 {
      var p := data[..j - 1];
      assert data[..j] == p + [data[j - 1]];
      assert AllDigits(p);
      DecimalValueSnoc(p, data[j - 1]);
      var v := DecimalValue(p);
      var d := DigitValue(data[j - 1]);
      assert v * 10 + d == DecimalValue(data[..j]) <= max;
      WrappingPrefix(data, j - 1, max);
      assert DigitByte(data[j - 1]) == d;
      assert (v * 10 + d) % ULongModulus == v * 10 + d;
    }
  }

  /** The spelling of a number `n` whose leading digits spell at most `max`
      is accepted as written with the value `n` modulo 2^64, whenever that
      residue is itself at most `max`: only the last step can wrap. */
  lemma WrappingLastDigit(n: nat, max: nat)
    requires n >= 10 && n / 10 <= max <= LongMax && n % ULongModulus <= max
    ensures TryGetInt64Wrapping(DecimalDigits(n), max) == TryInt(true, n % ULongModulus)
  {
    var t := DecimalDigits(n);
    var j := |t| - 1;
    var acc, d := n / 10, n % 10;
    assert t[..j] == DecimalDigits(acc);
    DecimalRoundTrip(acc);
    assert SignLength(t) == 0;
    WrappingPrefix(t, j, max);
    assert DigitByte(t[j]) == d;
    LastStep(t, j, acc, d, max);
    assert acc * 10 + d == n;
  }

  /** The scan's last step: one more digit, then the end of the text. */
  lemma LastStep(t: seq<byte>, j: nat, acc: nat, d: nat, max: nat)
    requires j + 1 == |t| && acc <= max && DigitByte(t[j]) == d && d < 10
    requires (acc * 10 + d) % ULongModulus <= max
    ensures AccumulateWrapping(t, j, acc, max) == TryInt(true, (acc * 10 + d) % ULongModulus)
  {
  }

  /** "18446744073709551616", the decimal spelling of 2^64. */
  function TwoToThe64Text(): seq<byte> {
    DecimalDigits(ULongModulus)
  }

  /** As written, TryGetInt64 with max = long.MaxValue accepts
      "18446744073709551616": the first nineteen digits spell
      1844674407370955161, and the last step computes 2^64, which the ulong
      accumulator wraps to 0. The corrected decoder rejects the text. */
  lemma WrappingAcceptsTwoToThe64()
    ensures TryGetInt64Wrapping(TwoToThe64Text(), LongMax) == TryInt(true, 0)
    ensures !Decodable(TwoToThe64Text(), LongMax)
    ensures TryGetInt64(TwoToThe64Text(), LongMax) == TryInt(false, 0)
  {
    WrappingLastDigit(ULongModulus, LongMax);
    var t := TwoToThe64Text();
    DecimalRoundTrip(ULongModulus);
    assert Magnitude(t) == t;
  }
}
