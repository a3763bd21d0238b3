/** Bytes, the ASCII characters Bencode uses as markers, and decimal digit runs. */
module Bytes {

  /** One byte of the input buffer. */
  newtype byte = b: int | 0 <= b < 256

  const Zero: byte := 48    // '0'
  const Nine: byte := 57    // '9'
  const Minus: byte := 45   // '-'
  const Colon: byte := 58   // ':'
  const LowerD: byte := 100 // 'd'
  const LowerE: byte := 101 // 'e'
  const LowerI: byte := 105 // 'i'
  const LowerL: byte := 108 // 'l'

  predicate IsDigit(b: byte) {
    Zero <= b <= Nine
  }

  predicate AllDigits(s: seq<byte>) {
    forall i :: 0 <= i < |s| ==> IsDigit(s[i])
  }

  function DigitValue(b: byte): (d: nat)
    requires IsDigit(b)
    ensures d < 10
  {
    b as int - Zero as int
  }

  /** The number a run of ASCII digits spells, most significant digit first. */
  function DecimalValue(s: seq<byte>): nat
    requires AllDigits(s)
  {
    if |s| == 0 then 0 else DecimalValue(s[..|s| - 1]) * 10 + DigitValue(s[|s| - 1])
  }

  /** A digit run as Bencode admits it: at least one digit, and no leading
      zero unless the zero is the whole run. */
  predicate IsCanonicalRun(s: seq<byte>) {
    |s| >= 1 && AllDigits(s) && (s[0] == Zero ==> |s| == 1)
  }

  /** The shortest decimal spelling of `n`. */
  function DecimalDigits(n: nat): (s: seq<byte>)
    ensures IsCanonicalRun(s)
    ensures s[0] == Zero <==> n == 0
  {
    if n < 10 then [(Zero as int + n) as byte]
    else DecimalDigits(n / 10) + [(Zero as int + n % 10) as byte]
  }

  /** Reading back the spelling of `n` gives `n`. */
  lemma {:induction false} DecimalRoundTrip(n: nat)
    ensures DecimalValue(DecimalDigits(n)) == n
  {
    if n >= 10 {
      var s := DecimalDigits(n);
      assert s[..|s| - 1] == DecimalDigits(n / 10);
      DecimalRoundTrip(n / 10);
    }
  }

  /** Appending a digit to a run multiplies its value by ten and adds the digit. */
  lemma DecimalValueSnoc(s: seq<byte>, b: byte)
    requires AllDigits(s) && IsDigit(b)
    ensures AllDigits(s + [b])
    ensures DecimalValue(s + [b]) == DecimalValue(s) * 10 + DigitValue(b)
  {
    assert (s + [b])[..|s|] == s;
  }

  /** A prefix of a digit run never spells a larger number than the run. */
  lemma {:induction false} DecimalValuePrefix(s: seq<byte>, i: nat)
    requires AllDigits(s) && i <= |s|
    ensures AllDigits(s[..i])
    ensures DecimalValue(s[..i]) <= DecimalValue(s)
    decreases |s| - i
  {
    if i < |s| {
      DecimalValuePrefix(s, i + 1);
      assert s[..i + 1][..i] == s[..i];
    } else {
      assert s[..i] == s;
    }
  }
}
