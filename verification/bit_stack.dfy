/** The container depth stack: one flag per open container, outermost first,
    `true` for a dictionary and `false` for a list.

    The bit-packed implementation is not part of this model. Its operations are
    read as follows: `SetFirstBit` and `PushTrue` both open a dictionary frame,
    `ResetFirstBit` and `PushFalse` both open a list frame, `Peek` is the
    innermost flag or `false` when nothing is open, and `Pop` closes the
    innermost frame and returns the new `Peek`. */
module BitStack {

  type Stack = seq<bool>

  const Empty: Stack := []

  function Depth(s: Stack): nat {
    |s|
  }

  /** The innermost container kind; `false` (not a dictionary) at depth 0. */
  function Peek(s: Stack): bool {
    if |s| == 0 then false else s[|s| - 1]
  }

  function Push(s: Stack, isDictionary: bool): (t: Stack)
    ensures Depth(t) == Depth(s) + 1
    ensures Peek(t) == isDictionary
    ensures t[..Depth(s)] == s
  {
    s + [isDictionary]
  }

  /** Opening the root container: the first bit is set (dictionary) or reset (list). */
  function SetFirstBit(s: Stack): Stack
    requires Depth(s) == 0
  {
    Push(s, true)
  }

  function ResetFirstBit(s: Stack): Stack
    requires Depth(s) == 0
  {
    Push(s, false)
  }

  function PushTrue(s: Stack): Stack {
    Push(s, true)
  }

  function PushFalse(s: Stack): Stack {
    Push(s, false)
  }

  /** Closes the innermost container; returns the remaining stack and its new top. */
  function Pop(s: Stack): (p: (Stack, bool))
    requires Depth(s) > 0
    ensures Depth(p.0) == Depth(s) - 1
    ensures p.0 == s[..Depth(s) - 1]
    ensures p.1 == Peek(p.0)
  {
    var rest := s[..|s| - 1];
    (rest, Peek(rest))
  }

  /** Pop undoes Push and exposes the enclosing container's kind again. */
  lemma PopPush(s: Stack, isDictionary: bool)
    ensures Pop(Push(s, isDictionary)) == (s, Peek(s))
  {
    assert Push(s, isDictionary)[..|s|] == s;
  }

  /** Push undoes Pop: the closed frame was the top flag. */
  lemma PushPop(s: Stack)
    requires Depth(s) > 0
    ensures Push(Pop(s).0, Peek(s)) == s
  {
  }
}
