/** Vocabulary every other module shares: bytes, options, positions and biases. */
module Base {
  datatype Option<+T> = None | Some(value: T)

  type byte = b: int | 0 <= b < 256

  type Text = seq<byte>

  const NEWLINE: byte := 10

  /** Offsets are 32 bits wide: no text reaches this length. */
  const U32_MAX: nat := 4294967295

  /** A half-open run of bytes. */
  datatype Span = Span(start: nat, end: nat)

  /** Which side of an insertion a position on the insertion point sticks to. */
  datatype Bias = Left | Right

  function Min(a: int, b: int): int { if a <= b then a else b }

  function Max(a: int, b: int): int { if a <= b then b else a }

  /** Truncating subtraction, the source's `saturating_sub`. */
  function SatSub(a: nat, b: nat): nat { if a <= b then 0 else a - b }

  lemma {:induction false} Regroup<T>(a: seq<T>, b: seq<T>, c: seq<T>)
    ensures a + (b + c) == (a + b) + c
  {}
}
