/** A result that may be absent, and the original's `int`. */
module Options {
  datatype Option<+T> = None | Some(value: T)

  const INT_END := 0x8000_0000

  /** The original's `int`. */
  type Int32 = x: int | 0 - INT_END <= x < INT_END

  /** A length passed as an `int`. */
  function Narrow(n: nat): Int32
    requires n < 2 * INT_END
  {
    if n < INT_END then n else n - 2 * INT_END
  }

  /** So many bytes that every `int` is large enough: the decimal exponents count digits of the text and add
      a written exponent below 100000. */
  predicate Sized(n: int) { n + 0x2_0000 < INT_END }

  type TextSize = n: nat | n + 0x2_0000 < INT_END
}
