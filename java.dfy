/** The few Java-language notions the generated `Person_Builder` relies on:
    32-bit `int`, `null` references, the two exceptions its methods throw,
    and normal versus abrupt completion of a call. */
module Java {

  /** A Java `int` (also the value of a non-null `Integer`). */
  type JavaInt = x: int | -0x8000_0000 <= x < 0x8000_0000

  /** A Java reference that may be `null`. */
  datatype Nullable<+T> = Null | NonNull(value: T)

  /** The exceptions thrown by the generated builder:
      `Preconditions.checkNotNull` and unboxing throw NullPointerException,
      `Preconditions.checkArgument` throws IllegalArgumentException. */
  datatype JavaException = NullPointerException | IllegalArgumentException

  /** How a call ends: it returns, or it throws. */
  datatype Completion = Normal | Abrupt(exception: JavaException)

  /** Java's 32-bit two's-complement wrap-around of an exact integer result. */
  function Wrap32(x: int): (r: JavaInt)
    ensures (r - x) % 0x1_0000_0000 == 0
    ensures -0x8000_0000 <= x < 0x8000_0000 ==> r == x
  {
    (x + 0x8000_0000) % 0x1_0000_0000 - 0x8000_0000
  }

  /** Wrapping an intermediate result does not change the final `int`:
      `c * w + d` for the wrapped `w` of `x` wraps to what `c * x + d` does.
      This is why Java's step-by-step overflow gives the exact result modulo
      2^32. */
  lemma WrapThenScale(x: int, c: int, d: int)
    ensures Wrap32(c * Wrap32(x) + d) == Wrap32(c * x + d)
  {
    var w := Wrap32(x);
    var j := (w - x) / 0x1_0000_0000;
    assert w - x == j * 0x1_0000_0000;
    assert (c * w + d) - (c * x + d) == (c * j) * 0x1_0000_0000;
    Wrap32Shift(c * x + d, c * j);
  }

  lemma Wrap32Shift(x: int, j: int)
    ensures Wrap32(x + j * 0x1_0000_0000) == Wrap32(x)
  {
  }
}
