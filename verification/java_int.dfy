/**
 * Java's fixed-width integers. `int` arithmetic in Java wraps modulo 2^32;
 * the model computes on unbounded integers and then applies `Wrap32`
 * wherever the Java code performs an `int` operation that could overflow.
 */
module JavaInt {

  const MIN_INT32: int := -0x8000_0000
  const MAX_INT32: int := 0x7fff_ffff
  const TWO_TO_32: int := 0x1_0000_0000

  newtype int32 = x: int | -0x8000_0000 <= x < 0x8000_0000
  newtype int64 = x: int | -0x8000_0000_0000_0000 <= x < 0x8000_0000_0000_0000

  /** The Java `int` with the same low 32 bits as `x` (two's complement wrap-around). */
  function Wrap32(x: int): (r: int32)
    ensures (r as int - x) % TWO_TO_32 == 0
    ensures MIN_INT32 <= x <= MAX_INT32 ==> r as int == x
  {
    var m := (x - MIN_INT32) % TWO_TO_32;
    assert x - MIN_INT32 == ((x - MIN_INT32) / TWO_TO_32) * TWO_TO_32 + m;
    (m + MIN_INT32) as int32
  }

  /** Two integers that agree modulo 2^32 wrap to the same `int`. */
  lemma WrapCongruent(x: int, y: int)
    requires (x - y) % TWO_TO_32 == 0
    ensures Wrap32(x) == Wrap32(y)
  {
    var a, b := Wrap32(x) as int, Wrap32(y) as int;
    var k := (x - y) / TWO_TO_32;
    assert x - y == k * TWO_TO_32;
    var ka := (a - x) / TWO_TO_32;
    assert a - x == ka * TWO_TO_32;
    var kb := (b - y) / TWO_TO_32;
    assert b - y == kb * TWO_TO_32;
    assert a - b == (ka - kb + k) * TWO_TO_32;
  }

  /** Incrementing a wrapped counter is the same as wrapping the incremented count. */
  lemma WrapIncrement(n: int)
    ensures Wrap32(Wrap32(n) as int + 1) == Wrap32(n + 1)
  {
    WrapCongruent(Wrap32(n) as int + 1, n + 1);
  }

  /** Java `x + 1` on an `int`: the largest value wraps to the smallest. */
  function Inc32(x: int32): int32 {
    if x as int == MAX_INT32 then MIN_INT32 as int32 else x + 1
  }

  /** `Inc32` is the wrapped successor. */
  lemma IncIsWrap(x: int32)
    ensures Inc32(x) == Wrap32(x as int + 1)
  {
  }

  /** The value of a Java `int` counter that starts at 0 and is incremented `n` times. */
  function Count32(n: nat): int32 {
    if n == 0 then 0 else Inc32(Count32(n - 1))
  }

  /** After `n` increments the counter holds `n` wrapped to 32 bits. */
  lemma {:induction false} CountIsWrap(n: nat)
    ensures Count32(n) == Wrap32(n)
  {
    if n > 0 {
      CountIsWrap(n - 1);
      IncIsWrap(Count32(n - 1));
      WrapIncrement(n - 1);
    }
  }
}
