/** Values shared by both services: optional values, operation results, the two
    error kinds the services raise, and write-once timestamps. */
module Prelude {

  /** A possibly absent value: `Optional<T>` in the services, or a JSON `null`. */
  datatype Option<+T> = None | Some(value: T) {

    function GetOr(default: T): T {
      match this
      case Some(v) => v
      case None => default
    }
  }

  /** The two exception families the services throw. `Conflict` is an
      `IllegalArgumentException` (rendered as 400); `NotFound` is any other
      `RuntimeException`, including the explicit "not found" ones, null
      dereferences and persistence failures (rendered as 404 or 500). */
  datatype ErrorKind = Conflict | NotFound

  /** The outcome of a service call: a value, or the exception it throws. */
  datatype Result<+T, +E> = Success(value: T) | Failure(error: E)

  /** An opaque `LocalDateTime`; only its identity matters to the model. */
  datatype Instant = Instant(ticks: int)
}

/** Java `int` arithmetic: values are 32-bit two's complement and `+`/`-`
    wrap around silently. */
module JavaInt {

  type Int32 = x: int | -0x8000_0000 <= x <= 0x7fff_ffff

  predicate InRange(x: int) {
    -0x8000_0000 <= x <= 0x7fff_ffff
  }

  /** The Java `int` that an exact integer result wraps to. */
  function Wrap(x: int): (r: Int32)
    ensures (x - r) % 0x1_0000_0000 == 0
    ensures InRange(x) ==> r == x
  {
    (x + 0x8000_0000) % 0x1_0000_0000 - 0x8000_0000
  }

  /** `Math.max(a, b)` */
  function Max(a: int, b: int): (r: int)
    ensures r >= a && r >= b
    ensures r == a || r == b
  {
    if a >= b then a else b
  }

  /** The one case where Java's `x - 1` does not subtract one. */
  lemma {:induction false} DecrementWrapsOnlyAtMin(x: Int32)
    ensures Wrap(x - 1) == x - 1 <==> x != -0x8000_0000
    ensures x == -0x8000_0000 ==> Wrap(x - 1) == 0x7fff_ffff
  {
    if x == -0x8000_0000 {
      assert Wrap(x - 1) == 0x7fff_ffff;
    }
  }
}
