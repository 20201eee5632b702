/** Vocabulary shared by every module: instants, optional values and results. */
module Basics {
  /** Nanoseconds since the first instant of year 1 UTC, so that 0 is Go's zero `time.Time`. */
  type Time = int
  type Duration = int

  const ZERO_TIME: Time := 0
  const HOUR: Duration := 3_600_000_000_000
  const DAY: Duration := 24 * HOUR

  datatype Option<+T> = None | Some(value: T)

  datatype Result<+T, +E> = Ok(value: T) | Err(error: E)

  function Max(a: int, b: int): int {
    if a < b then b else a
  }

  function Min(a: int, b: int): int {
    if a < b then a else b
  }

  lemma ProductIsNatural(a: int, b: int)
    requires 0 <= a && 0 <= b
    ensures 0 <= a * b
  {
  }

  lemma Multiples(m: int, n: int, d: int)
    requires m < n && 0 <= d
    ensures n * d >= m * d + d
  {
    ProductIsNatural(n - m - 1, d);
    assert (n - m - 1) * d == n * d - m * d - d;
  }
}
