/** Go's `time.Duration`: a 64-bit number of nanoseconds. */
module Durations {

  const SECOND: int := 1_000_000_000
  const MAX_DURATION: int := 0x7FFF_FFFF_FFFF_FFFF

  type Duration = d: int | -MAX_DURATION - 1 <= d <= MAX_DURATION

  /** `time.Duration(n) * time.Second`, which wraps around. */
  function Seconds(n: int): Duration {
    (n * SECOND + MAX_DURATION + 1) % 0x1_0000_0000_0000_0000 - MAX_DURATION - 1
  }

  /** The product is exact exactly when it fits 64 bits. */
  lemma SecondsExact(n: int)
    ensures Seconds(n) == n * SECOND <==> -MAX_DURATION - 1 <= n * SECOND <= MAX_DURATION
  {
  }
}
