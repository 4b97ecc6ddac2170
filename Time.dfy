/** The clock shared by the rate limiters: integer instants in nanoseconds, the unit of Go's `time.Duration`. */
module Time {

  /** Nanoseconds in one second (`time.Second`). */
  const NanosPerSecond: int := 1_000_000_000

  /** Call times as a monotonic clock reports them: never going back. */
  predicate NonDecreasing(times: seq<int>)
  {
    forall i, j :: 0 <= i < j < |times| ==> times[i] <= times[j]
  }
}
