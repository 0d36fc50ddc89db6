/** Instants and durations are whole nanoseconds. */
module Instant {
  const SECOND: int := 1_000_000_000

  /** time.Time.Unix: whole seconds, rounded down. */
  function Unix(t: int): int { t / SECOND }
}
