/** Time and the outcome of calls to other machines. */
module Environment {

  /** Nanoseconds on a monotonic clock: `now.saturating_duration_since(since)`. */
  function Elapsed(now: nat, since: nat): nat {
    if now >= since then now - since else 0
  }

  function Seconds(n: nat): nat { n * 1_000_000_000 }

  /** The outcome of a round in which every call succeeds. */
  predicate Always(call: nat) { true }
}
