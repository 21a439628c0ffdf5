/** The crash-loop back-off of one jail. */
module Backoff {
  import opened Text
  import opened Environment
  import opened Subnet

  const INITIAL_DELAY: nat := Seconds(1)
  const MAX_DELAY: nat := Seconds(300)
  const RESET_UPTIME_THRESHOLD: nat := Seconds(60)

  datatype State = State(delay: nat, retryAt: Option<nat>, startedAt: Option<nat>)

  const Fresh := State(INITIAL_DELAY, None, None)

  predicate CanRetry(b: State, now: nat) {
    b.retryAt.None? || now >= b.retryAt.value
  }

  function Attempted(b: State, now: nat): State {
    var delay := if b.startedAt.Some? && Elapsed(now, b.startedAt.value) >= RESET_UPTIME_THRESHOLD then INITIAL_DELAY else b.delay;
    State(if delay * 2 < MAX_DELAY then delay * 2 else MAX_DELAY, Some(now + delay), Some(now))
  }

  /** The state after the first `k` attempts, made at the times `at`. */
  function After(at: seq<nat>, k: nat): State
    requires k <= |at|
  {
    if k == 0 then Fresh else Attempted(After(at, k - 1), at[k - 1])
  }

  /** How many attempts attempt `k` follows without a pause long enough to reset the delay. */
  function SinceReset(at: seq<nat>, k: nat): nat
    requires k < |at|
  {
    if k == 0 || Elapsed(at[k], at[k - 1]) >= RESET_UPTIME_THRESHOLD then 0 else SinceReset(at, k - 1) + 1
  }

  /** The delay attempt `k` arms. */
  function Armed(at: seq<nat>, k: nat): int
    requires k < |at|
  {
    var b := After(at, k + 1);
    b.retryAt.value - b.startedAt.value
  }

  function Capped(n: nat): nat {
    var d := Seconds(Pow2(n));
    if d < MAX_DELAY then d else MAX_DELAY
  }

  /** For any attempt times whatever, the armed delay is min(2^n, 300) seconds, n attempts after the last reset. */
  lemma {:induction false} ArmedDelay(at: seq<nat>, k: nat)
    requires k < |at|
    ensures Armed(at, k) == Capped(SinceReset(at, k))
    ensures After(at, k + 1).delay == Capped(SinceReset(at, k) + 1)
  {
    var b := After(at, k);
    assert After(at, k + 1) == Attempted(b, at[k]);
    CappedDoubles(SinceReset(at, k));
    assert Capped(0) == INITIAL_DELAY;
    if k > 0 {
      ArmedDelay(at, k - 1);
      assert b.startedAt == Some(at[k - 1]);
    }
  }

  /** After attempt `k` the next is allowed exactly once that delay has passed, and the first at any time. */
  lemma RetryAllowedIff(at: seq<nat>, k: nat, t: nat)
    requires k < |at|
    ensures CanRetry(After(at, k + 1), t) <==> t >= at[k] + Capped(SinceReset(at, k))
    ensures CanRetry(After(at, 0), t)
  {
    ArmedDelay(at, k);
    assert After(at, k + 1) == Attempted(After(at, k), at[k]);
  }

  lemma CappedDoubles(n: nat)
    ensures Capped(n + 1) == if Capped(n) * 2 < MAX_DELAY then Capped(n) * 2 else MAX_DELAY
  {
  }

  /** Attempts are made only when the back-off allows one, as `reconcile_one` does. */
  predicate Gated(at: seq<nat>) {
    forall k | 0 <= k < |at| :: CanRetry(After(at, k), at[k])
  }

  lemma {:induction false} ResetWithinSeven(at: seq<nat>, k: nat)
    requires Gated(at) && k < |at|
    ensures SinceReset(at, k) <= 6
  {
    hide After, Gated;
    if k > 0 {
      ResetWithinSeven(at, k - 1);
      if SinceReset(at, k - 1) == 6 { LongDelayResets(at, k); }
    }
  }

  /** After six doublings the next gated attempt comes late enough to reset the delay. */
  lemma LongDelayResets(at: seq<nat>, k: nat)
    requires Gated(at) && 0 < k < |at| && SinceReset(at, k - 1) == 6
    ensures SinceReset(at, k) == 0
  {
    hide Gated, After, Capped;
    ArmedDelay(at, k - 1);
    LastAttempt(at, k);
    SixDoublings();
  }

  lemma LastAttempt(at: seq<nat>, k: nat)
    requires Gated(at) && 0 < k < |at|
    ensures CanRetry(After(at, k), at[k]) && After(at, k).startedAt == Some(at[k - 1]) && After(at, k).retryAt.Some?
  {
  }

  lemma SixDoublings()
    ensures Capped(6) == Seconds(64)
  {
    assert Pow2(6) == 64;
  }

  /** With gated attempts the armed delay never exceeds 64 s: the 300 s ceiling is never reached. */
  lemma ArmedAtMost64(at: seq<nat>, k: nat)
    requires Gated(at) && k < |at|
    ensures Armed(at, k) <= Seconds(64)
  {
    hide After, Gated, SinceReset, Capped, Armed;
    ResetWithinSeven(at, k);
    ArmedDelay(at, k);
    SixAtMost(SinceReset(at, k));
  }

  lemma SixAtMost(n: nat)
    requires n <= 6
    ensures Capped(n) <= Seconds(64)
  {
    hide Pow2;
    Pow2Monotone(n, 6);
    assert Pow2(6) == 64 by { SixthPower(); }
  }

  lemma SixthPower()
    ensures Pow2(6) == 64
  {
  }

  lemma {:induction false} Pow2Monotone(m: nat, n: nat)
    requires m <= n
    ensures Pow2(m) <= Pow2(n)
    decreases n
  {
    if m < n { Pow2Monotone(m, n - 1); }
  }

  lemma {:induction false} NoPauseNoReset(at: seq<nat>, i: nat, k: nat)
    requires i + k < |at|
    requires forall j | i < j <= i + k :: Elapsed(at[j], at[j - 1]) < RESET_UPTIME_THRESHOLD
    ensures SinceReset(at, i + k) >= k
  {
    if k > 0 { NoPauseNoReset(at, i, k - 1); }
  }

  /** Any eight consecutive gated attempts contain a pause of at least 60 s. */
  lemma PauseInEveryEight(at: seq<nat>, i: nat)
    requires Gated(at) && i + 7 < |at|
    ensures exists j | i < j <= i + 7 :: at[j] >= at[j - 1] + RESET_UPTIME_THRESHOLD
  {
    hide After, Gated, SinceReset;
    ResetWithinSeven(at, i + 7);
    if forall j | i < j <= i + 7 :: Elapsed(at[j], at[j - 1]) < RESET_UPTIME_THRESHOLD {
      NoPauseNoReset(at, i, 7);
    }
  }

  // ---------- one more attempt ----------

  lemma {:induction false} AfterPrefix(at: seq<nat>, more: seq<nat>, k: nat)
    requires at <= more && k <= |at|
    ensures After(at, k) == After(more, k)
  {
    if k > 0 { AfterPrefix(at, more, k - 1); }
  }

  /** The back-off is what these attempts, each made when it was allowed, have left. */
  ghost predicate Paced(b: State, at: seq<nat>) {
    b == After(at, |at|) && Gated(at)
  }

  lemma FreshIsPaced()
    ensures Paced(Fresh, [])
  {
  }

  lemma NextAttempt(b: State, at: seq<nat>, now: nat)
    requires Paced(b, at) && CanRetry(b, now)
    ensures Paced(Attempted(b, now), at + [now])
  {
    hide CanRetry, Attempted;
    var more := at + [now];
    forall k | 0 <= k <= |at| ensures After(more, k) == After(at, k) { AfterPrefix(at, more, k); }
    forall k | 0 <= k < |more| ensures CanRetry(After(more, k), more[k]) {
      if k < |at| { assert CanRetry(After(at, k), at[k]); }
    }
  }

  class BackoffState {
    var currentDelay: nat
    var nextRetryAt: Option<nat>
    var lastStartedAt: Option<nat>

    function Value(): State
      reads this
    {
      State(currentDelay, nextRetryAt, lastStartedAt)
    }

    /** The entry of a jail in the reconciler's table. */
    constructor (b: State)
      ensures Value() == b
    {
      currentDelay, nextRetryAt, lastStartedAt := b.delay, b.retryAt, b.startedAt;
    }

    method MayRetry(now: nat) returns (yes: bool)
      ensures yes <==> CanRetry(Value(), now)
    {
      match nextRetryAt
      case Some(t) => yes := now >= t;
      case None => yes := true;
    }

    method RecordAttempt(now: nat)
      modifies this
      ensures Value() == Attempted(old(Value()), now)
    {
      match lastStartedAt {
        case Some(last) =>
          if Elapsed(now, last) >= RESET_UPTIME_THRESHOLD { currentDelay := INITIAL_DELAY; }
        case None =>
      }
      lastStartedAt := Some(now);
      nextRetryAt := Some(now + currentDelay);
      currentDelay := if currentDelay * 2 < MAX_DELAY then currentDelay * 2 else MAX_DELAY;
    }
  }
}
