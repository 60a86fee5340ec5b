/** One run of a task: `executeTask`'s attempts and the waits between them. */
module Retry {
  import opened Durations
  import opened Int64
  import opened Text

  /** `RetryPolicy`. */
  datatype Policy = Policy(maxRetries: int, retryDelay: int, backoff: string)

  const FIVE_MINUTES: int := 5 * MINUTE

  function Pow2(n: nat): (r: nat)
    ensures r >= 1
  {
    if n == 0 then 1 else 2 * Pow2(n - 1)
  }

  function Base(p: Policy): int {
    if p.retryDelay <= 0 then FIVE_MINUTES else p.retryDelay
  }

  /** `time.Duration(uint(1) << uint(attempt))`. */
  function Shifted(attempt: nat): int {
    if attempt >= 64 then 0 else Wrap64(Pow2(attempt))
  }

  /** `retryDelayForAttempt`, in 64-bit arithmetic. */
  function RetryDelay(p: Policy, attempt: nat): int {
    if p.backoff == "linear" then Wrap64(Base(p) * Wrap64(attempt + 1))
    else if p.backoff == "none" || p.backoff == "constant" then Base(p)
    else Wrap64(Base(p) * Shifted(attempt))
  }

  /** The delay that is meant, without a limit on its size. */
  function MeantDelay(p: Policy, attempt: nat): (r: int)
    ensures r > 0
  {
    if p.backoff == "linear" then Positive(Base(p), attempt + 1); Base(p) * (attempt + 1)
    else if p.backoff == "none" || p.backoff == "constant" then Base(p)
    else Positive(Base(p), Pow2(attempt)); Base(p) * Pow2(attempt)
  }

  lemma Positive(a: int, b: int)
    requires a > 0 && b > 0
    ensures a * b > 0 && a * b >= b && a * b >= a
  {
  }

  lemma {:induction false} Pow2Grows(m: nat, n: nat)
    requires m <= n
    ensures Pow2(m) <= Pow2(n)
    decreases n
  {
    if m < n { Pow2Grows(m, n - 1); }
  }

  lemma Pow2Of63()
    ensures Pow2(63) == TWO_63
  {
    assert Pow2(7) == 128;
    hide Pow2;
    Pow2Byte(7);
    Pow2Byte(15);
    Pow2Byte(23);
    Pow2Byte(31);
    Pow2Byte(39);
    Pow2Byte(47);
    Pow2Byte(55);
  }

  lemma Pow2Byte(n: nat)
    ensures Pow2(n + 8) == 256 * Pow2(n)
  {
    assert Pow2(n + 2) == 2 * Pow2(n + 1) == 4 * Pow2(n);
    assert Pow2(n + 4) == 2 * Pow2(n + 3) == 4 * Pow2(n + 2);
    assert Pow2(n + 6) == 2 * Pow2(n + 5) == 4 * Pow2(n + 4);
    assert Pow2(n + 8) == 2 * Pow2(n + 7) == 4 * Pow2(n + 6);
  }

  /** The delay taken is the delay meant exactly when that fits in 63 bits. */
  lemma DelayExact(p: Policy, attempt: nat)
    requires Base(p) < TWO_63
    ensures RetryDelay(p, attempt) == MeantDelay(p, attempt) <==> MeantDelay(p, attempt) < TWO_63
  {
    var base := Base(p);
    if p.backoff == "linear" {
      Positive(base, attempt + 1);
    } else if p.backoff != "none" && p.backoff != "constant" {
      Positive(base, Pow2(attempt));
      Pow2Of63();
      if attempt >= 63 {
        Pow2Grows(63, attempt);
      }
    }
  }

  /** Where the exponential delay no longer fits: from the sixty-fifth attempt on there is no wait at all, and
      before the sixty-fourth retry none either, or the most negative duration, which is none. */
  lemma OverflowedDelay(p: Policy, attempt: nat)
    requires p.backoff != "linear" && p.backoff != "none" && p.backoff != "constant"
    ensures attempt >= 64 ==> RetryDelay(p, attempt) == 0
    ensures attempt == 63 ==> RetryDelay(p, attempt) == if Base(p) % 2 == 0 then 0 else -TWO_63
  {
    if attempt == 63 {
      Pow2Of63();
      var q, r := Base(p) / 2, Base(p) % 2;
      assert Base(p) * -TWO_63 == -r * TWO_63 + -q * TWO_64;
      WrapPeriod(-r * TWO_63, -q);
    }
  }

  /** The sum of the first `k` waits. */
  function TotalWait(p: Policy, k: nat): int {
    if k == 0 then 0 else TotalWait(p, k - 1) + RetryDelay(p, k - 1)
  }

  function MeantWait(p: Policy, k: nat): int {
    if p.backoff == "linear" then Base(p) * (k * (k + 1) / 2)
    else if p.backoff == "none" || p.backoff == "constant" then Base(p) * k
    else Base(p) * (Pow2(k) - 1)
  }

  /** After `k` retries, while every single wait fits in 63 bits, the waits add up to base·k,
      base·k(k+1)/2 or base·(2^k - 1). */
  lemma {:induction false} TotalWaitClosed(p: Policy, k: nat)
    requires Base(p) < TWO_63
    requires forall j :: 0 <= j < k ==> MeantDelay(p, j) < TWO_63
    ensures TotalWait(p, k) == MeantWait(p, k)
  {
    if k > 0 {
      TotalWaitClosed(p, k - 1);
      DelayExact(p, k - 1);
      WaitStep(p, k);
    }
  }

  /** The waits in plain numbers: five minutes unless the policy names a positive delay; the same every time,
      or one more of it, or twice as much, from wait to wait. */
  lemma WaitsInNumbers(p: Policy, k: nat)
    requires Base(p) < TWO_63 && forall j :: 0 <= j < k ==> MeantDelay(p, j) < TWO_63
    ensures var base := if p.retryDelay <= 0 then 300_000_000_000 else p.retryDelay;
      && (p.backoff == "none" || p.backoff == "constant" ==> TotalWait(p, k) == base * k)
      && (p.backoff == "linear" ==> TotalWait(p, k) == base * (k * (k + 1) / 2))
      && (p.backoff != "none" && p.backoff != "constant" && p.backoff != "linear" ==>
            TotalWait(p, k) == base * (Pow2(k) - 1))
      && Pow2(0) == 1 && Pow2(k + 1) == 2 * Pow2(k)
  {
    TotalWaitClosed(p, k);
  }

  lemma WaitStep(p: Policy, k: nat)
    requires k > 0
    ensures MeantWait(p, k) == MeantWait(p, k - 1) + MeantDelay(p, k - 1)
  {
    if p.backoff == "linear" {
      assert k * (k + 1) == (k - 1) * k + 2 * k;
      assert k * (k + 1) / 2 == (k - 1) * k / 2 + k;
      Distribute(Base(p), (k - 1) * k / 2, k);
    } else if p.backoff == "none" || p.backoff == "constant" {
      Distribute(Base(p), k - 1, 1);
    } else {
      Distribute(Base(p), Pow2(k - 1) - 1, Pow2(k - 1));
    }
  }

  lemma Distribute(a: int, b: int, c: int)
    ensures a * (b + c) == a * b + a * c
  {
  }

  // ---------- the attempts ----------

  /** The handler succeeds or fails on each attempt; shutdown may interrupt the wait after one. */
  datatype Outcome = Outcome(ok: bool, calls: nat, rows: nat, delays: seq<int>, interrupted: bool)

  /** How many retries the policy allows. */
  function MaxRetries(policy: Option<Policy>): nat {
    match policy case None => 0 case Some(p) => if p.maxRetries < 0 then 0 else p.maxRetries
  }

  /** The retry loop of `executeTask`. The handler is called at least once and at most one time
      more than the retries allowed, stops at the first success, and each call attempts one history
      row; the waits are the policy's. A failing run ends only when the retries are used up or a
      shutdown interrupts a wait. */
  method ExecuteTask(policy: Option<Policy>, handler: nat -> bool, shutdown: nat -> bool) returns (r: Outcome)
    ensures 1 <= r.calls <= MaxRetries(policy) + 1 && r.rows == r.calls
    ensures policy.None? || policy.value.maxRetries <= 0 ==> r.calls == 1
    ensures policy.Some? && policy.value.maxRetries > 0 ==> r.calls <= policy.value.maxRetries + 1
    ensures policy.Some? && policy.value.maxRetries > 0 && !r.ok && !r.interrupted ==> r.calls == policy.value.maxRetries + 1
    ensures r.ok == handler(r.calls - 1) && forall k :: 0 <= k < r.calls - 1 ==> !handler(k)
    ensures r.interrupted ==> !r.ok && r.calls <= MaxRetries(policy) && shutdown(r.calls - 1)
    ensures !r.ok && !r.interrupted ==> r.calls == MaxRetries(policy) + 1
    ensures forall k :: 0 <= k < r.calls - 1 ==> !shutdown(k)
    ensures |r.delays| == if r.interrupted then r.calls else r.calls - 1
    ensures policy.Some? ==> forall k :: 0 <= k < |r.delays| ==> r.delays[k] == RetryDelay(policy.value, k)
  {
    var attempt: nat, rows: nat := 0, 0;
    var delays: seq<int> := [];
    var interrupted := false;
    var ok := false;
    while true
      invariant attempt <= MaxRetries(policy) && rows == attempt && |delays| == attempt && !interrupted
      invariant forall k :: 0 <= k < attempt ==> !handler(k) && !shutdown(k)
      invariant policy.Some? ==> forall k :: 0 <= k < attempt ==> delays[k] == RetryDelay(policy.value, k)
      decreases MaxRetries(policy) - attempt
    {
      rows := rows + 1;
      ok := handler(attempt);
      if ok { break; }
      if policy.None? || attempt >= policy.value.maxRetries { break; }
      delays := delays + [RetryDelay(policy.value, attempt)];
      if shutdown(attempt) {
        interrupted := true;
        break;
      }
      attempt := attempt + 1;
    }
    return Outcome(ok, attempt + 1, rows, delays, interrupted);
  }
}
