/** `ApiTransport.requestRaw` of frontend/src/api/transport.ts: the bounded retry loop, against any sequence
    of network outcomes and of moments at which the caller cancels. */
module RetryTransport {
  import opened Results

  datatype RetryPolicy = Default | Never | Safe

  /** What one fetch comes back with. `retryable` is the flag of the error body, false without one. */
  datatype Reply =
    | Response(status: nat, retryable: bool)
    | UnreadableBody(status: nat)
    | NetworkFailure
    | ThrownByFetch(retryable: bool)

  /** One attempt: what the caller's abort signal says at the moments it is read, whether the timer fired,
      and what the fetch came back with. */
  datatype Attempt = Attempt(abortedBefore: bool, reply: Reply, abortedOnFailure: bool, timedOut: bool,
                             abortedAtCatch: bool, abortedAtDelay: bool, abortedByEnd: bool)

  datatype TransportError =
    | Http(status: nat, retryable: bool)
    | FromFetch(retryable: bool)
    | Network
    | Timeout
    | Aborted
    | Exhausted

  predicate Retryable(e: TransportError) {
    match e
    case Http(_, retryable) => retryable
    case FromFetch(retryable) => retryable
    case Network => true
    case Timeout => true
    case Aborted => false
    case Exhausted => true
  }

  predicate SafeMethod(name: string) { name == "GET" || name == "HEAD" || name == "OPTIONS" }

  predicate RetryableStatus(status: nat) {
    status == 408 || status == 425 || status == 429 || status == 500 || status == 502 || status == 503 || status == 504
  }

  predicate OkStatus(status: nat) { 200 <= status <= 299 }

  /** `canRetry` */
  predicate CanRetry(name: string, policy: RetryPolicy) {
    match policy
    case Never => false
    case Safe => SafeMethod(name)
    case Default => name == "GET" || name == "HEAD"
  }

  function MaxAttempts(name: string, policy: RetryPolicy, maxReadRetries: nat): nat {
    if CanRetry(name, policy) then maxReadRetries + 1 else 1
  }

  // ----- what an attempt amounts to

  predicate Succeeds(a: Attempt) {
    !a.abortedBefore && (a.reply.Response? || a.reply.UnreadableBody?) && OkStatus(a.reply.status)
  }

  /** The delay before the next attempt is cut short, or refused, by the caller. A zero delay is not. */
  predicate DelayInterrupted(a: Attempt, delay: real) {
    delay > 0.0 && (a.abortedAtDelay || a.abortedByEnd)
  }

  /** The error of an attempt that does not succeed, before any delay. */
  function Failure(a: Attempt): TransportError {
    if a.abortedBefore then Aborted
    else match a.reply
      case Response(status, retryable) => Http(status, retryable)
      case UnreadableBody(_) => Network
      case NetworkFailure => if a.abortedOnFailure then Aborted else if a.timedOut then Timeout else Network
      case ThrownByFetch(retryable) =>
        if a.abortedOnFailure then Aborted else if a.timedOut then Timeout else FromFetch(retryable)
  }

  predicate RetryByStatus(a: Attempt) {
    !a.abortedBefore && (a.reply.Response? || a.reply.UnreadableBody?) && RetryableStatus(a.reply.status)
  }

  /** The attempt asks for another one, if any are left. */
  predicate AsksAgain(a: Attempt) {
    !Succeeds(a) && (RetryByStatus(a) || (Retryable(Failure(a)) && !a.abortedAtCatch))
  }

  /** Another attempt follows, if any are left. */
  predicate Transient(a: Attempt, delay: real) {
    AsksAgain(a) && !DelayInterrupted(a, delay)
  }

  // ----- delays

  /** The delay after attempt `k`. */
  function DelayFor(delayMs: real, k: nat): real { delayMs * (k as real) }

  lemma DelayPositive(delayMs: real, k: nat)
    requires delayMs >= 0.0
    ensures DelayFor(delayMs, k) >= 0.0
    ensures delayMs > 0.0 && k > 0 ==> DelayFor(delayMs, k) > 0.0
  {}

  /** The delays before attempts 2 to `k + 1`. */
  function DelaySum(delayMs: real, k: nat): real {
    if k == 0 then 0.0 else DelaySum(delayMs, k - 1) + DelayFor(delayMs, k)
  }

  function Triangle(n: nat): nat { n * (n + 1) / 2 }

  lemma TriangleStep(n: nat)
    requires n > 0
    ensures Triangle(n) == Triangle(n - 1) + n
  {
    assert n * (n + 1) == (n - 1) * n + 2 * n;
  }

  lemma DelayAdds(delayMs: real, a: nat, b: nat)
    ensures DelayFor(delayMs, a + b) == DelayFor(delayMs, a) + DelayFor(delayMs, b)
  {
    assert (a + b) as real == a as real + b as real;
  }

  lemma {:induction false} DelaySumClosed(delayMs: real, k: nat)
    ensures DelaySum(delayMs, k) == DelayFor(delayMs, Triangle(k))
  {
    hide DelayFor, Triangle;
    if k == 0 {
      NoDelay(delayMs);
    } else {
      DelaySumClosed(delayMs, k - 1);
      TriangleStep(k);
      DelayAdds(delayMs, Triangle(k - 1), k);
    }
  }

  lemma NoDelay(delayMs: real)
    ensures DelayFor(delayMs, Triangle(0)) == 0.0
  {
    assert Triangle(0) == 0;
    assert delayMs * (0 as real) == 0.0;
  }

  lemma {:induction false} DelaySumGrows(delayMs: real, k: nat, n: nat)
    requires k <= n && delayMs >= 0.0
    ensures 0.0 <= DelaySum(delayMs, k) <= DelaySum(delayMs, n)
  {
    if n > 0 {
      DelayPositive(delayMs, n);
      if k < n { DelaySumGrows(delayMs, k, n - 1); } else { DelaySumGrows(delayMs, k - 1, n - 1); }
    }
  }

  // ----- cancelling

  predicate Ordered(a: Attempt) {
    && (a.abortedBefore ==> a.abortedOnFailure) && (a.abortedOnFailure ==> a.abortedAtCatch)
    && (a.abortedAtCatch ==> a.abortedAtDelay) && (a.abortedAtDelay ==> a.abortedByEnd)
  }

  /** A signal that was aborted stays aborted. */
  ghost predicate Monotone(env: nat -> Attempt) {
    forall k: nat {:trigger env(k)} :: Ordered(env(k)) && (env(k).abortedByEnd ==> env(k + 1).abortedBefore)
  }

  /** A cancelled attempt is followed by another only when no delay is configured, and that one fails before
      it reaches the network. */
  lemma CancelStops(env: nat -> Attempt, k: nat, delayMs: real)
    requires Monotone(env) && k > 0 && delayMs >= 0.0
    requires env(k).abortedByEnd && Transient(env(k), DelayFor(delayMs, k))
    ensures delayMs == 0.0 && Failure(env(k + 1)) == Aborted && !AsksAgain(env(k + 1)) && !Succeeds(env(k + 1))
  {
    DelayPositive(delayMs, k);
    assert env(k + 1).abortedBefore;
  }

  // ----- the loop

  /** `retryDelay`: the requested delay, and whether the caller interrupted it. */
  method RetryDelay(retryDelayMs: real, attempt: nat, now: Attempt) returns (interrupted: bool, waited: real)
    requires retryDelayMs >= 0.0
    ensures interrupted <==> DelayInterrupted(now, DelayFor(retryDelayMs, attempt))
    ensures 0.0 <= waited <= DelayFor(retryDelayMs, attempt)
    ensures !interrupted ==> waited == DelayFor(retryDelayMs, attempt)
  {
    var delayMs := DelayFor(retryDelayMs, attempt);
    DelayPositive(retryDelayMs, attempt);
    if delayMs <= 0.0 { return false, 0.0; }
    if now.abortedAtDelay { return true, 0.0; }
    return now.abortedByEnd, delayMs;
  }

  /** The body of the loop: `again` when it continues. */
  method RunAttempt(now: Attempt, attempt: nat, more: bool, retryDelayMs: real)
    returns (r: Result<nat, TransportError>, again: bool, waited: real)
    requires retryDelayMs >= 0.0
    ensures again <==> more && Transient(now, DelayFor(retryDelayMs, attempt))
    ensures !again ==> (r.Ok? <==> Succeeds(now))
    ensures !again && r.Ok? ==> r.value == now.reply.status && OkStatus(r.value) && waited == 0.0
    ensures !again && r.Err? ==> r.error != Exhausted
    ensures !again && r.Err? ==> r.error == if more && AsksAgain(now) then Aborted else Failure(now)
    ensures 0.0 <= waited <= if more then DelayFor(retryDelayMs, attempt) else 0.0
    ensures again ==> waited == DelayFor(retryDelayMs, attempt)
  {
    DelayPositive(retryDelayMs, attempt);
    var interrupted;
    r, again, waited := Err(Exhausted), false, 0.0;
    var thrown: TransportError;
    if now.abortedBefore {
      thrown := Aborted;
    } else if now.reply.Response? || now.reply.UnreadableBody? {
      if OkStatus(now.reply.status) { return Ok(now.reply.status), false, 0.0; }
      if more && RetryableStatus(now.reply.status) {
        interrupted, waited := RetryDelay(retryDelayMs, attempt, now);
        if !interrupted { return r, true, waited; }
        thrown := Aborted;
      } else if now.reply.UnreadableBody? {
        thrown := Network;
      } else {
        thrown := Http(now.reply.status, now.reply.retryable);
      }
    } else if now.abortedOnFailure {
      thrown := Aborted;
    } else if now.timedOut {
      thrown := Timeout;
    } else {
      thrown := if now.reply.ThrownByFetch? then FromFetch(now.reply.retryable) else Network;
    }
    if more && Retryable(thrown) && !now.abortedAtCatch {
      interrupted, waited := RetryDelay(retryDelayMs, attempt, now);
      return Err(Aborted), !interrupted, waited;
    }
    r := Err(thrown);
  }

  lemma WaitBounded(delayMs: real, attempt: nat, m: nat, more: bool, before: real, delay: real)
    requires delayMs >= 0.0 && attempt > 0 && before == DelaySum(delayMs, attempt - 1)
    requires 0.0 <= delay <= (if more then DelayFor(delayMs, attempt) else 0.0)
    requires attempt <= m + 1 && (more ==> attempt <= m)
    ensures 0.0 <= before + delay <= DelayFor(delayMs, Triangle(m))
  {
    DelaySumClosed(delayMs, m);
    DelaySumGrows(delayMs, attempt - 1, m);
    if more { DelaySumGrows(delayMs, attempt, m); }
  }

  lemma CancelledRun(env: nat -> Attempt, attempts: nat, delayMs: real, maxAttempts: nat)
    requires Monotone(env) && delayMs >= 0.0
    requires forall k: nat :: 1 <= k < attempts ==> Transient(env(k), DelayFor(delayMs, k))
    ensures forall k: nat :: 1 <= k < attempts && env(k).abortedByEnd ==>
      attempts == k + 1 && Failure(env(attempts)) == Aborted && !AsksAgain(env(attempts)) && !Succeeds(env(attempts))
  {
    hide Monotone, Failure, Succeeds, DelayInterrupted, DelayFor, AsksAgain;
    forall k: nat | 1 <= k < attempts && env(k).abortedByEnd
      ensures attempts == k + 1 && Failure(env(attempts)) == Aborted && !AsksAgain(env(attempts)) && !Succeeds(env(attempts))
    {
      CancelStops(env, k, delayMs);
      assert !Transient(env(k + 1), DelayFor(delayMs, k + 1));
    }
  }

  lemma OnlySafeRetry(name: string, policy: RetryPolicy, maxReadRetries: nat)
    ensures !SafeMethod(name) ==> MaxAttempts(name, policy, maxReadRetries) == 1
    ensures 1 <= MaxAttempts(name, policy, maxReadRetries) <= maxReadRetries + 1
  {}

  /** `requestRaw`, from the first attempt on. `env(k)` is the k-th attempt, counted from one. */
  method RequestRaw(name: string, policy: RetryPolicy, maxReadRetries: nat, retryDelayMs: real, env: nat -> Attempt)
    returns (r: Result<nat, TransportError>, attempts: nat, waited: real)
    requires retryDelayMs >= 0.0
    ensures 1 <= attempts <= MaxAttempts(name, policy, maxReadRetries)
    ensures !SafeMethod(name) ==> attempts == 1
    ensures forall k: nat :: 1 <= k < attempts ==> Transient(env(k), DelayFor(retryDelayMs, k))
    ensures attempts < MaxAttempts(name, policy, maxReadRetries) ==> !Transient(env(attempts), DelayFor(retryDelayMs, attempts))
    ensures r.Ok? <==> Succeeds(env(attempts))
    ensures r.Ok? ==> r.value == env(attempts).reply.status && OkStatus(r.value)
    ensures r.Err? ==> r.error != Exhausted
    ensures r.Err? ==> r.error == if attempts < MaxAttempts(name, policy, maxReadRetries) && AsksAgain(env(attempts)) then Aborted
                                  else Failure(env(attempts))
    ensures r.Ok? ==> waited == DelaySum(retryDelayMs, attempts - 1)
    ensures 0.0 <= waited <= DelayFor(retryDelayMs, Triangle(maxReadRetries))
    ensures Monotone(env) ==>
      forall k: nat :: 1 <= k < attempts && env(k).abortedByEnd ==> attempts == k + 1 && r == Err(Aborted)
  {
    hide Succeeds, AsksAgain, Failure, Transient, Monotone, DelayFor, SafeMethod, MaxAttempts, OkStatus, Triangle;
    OnlySafeRetry(name, policy, maxReadRetries);
    var maxAttempts := MaxAttempts(name, policy, maxReadRetries);
    attempts, waited := 0, 0.0;
    r := Err(Exhausted);
    while attempts < maxAttempts
      invariant attempts < maxAttempts && waited == DelaySum(retryDelayMs, attempts)
      invariant forall k: nat :: 1 <= k <= attempts ==> Transient(env(k), DelayFor(retryDelayMs, k))
      decreases maxAttempts - attempts
    {
      attempts := attempts + 1;
      var again, delay;
      r, again, delay := RunAttempt(env(attempts), attempts, attempts < maxAttempts, retryDelayMs);
      waited := waited + delay;
      WaitBounded(retryDelayMs, attempts, maxReadRetries, attempts < maxAttempts, waited - delay, delay);
      if !again {
        if Monotone(env) { CancelledRun(env, attempts, retryDelayMs, maxAttempts); }
        return;
      }
    }
    assert false;
  }
}
