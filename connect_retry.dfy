/**
 * `onModuleInit`: open the database connection, retrying with exponential
 * backoff.  The outcome of each call to `$connect` is an oracle indexed by the
 * attempt number, and the waits are returned instead of slept.
 */
module ConnectRetry {

  const MaxRetries: nat := 5

  /** What the `attempt`-th call to `$connect` did. */
  datatype ConnectAttempt = Connected | ConnectFailed(message: string)

  /** Startup either completes or rethrows the last connection error. */
  datatype InitOutcome = Ready | Fatal(error: string)

  function Pow2(n: nat): (p: nat)
    ensures p >= 1
  {
    if n == 0 then 1 else 2 * Pow2(n - 1)
  }

  /** `Math.pow(2, attempt) * 1000`: the wait after failed attempt `attempt`. */
  function BackoffMillis(attempt: nat): nat {
    Pow2(attempt) * 1000
  }

  /** The waits after failed attempts 1 .. n, in order. */
  function BackoffSchedule(n: nat): (s: seq<nat>)
    ensures |s| == n
    ensures forall i | 0 <= i < n :: s[i] == BackoffMillis(i + 1)
  {
    if n == 0 then [] else BackoffSchedule(n - 1) + [BackoffMillis(n)]
  }

  function Sum(s: seq<nat>): nat {
    if s == [] then 0 else Sum(s[..|s| - 1]) + s[|s| - 1]
  }

  /** The waits after n failures add up to (2^(n+1) - 2) seconds. */
  lemma {:induction false} TotalBackoff(n: nat)
    ensures Sum(BackoffSchedule(n)) == (Pow2(n + 1) - 2) * 1000
  {
    if n > 0 {
      var s := BackoffSchedule(n);
      assert s[..n - 1] == BackoffSchedule(n - 1);
      TotalBackoff(n - 1);
    }
  }

  /** The waits before attempt k (k <= 5) add up to 2^k - 2 seconds, at most 30 s. */
  lemma WaitsBounded(k: nat)
    requires 1 <= k <= MaxRetries
    ensures Sum(BackoffSchedule(k - 1)) == (Pow2(k) - 2) * 1000 <= 30000
  {
    TotalBackoff(k - 1);
    assert Pow2(1) == 2 && Pow2(2) == 4 && Pow2(3) == 8 && Pow2(4) == 16 && Pow2(5) == 32;
  }

  /** Four failures wait 2 s, 4 s, 8 s and 16 s: 30 s in all. */
  lemma FullSchedule()
    ensures BackoffSchedule(MaxRetries - 1) == [2000, 4000, 8000, 16000]
    ensures Sum(BackoffSchedule(MaxRetries - 1)) == 30000
  {
    TotalBackoff(MaxRetries - 1);
  }

  /**
   * Attempts 1 .. 5; the first success returns, a failure before the fifth
   * waits 2^attempt seconds, and the fifth failure is rethrown.
   */
  method OnModuleInit(connect: nat -> ConnectAttempt) returns (outcome: InitOutcome, attempts: nat, waits: seq<nat>)
    ensures 1 <= attempts <= MaxRetries
    ensures forall k | 1 <= k < attempts :: connect(k).ConnectFailed?
    ensures outcome.Ready? <==> connect(attempts).Connected?
    ensures outcome.Fatal? ==> attempts == MaxRetries && outcome.error == connect(MaxRetries).message
    ensures waits == BackoffSchedule(attempts - 1)
    ensures Sum(waits) == (Pow2(attempts) - 2) * 1000 <= 30000
  {
    var attempt: nat := 1;
    waits := [];
    // The source's guard `attempt <= maxRetries` never fails: attempt 5 returns or throws.
    while true
      invariant 1 <= attempt <= MaxRetries
      invariant forall k | 1 <= k < attempt :: connect(k).ConnectFailed?
      invariant waits == BackoffSchedule(attempt - 1)
      decreases MaxRetries - attempt
    {
      var result := connect(attempt);
      if result.Connected? {
        outcome, attempts := Ready, attempt;
        WaitsBounded(attempts);
        return;
      }
      if attempt == MaxRetries {
        outcome, attempts := Fatal(result.message), attempt;
        WaitsBounded(attempts);
        return;
      }
      assert BackoffSchedule(attempt) == waits + [BackoffMillis(attempt)];
      waits := waits + [BackoffMillis(attempt)];
      attempt := attempt + 1;
    }
  }
}
