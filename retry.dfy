/** The retry interceptor: a retry policy (the interface and its default implementation),
    the per-method annotation, and the bounded retry loop around the intercepted call. */
module Retry {
  import opened Common

  /** The classes of throwable the retry code tells apart. */
  datatype ThrowableKind =
    | OptimisticLockingFailure  // OptimisticLockingFailureException or a subclass
    | IllegalArgumentKind       // IllegalArgumentException
    | OtherException            // any other java.lang.Exception
    | NonException              // a Throwable that is not an Exception, such as an Error

  datatype Thrown = Thrown(kind: ThrowableKind, message: string)

  /** Only these reach the catch (Exception e) clause. */
  predicate IsException(t: Thrown)
  {
    t.kind != NonException
  }

  /** What one invocation of the intercepted call did. */
  datatype Invocation<+T> = Returned(value: T) | Raised(thrown: Thrown)

  /** A retry policy: its three methods. */
  datatype RetryPolicy = RetryPolicy(maxAttempts: Int32, backoffMillis: Int32 -> Int64, shouldRetry: Thrown -> bool)

  /** The @Retryable annotation's two attributes that the interceptor reads. */
  datatype Retryable = Retryable(maxAttempts: Int32, backoffMillis: Int64)

  /** @Retryable with no attributes given. */
  const DefaultRetryable: Retryable := Retryable(3, 100)

  function DefaultMaxAttempts(): Int32
  {
    3
  }

  function DefaultBackoffMillis(attempt: Int32): Int64
  {
    100
  }

  function DefaultShouldRetry(e: Thrown): bool
  {
    e.kind == OptimisticLockingFailure
  }

  /** DefaultRetryPolicy: three attempts, 100 ms between them, retrying only optimistic-locking failures. */
  function DefaultRetryPolicy(): (p: RetryPolicy)
    ensures p.maxAttempts == 3
    ensures forall attempt :: p.backoffMillis(attempt) == 100
    ensures forall e :: p.shouldRetry(e) <==> e.kind == OptimisticLockingFailure
  {
    RetryPolicy(DefaultMaxAttempts(), DefaultBackoffMillis, DefaultShouldRetry)
  }

  /** The annotation's maxAttempts when positive, else the policy's. */
  function ResolveMaxAttempts(ann: Retryable, policy: RetryPolicy): (r: Int32)
    ensures ann.maxAttempts > 0 ==> r == ann.maxAttempts
    ensures ann.maxAttempts <= 0 ==> r == policy.maxAttempts
  {
    if ann.maxAttempts > 0 then ann.maxAttempts else policy.maxAttempts
  }

  /** The annotation's backoffMillis when positive, else the policy's backoff for this attempt. */
  function ResolveBackoff(ann: Retryable, policy: RetryPolicy, attempt: Int32): (r: Int64)
    ensures ann.backoffMillis > 0 ==> r == ann.backoffMillis
    ensures ann.backoffMillis <= 0 ==> r == policy.backoffMillis(attempt)
  {
    if ann.backoffMillis > 0 then ann.backoffMillis else policy.backoffMillis(attempt)
  }

  /** The most invocations a call can get: the effective maxAttempts, but never fewer than one. */
  function Limit(maxAttempts: int): nat
  {
    if maxAttempts < 1 then 1 else maxAttempts
  }

  /** What Thread.sleep throws for a negative duration. */
  const NegativeSleep: Thrown := Thrown(IllegalArgumentKind, "timeout value is negative")

  /** A failure the loop catches and retries (when attempts remain). */
  predicate Retriable<T>(policy: RetryPolicy, i: Invocation<T>)
  {
    i.Raised? && IsException(i.thrown) && policy.shouldRetry(i.thrown)
  }

  /** The whole run of an intercepted call: what the interceptor finally returns or throws,
      how many times it invoked the call, and the durations it slept, in order. */
  datatype Run<+T> = Run(outcome: Invocation<T>, invocations: nat, sleeps: seq<int>)

  /** The run from the given attempt on; op(k) is what the k-th invocation does. */
  function RunFrom<T>(policy: RetryPolicy, ann: Retryable, op: nat -> Invocation<T>, attempt: nat): Run<T>
    requires 1 <= attempt <= Limit(ResolveMaxAttempts(ann, policy))
    decreases Limit(ResolveMaxAttempts(ann, policy)) - attempt
  {
    var maxAttempts := ResolveMaxAttempts(ann, policy);
    match op(attempt)
    case Returned(v) => Run(Returned(v), attempt, [])
    case Raised(t) =>
      if !IsException(t) || !policy.shouldRetry(t) || attempt >= maxAttempts then
        Run(Raised(t), attempt, [])
      else
        var backoff := ResolveBackoff(ann, policy, attempt);
        if backoff < 0 then Run(Raised(NegativeSleep), attempt, [])
        else
          var rest := RunFrom(policy, ann, op, attempt + 1);
          Run(rest.outcome, rest.invocations, [backoff as int] + rest.sleeps)
  }

  /** Whether the loop sleeps after this attempt and tries again. */
  predicate Continues<T>(policy: RetryPolicy, ann: Retryable, op: nat -> Invocation<T>, attempt: nat)
  {
    Retriable(policy, op(attempt)) && attempt < ResolveMaxAttempts(ann, policy) &&
    ResolveBackoff(ann, policy, attempt) >= 0
  }

  /** The run of the interceptor around op. */
  function RetryRun<T>(policy: RetryPolicy, ann: Retryable, op: nat -> Invocation<T>): Run<T>
  {
    RunFrom(policy, ann, op, 1)
  }

  /** The interceptor's loop: invoke, and on a caught failure either rethrow it or sleep and
      try again. Thread.sleep is modelled by appending the duration to the sleep log. */
  method Retry<T>(policy: RetryPolicy, ann: Retryable, op: nat -> Invocation<T>)
    returns (outcome: Invocation<T>, invocations: nat, sleeps: seq<int>)
    ensures Run(outcome, invocations, sleeps) == RetryRun(policy, ann, op)
  {
    var maxAttempts := ResolveMaxAttempts(ann, policy);
    var attempt: nat := 0;
    sleeps := [];
    while true
      invariant attempt < Limit(maxAttempts)
      invariant var rest := RunFrom(policy, ann, op, attempt + 1);
        RetryRun(policy, ann, op) == Run(rest.outcome, rest.invocations, sleeps + rest.sleeps)
      decreases Limit(maxAttempts) - attempt
    {
      attempt := attempt + 1;
      var result := op(attempt);
      if result.Returned? {
        return result, attempt, sleeps;
      }
      var e := result.thrown;
      if !IsException(e) {
        return result, attempt, sleeps;
      }
      if !policy.shouldRetry(e) || attempt >= maxAttempts {
        return result, attempt, sleeps;
      }
      var backoff := ResolveBackoff(ann, policy, attempt);
      if backoff < 0 {
        return Raised(NegativeSleep), attempt, sleeps;
      }
      sleeps := sleeps + [backoff as int];
    }
  }

  /** Bounds on every run from an attempt: at least one invocation and at most the limit, one sleep
      fewer than invocations, each sleep the resolved backoff of its attempt, and every invocation
      but the last a retriable failure. */
  lemma {:induction false} RunFromShape<T>(policy: RetryPolicy, ann: Retryable, op: nat -> Invocation<T>, attempt: nat)
    requires 1 <= attempt <= Limit(ResolveMaxAttempts(ann, policy))
    ensures var r := RunFrom(policy, ann, op, attempt);
      && attempt <= r.invocations <= Limit(ResolveMaxAttempts(ann, policy))
      && |r.sleeps| == r.invocations - attempt
      && (forall j :: 0 <= j < |r.sleeps| ==> r.sleeps[j] == ResolveBackoff(ann, policy, attempt + j) as int)
      && (forall j :: attempt <= j < r.invocations ==> Retriable(policy, op(j)))
    decreases Limit(ResolveMaxAttempts(ann, policy)) - attempt
  {
    var r := RunFrom(policy, ann, op, attempt);
    if Continues(policy, ann, op, attempt) {
      RunFromShape(policy, ann, op, attempt + 1);
      var rest := RunFrom(policy, ann, op, attempt + 1);
      assert r.sleeps == [ResolveBackoff(ann, policy, attempt) as int] + rest.sleeps;
      forall j | 0 <= j < |r.sleeps|
        ensures r.sleeps[j] == ResolveBackoff(ann, policy, attempt + j) as int
      {
        if j > 0 {
          assert r.sleeps[j] == rest.sleeps[j - 1];
        }
      }
    }
  }

  /** The interceptor invokes the call at least once and never more than max(1, maxAttempts)
      times, sleeps exactly once between consecutive invocations for the resolved backoff of
      the attempt that just failed, and retries only retriable exceptions. */
  lemma RetryBounds<T>(policy: RetryPolicy, ann: Retryable, op: nat -> Invocation<T>)
    ensures var r := RetryRun(policy, ann, op);
      && 1 <= r.invocations <= Limit(ResolveMaxAttempts(ann, policy))
      && |r.sleeps| == r.invocations - 1
      && (forall j :: 0 <= j < |r.sleeps| ==> r.sleeps[j] == ResolveBackoff(ann, policy, j + 1) as int)
      && (forall j :: 1 <= j < r.invocations ==> Retriable(policy, op(j)))
  {
    RunFromShape(policy, ann, op, 1);
  }

  /** What the interceptor finally does is decided by the last invocation alone: its value is
      returned unchanged; its throwable is rethrown itself, not wrapped, unless it was a retriable
      exception with attempts left and sleeping for a negative backoff threw instead. */
  lemma {:induction false} RunFromOutcome<T>(policy: RetryPolicy, ann: Retryable, op: nat -> Invocation<T>, attempt: nat)
    requires 1 <= attempt <= Limit(ResolveMaxAttempts(ann, policy))
    ensures var r := RunFrom(policy, ann, op, attempt);
      var last := op(r.invocations);
      r.outcome == (if !Retriable(policy, last) || r.invocations >= ResolveMaxAttempts(ann, policy) then last
                    else Raised(NegativeSleep))
    ensures var r := RunFrom(policy, ann, op, attempt);
      r.outcome == Raised(NegativeSleep) && op(r.invocations) != r.outcome ==>
        ResolveBackoff(ann, policy, r.invocations) < 0
    decreases Limit(ResolveMaxAttempts(ann, policy)) - attempt
  {
    if Continues(policy, ann, op, attempt) {
      RunFromOutcome(policy, ann, op, attempt + 1);
    }
  }

  lemma RetryOutcome<T>(policy: RetryPolicy, ann: Retryable, op: nat -> Invocation<T>)
    ensures var r := RetryRun(policy, ann, op);
      var last := op(r.invocations);
      r.outcome == (if !Retriable(policy, last) || r.invocations >= ResolveMaxAttempts(ann, policy) then last
                    else Raised(NegativeSleep))
  {
    RunFromOutcome(policy, ann, op, 1);
  }

  /** If every attempt before k fails retriably (with a backoff Thread.sleep accepts) and attempt k
      returns, the interceptor returns that value after exactly k invocations and k - 1 sleeps. */
  lemma {:induction false} SucceedsOnAttempt<T>(policy: RetryPolicy, ann: Retryable, op: nat -> Invocation<T>, k: nat)
    requires 1 <= k <= Limit(ResolveMaxAttempts(ann, policy))
    requires op(k).Returned?
    requires forall j :: 1 <= j < k ==> Retriable(policy, op(j)) && ResolveBackoff(ann, policy, j) >= 0
    ensures var r := RetryRun(policy, ann, op);
      r.outcome == op(k) && r.invocations == k && |r.sleeps| == k - 1
  {
    RetryBounds(policy, ann, op);
    var r := RetryRun(policy, ann, op);
    RetryOutcome(policy, ann, op);
    if r.invocations < k {
      assert Retriable(policy, op(r.invocations));
      assert r.invocations < ResolveMaxAttempts(ann, policy);
      assert ResolveBackoff(ann, policy, r.invocations) >= 0;
      RunPassesNonNegativeSleep(policy, ann, op, 1);
      assert false;
    }
  }

  /** A run never stops on a retriable failure with attempts left and a non-negative backoff. */
  lemma {:induction false} RunPassesNonNegativeSleep<T>(policy: RetryPolicy, ann: Retryable, op: nat -> Invocation<T>, attempt: nat)
    requires 1 <= attempt <= Limit(ResolveMaxAttempts(ann, policy))
    ensures var r := RunFrom(policy, ann, op, attempt);
      Retriable(policy, op(r.invocations)) && r.invocations < ResolveMaxAttempts(ann, policy) ==>
        ResolveBackoff(ann, policy, r.invocations) < 0
    decreases Limit(ResolveMaxAttempts(ann, policy)) - attempt
  {
    if Continues(policy, ann, op, attempt) {
      RunPassesNonNegativeSleep(policy, ann, op, attempt + 1);
    }
  }

  /** A failure the policy does not retry, or one that is not an Exception at all, is thrown
      after that single invocation, with no sleep. */
  lemma NotRetriedOnFirstAttempt<T>(policy: RetryPolicy, ann: Retryable, op: nat -> Invocation<T>)
    requires op(1).Raised? && !Retriable(policy, op(1))
    ensures RetryRun(policy, ann, op) == Run(op(1), 1, [])
  {
  }

  /** If every attempt fails retriably and sleeping is accepted, the call is invoked exactly
      max(1, maxAttempts) times and the final attempt's own throwable is rethrown. */
  lemma ExhaustsAttempts<T>(policy: RetryPolicy, ann: Retryable, op: nat -> Invocation<T>)
    requires forall j :: 1 <= j <= Limit(ResolveMaxAttempts(ann, policy)) ==>
      Retriable(policy, op(j)) && ResolveBackoff(ann, policy, j) >= 0
    ensures var r := RetryRun(policy, ann, op);
      r.invocations == Limit(ResolveMaxAttempts(ann, policy)) && r.outcome == op(r.invocations)
  {
    RetryBounds(policy, ann, op);
    RetryOutcome(policy, ann, op);
    RunPassesNonNegativeSleep(policy, ann, op, 1);
  }

  /** With the default policy and no positive annotation override, a call that always fails
      with optimistic-locking conflicts runs three times, sleeps 100 ms twice, and its third
      failure is rethrown. */
  lemma DefaultPolicyGivesThreeAttempts<T>(ann: Retryable, op: nat -> Invocation<T>)
    requires ann.maxAttempts <= 0 && ann.backoffMillis <= 0
    requires forall j :: op(j).Raised? && op(j).thrown.kind == OptimisticLockingFailure
    ensures RetryRun(DefaultRetryPolicy(), ann, op) == Run(op(3), 3, [100, 100])
  {
    var p := DefaultRetryPolicy();
    ExhaustsAttempts(p, ann, op);
    RetryBounds(p, ann, op);
  }

  /** The scenario of a three-attempt policy: two retriable failures, then success on the third
      invocation, returns that value after exactly three invocations. */
  lemma ThirdAttemptSucceeds<T>(policy: RetryPolicy, op: nat -> Invocation<T>, v: T)
    requires policy.maxAttempts == 3
    requires Retriable(policy, op(1)) && Retriable(policy, op(2)) && op(3) == Returned(v)
    ensures var r := RetryRun(policy, DefaultRetryable.(maxAttempts := 0), op);
      r.outcome == Returned(v) && r.invocations == 3 && |r.sleeps| == 2
  {
    SucceedsOnAttempt(policy, DefaultRetryable.(maxAttempts := 0), op, 3);
  }
}
