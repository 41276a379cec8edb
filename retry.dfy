/** The `injectMessage` retry loop shared, line for line, by the Perplexity
    and Gemini content scripts: up to ten attempts 500 ms apart, retrying
    only when the input field or the send button could not be found. */
module Retry {
  import opened Text

  const MaxRetries := 10
  const RetryInterval := 500

  /** What one call of `attemptInjectMessage` does: it sends the message,
      or throws an error with the given message. */
  datatype Attempt = Sent | Failed(message: string)

  /** How `injectMessage` settles, and on which attempt (counted from 1). */
  datatype Outcome = Delivered(attempt: nat) | Thrown(attempt: nat, message: string)

  /** The two errors that mean the page is not ready yet. */
  predicate Retryable(message: string) {
    Contains(message, "Could not find input field") || Contains(message, "Could not find send button")
  }

  predicate RetryableFailure(a: Attempt) {
    a.Failed? && Retryable(a.message)
  }

  /** `o` is where the loop may settle: every attempt before it failed
      retryably; it sent, or it failed for a reason that is not retried,
      or it was the tenth. */
  predicate SettledAs(attempts: seq<Attempt>, o: Outcome)
    requires |attempts| >= MaxRetries
  {
    && 1 <= o.attempt <= MaxRetries
    && (forall j :: 0 <= j < o.attempt - 1 ==> RetryableFailure(attempts[j]))
    && (o.Delivered? ==> attempts[o.attempt - 1] == Sent)
    && (o.Thrown? ==> attempts[o.attempt - 1] == Failed(o.message)
                      && (!Retryable(o.message) || o.attempt == MaxRetries))
  }

  /** `attempts[k]` is what attempt `k + 1` would do. The call settles on
      the first attempt that sends or fails for a reason other than a
      missing element, or else throws the tenth attempt's error; it slept
      500 ms before each attempt after the first. */
  method InjectMessage(attempts: seq<Attempt>) returns (o: Outcome, delay: nat)
    requires |attempts| >= MaxRetries
    ensures SettledAs(attempts, o)
    ensures delay == (o.attempt - 1) * RetryInterval
  {
    delay := 0;
    for attempt := 1 to MaxRetries + 1
      invariant attempt <= MaxRetries
      invariant forall j :: 0 <= j < attempt - 1 ==> RetryableFailure(attempts[j])
      invariant delay == (attempt - 1) * RetryInterval
    {
      var a := attempts[attempt - 1];
      if a.Sent? {
        return Delivered(attempt), delay;
      }
      if !Retryable(a.message) {
        return Thrown(attempt, a.message), delay;
      }
      if attempt < MaxRetries {
        delay := delay + RetryInterval;
      } else {
        return Thrown(attempt, a.message), delay;
      }
    }
  }

  /** Reference definition of where the loop settles: the first attempt
      that is not a retryable failure, capped at the tenth. */
  function SettlesAt(attempts: seq<Attempt>, from: nat): (k: nat)
    requires from < MaxRetries <= |attempts|
    ensures from <= k < MaxRetries
    decreases MaxRetries - from
  {
    if !RetryableFailure(attempts[from]) || from == MaxRetries - 1 then from
    else SettlesAt(attempts, from + 1)
  }

  /** The reference definition agrees with the loop's contract: it finds
      the first attempt that is not a retryable failure when there is one
      among the ten, and the tenth otherwise. */
  lemma {:induction false} SettlesAtIsFirst(attempts: seq<Attempt>, from: nat)
    requires from < MaxRetries <= |attempts|
    ensures var k := SettlesAt(attempts, from);
            && (forall j :: from <= j < k ==> RetryableFailure(attempts[j]))
            && (!RetryableFailure(attempts[k]) || k == MaxRetries - 1)
    decreases MaxRetries - from
  {
    if !RetryableFailure(attempts[from]) || from == MaxRetries - 1 {
    } else {
      SettlesAtIsFirst(attempts, from + 1);
    }
  }

  /** The outcome is a function of the attempts: every outcome meeting
      `InjectMessage`'s contract settles on the attempt `SettlesAt` names. */
  lemma OutcomeDetermined(attempts: seq<Attempt>, o: Outcome)
    requires |attempts| >= MaxRetries
    requires SettledAs(attempts, o)
    ensures o.attempt == SettlesAt(attempts, 0) + 1
  {
    SettlesAtIsFirst(attempts, 0);
  }

  /** A page that never shows its input field is given exactly ten tries
      and 4.5 seconds before the error reaches the caller. */
  lemma MissingInputGivesUpAfterTenTries(attempts: seq<Attempt>, o: Outcome, delay: nat)
    requires |attempts| >= MaxRetries
    requires forall j :: 0 <= j < MaxRetries ==> attempts[j] == Failed("Could not find input field")
    requires SettledAs(attempts, o)
    requires delay == (o.attempt - 1) * RetryInterval
    ensures o == Thrown(MaxRetries, "Could not find input field") && delay == 4500
  {
    assert OccursAt("Could not find input field", "Could not find input field", 0);
    assert Retryable("Could not find input field");
  }
}
