/** The retry discipline around each request to the text-generation service:
    at most five tries, stopping at the first try that returns a response or
    whose exception carries a response with a status below 500. */
module Retry {
  import opened Wrappers

  /** What one try of the request did: it returned a response (whatever its
      status code), or it raised a request exception, which may carry the
      response that caused it. */
  datatype Attempt = Returned(status: int) | Raised(responseStatus: Option<int>)

  const MaxTries: nat := 5

  /** The give-up test: an exception whose response has a status below 500. */
  predicate GiveUp(a: Attempt)
    requires a.Raised?
  {
    a.responseStatus.Some? && a.responseStatus.value < 500
  }

  /** A try after which no further try is made. */
  predicate Final(a: Attempt) {
    a.Returned? || GiveUp(a)
  }

  /** Number of tries made when the first `i - 1` tries have each raised an
      exception that is retried; try number `j` (counting from 0) behaves as
      `attempt(j)`. */
  function TriesFrom(attempt: nat -> Attempt, i: nat): (n: nat)
    requires 1 <= i <= MaxTries
    ensures i <= n <= MaxTries
    ensures n < MaxTries ==> Final(attempt(n - 1))
    ensures forall j :: i - 1 <= j < n - 1 ==> !Final(attempt(j))
    decreases MaxTries - i
  {
    if i == MaxTries || Final(attempt(i - 1)) then i
    else TriesFrom(attempt, i + 1)
  }

  /** The outcome of the decorated call: how many tries were made, and the
      last one, which is the response returned or the exception re-raised. */
  function Send(attempt: nat -> Attempt): (r: (nat, Attempt))
    ensures 1 <= r.0 <= MaxTries
    ensures r.1 == attempt(r.0 - 1)
    ensures forall j :: 0 <= j < r.0 - 1 ==> !Final(attempt(j))
    ensures r.0 < MaxTries ==> Final(r.1)
  {
    var n := TriesFrom(attempt, 1);
    (n, attempt(n - 1))
  }

  /** A response is never retried, whatever its status code: a server that
      always answers 500 is asked once. */
  lemma ResponseNotRetried(attempt: nat -> Attempt)
    requires attempt(0).Returned?
    ensures Send(attempt).0 == 1
  {
  }

  /** Exceptions without a response (connection errors, timeouts) exhaust the
      five tries, and the last exception is re-raised. */
  lemma TransientExhausts(attempt: nat -> Attempt)
    requires forall j :: attempt(j) == Raised(None)
    ensures Send(attempt) == (MaxTries, Raised(None))
  {
  }

  /** An exception carrying a client-error response stops at once. */
  lemma ClientErrorStops(attempt: nat -> Attempt, status: int)
    requires status < 500
    requires attempt(0) == Raised(Some(status))
    ensures Send(attempt) == (1, Raised(Some(status)))
  {
  }
}
