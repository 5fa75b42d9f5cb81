/**
 * The bounded retry loop that main.py (index pages) and utils.py (PDF
 * downloads) each write out by hand: up to `budget` requests, stopping at
 * the first response, retrying after a connection error, and giving up at
 * once on any other exception.
 */
module BoundedRetry {
  import opened Web

  /** What a retry loop ends with: the response it got, if any, and how
      many requests it made. */
  datatype Attempts<T> = Attempts(result: Option<T>, count: nat)

  /** The loop from request number `i` on, `answer(n)` being the outcome of
      request number `n`. */
  function RetryFrom<T>(answer: nat -> Fetch<T>, i: nat, budget: nat): Attempts<T>
    requires i <= budget
    decreases budget - i
  {
    if i == budget then Attempts(None, i)
    else match answer(i)
      case Ok(v) => Attempts(Some(v), i + 1)
      case ConnErr => RetryFrom(answer, i + 1, budget)
      case OtherErr => Attempts(None, i + 1)
  }

  /** The whole loop, from the first request. */
  function Retry<T>(answer: nat -> Fetch<T>, budget: nat): Attempts<T> {
    RetryFrom(answer, 0, budget)
  }

  /**
   * What the loop does, request by request: it never makes more than
   * `budget` requests; every request but the last failed with a connection
   * error; it stops before the budget only after a request that did not fail
   * with a connection error; and it returns a response exactly when the last
   * request produced one, and then that response.
   */
  lemma {:induction false} RetryFromShape<T>(answer: nat -> Fetch<T>, i: nat, budget: nat)
    requires i <= budget
    ensures var r := RetryFrom(answer, i, budget);
      && i <= r.count <= budget
      && (r.count == i ==> i == budget && r.result == None)
      && (forall j :: i <= j < r.count - 1 ==> answer(j) == ConnErr)
      && (i < r.count < budget ==> answer(r.count - 1) != ConnErr)
      && (i < r.count ==> r.result == (if answer(r.count - 1).Ok? then Some(answer(r.count - 1).value) else None))
    decreases budget - i
  {
    if i < budget && answer(i) == ConnErr {
      RetryFromShape(answer, i + 1, budget);
    }
  }

  /** The first request that gets a response, after connection errors only,
      ends the loop with that response. */
  lemma {:induction false} RetrySucceedsAtFirstResponse<T>(answer: nat -> Fetch<T>, i: nat, k: nat, budget: nat)
    requires i <= k < budget
    requires forall j :: i <= j < k ==> answer(j) == ConnErr
    requires answer(k).Ok?
    ensures RetryFrom(answer, i, budget) == Attempts(Some(answer(k).value), k + 1)
    decreases k - i
  {
    if i < k {
      RetrySucceedsAtFirstResponse(answer, i + 1, k, budget);
    }
  }

  /** Any other exception after connection errors only ends the loop at once
      with no response, leaving the rest of the budget unused. */
  lemma {:induction false} RetryAbortsOnOtherError<T>(answer: nat -> Fetch<T>, i: nat, k: nat, budget: nat)
    requires i <= k < budget
    requires forall j :: i <= j < k ==> answer(j) == ConnErr
    requires answer(k) == OtherErr
    ensures RetryFrom(answer, i, budget) == Attempts(None, k + 1)
    decreases k - i
  {
    if i < k {
      RetryAbortsOnOtherError(answer, i + 1, k, budget);
    }
  }

  /** When every request fails with a connection error the loop spends the
      whole budget and returns no response. */
  lemma {:induction false} RetryExhausted<T>(answer: nat -> Fetch<T>, i: nat, budget: nat)
    requires i <= budget
    requires forall j :: i <= j < budget ==> answer(j) == ConnErr
    ensures RetryFrom(answer, i, budget) == Attempts(None, budget)
    decreases budget - i
  {
    if i < budget {
      RetryExhausted(answer, i + 1, budget);
    }
  }
}
