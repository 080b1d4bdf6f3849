/**
  The retrying GET (`safe_get`).

  One call of the HTTP client is abstracted to a `Reply`, and the transport
  to the function from the 0-based attempt index to the reply that attempt
  gets. Sleeping `backoff ** i` seconds is recorded as the index `i`.
*/
module Retry {
  import opened Wrappers

  /** Too Many Requests, section 4 of RFC 6585. */
  const TOO_MANY_REQUESTS := 429
  /** The default of `retries`, the only value the collector passes. */
  const DEFAULT_RETRIES := 4

  /**
    What one `requests.get` gives: an exception raised before a response
    exists (connection error, timeout), or a response with its status code
    and its body decoded as JSON, `None` when `r.json()` would raise.
  */
  datatype Reply<B, E> = Raised(cause: E) | Response(status: int, body: Option<B>)

  /** The exception an attempt catches and stores in `last_err`. */
  datatype Failure<E> = ClientError(cause: E) | HttpError(status: int) | Undecodable

  /** How one attempt ends. */
  datatype Attempt<B, E> = RateLimited | Failed(failure: Failure<E>) | Succeeded(body: B)

  /** `raise_for_status` raises for the client and server error codes. */
  predicate IsErrorStatus(status: int)
  {
    400 <= status < 600
  }

  /** The body of one iteration: the 429 test, then `raise_for_status`, then `r.json()`. */
  function Classify<B, E>(reply: Reply<B, E>): Attempt<B, E>
  {
    match reply
    case Raised(e) => Failed(ClientError(e))
    case Response(status, body) =>
      if status == TOO_MANY_REQUESTS then RateLimited
      else if IsErrorStatus(status) then Failed(HttpError(status))
      else if body.None? then Failed(Undecodable)
      else Succeeded(body.value)
  }

  predicate SucceedsAt<B, E>(replies: nat -> Reply<B, E>, i: nat)
  {
    Classify(replies(i)).Succeeded?
  }

  /** RuntimeError(f"Request failed after {retries} tries: {last_err}"). */
  datatype Exhausted<E> = Exhausted(tries: int, lastErr: Option<Failure<E>>)

  /** What a call does: its result, how many attempts it made, and after which attempts it slept. */
  datatype Trace<B, E> = Trace(result: Result<B, Exhausted<E>>, attempts: nat, sleeps: seq<nat>)

  /**
    `last_err` after attempts `lo` up to `hi` (exclusive), starting from
    `lastErr`: each caught exception replaces it, a 429 leaves it alone.
  */
  function LastFailure<B, E>(replies: nat -> Reply<B, E>, lo: nat, hi: nat, lastErr: Option<Failure<E>>): Option<Failure<E>>
    decreases hi - lo
  {
    if hi <= lo then lastErr
    else
      var next := match Classify(replies(lo)) case Failed(f) => Some(f) case _ => lastErr;
      LastFailure(replies, lo + 1, hi, next)
  }

  /** The attempts from index `i` on, with `last_err` equal to `lastErr` so far. */
  function Run<B, E>(replies: nat -> Reply<B, E>, retries: int, i: nat, lastErr: Option<Failure<E>>): Trace<B, E>
    decreases retries - i
  {
    if retries <= i then Trace(Err(Exhausted(retries, lastErr)), i, [])
    else
      match Classify(replies(i))
      case Succeeded(body) => Trace(Ok(body), i + 1, [])
      case RateLimited => SleptFirst(i, Run(replies, retries, i + 1, lastErr))
      case Failed(f) => SleptFirst(i, Run(replies, retries, i + 1, Some(f)))
  }

  function SleptFirst<B, E>(i: nat, t: Trace<B, E>): Trace<B, E>
  {
    SleptBefore([i], t)
  }

  function SleptBefore<B, E>(sleeps: seq<nat>, t: Trace<B, E>): Trace<B, E>
  {
    t.(sleeps := sleeps + t.sleeps)
  }

  /** The number of attempts a call may make: `len(range(retries))`. */
  function Budget(retries: int): nat
  {
    if retries < 0 then 0 else retries
  }

  /** What Run promises from attempt `i` on; `Execute` is the case `i == 0`. */
  lemma {:induction false} RunShape<B, E>(replies: nat -> Reply<B, E>, retries: int, i: nat, lastErr: Option<Failure<E>>)
    ensures var t := Run(replies, retries, i, lastErr);
      var last := if retries <= i then i else retries;
      && i <= t.attempts <= last
      && (t.result.Ok? ==>
            && i < t.attempts
            && SucceedsAt(replies, t.attempts - 1)
            && t.result.value == Classify(replies(t.attempts - 1)).body
            && forall j | i <= j < t.attempts - 1 :: !SucceedsAt(replies, j))
      && (t.result.Err? ==>
            && t.attempts == last
            && (forall j | i <= j < last :: !SucceedsAt(replies, j))
            && t.result.error == Exhausted(retries, LastFailure(replies, i, last, lastErr)))
      && |t.sleeps| == (if t.result.Ok? then t.attempts - 1 else t.attempts) - i
      && forall k | 0 <= k < |t.sleeps| :: t.sleeps[k] == i + k
    decreases retries - i
  {
    if retries <= i {
    } else {
      match Classify(replies(i))
      case Succeeded(body) =>
      case RateLimited =>
        RunShape(replies, retries, i + 1, lastErr);
      case Failed(f) =>
        RunShape(replies, retries, i + 1, Some(f));
    }
  }

  /** `safe_get` as a function of the replies; `ExecuteContract` states what it does. */
  function Execute<B, E>(replies: nat -> Reply<B, E>, retries: int): Trace<B, E>
  {
    Run(replies, retries, 0, None)
  }

  /**
    `safe_get` makes at most `retries` attempts; it returns the body of the
    first successful attempt and stops there; every failed attempt, a 429 as
    much as an exception and the last one included, is followed by one
    sleep, and the sleeps are the failed attempts' indices 0, 1, 2, ... in
    order; when every attempt fails, the error names `retries` and the
    `last_err` of the loop.
  */
  lemma ExecuteContract<B, E>(replies: nat -> Reply<B, E>, retries: int)
    ensures var t := Execute(replies, retries);
      && t.attempts <= Budget(retries)
      && (t.result.Ok? ==>
            && 0 < t.attempts
            && SucceedsAt(replies, t.attempts - 1)
            && t.result.value == Classify(replies(t.attempts - 1)).body
            && forall j | 0 <= j < t.attempts - 1 :: !SucceedsAt(replies, j))
      && (t.result.Err? ==>
            && t.attempts == Budget(retries)
            && (forall j | 0 <= j < t.attempts :: !SucceedsAt(replies, j))
            && t.result.error == Exhausted(retries, LastFailure(replies, 0, t.attempts, None)))
      && |t.sleeps| == (if t.result.Ok? then t.attempts - 1 else t.attempts)
      && forall k | 0 <= k < |t.sleeps| :: t.sleeps[k] == k
  {
    RunShape(replies, retries, 0, None);
  }

  /** The loop of `safe_get`, proved to make exactly the attempts and sleeps `Execute` describes. */
  method SafeGet<B, E>(replies: nat -> Reply<B, E>, retries: int) returns (r: Result<B, Exhausted<E>>, attempts: nat, sleeps: seq<nat>)
    ensures Trace(r, attempts, sleeps) == Execute(replies, retries)
  {
    var lastErr: Option<Failure<E>> := None;
    var i: nat := 0;
    sleeps := [];
    while i < retries
      invariant SleptBefore(sleeps, Run(replies, retries, i, lastErr)) == Run(replies, retries, 0, None)
      decreases retries - i
    {
      match Classify(replies(i)) {
        case RateLimited =>
          assert Run(replies, retries, i, lastErr) == SleptFirst(i, Run(replies, retries, i + 1, lastErr));
          SleepAppended(sleeps, i, Run(replies, retries, i + 1, lastErr));
          sleeps := sleeps + [i];
        case Failed(f) =>
          assert Run(replies, retries, i, lastErr) == SleptFirst(i, Run(replies, retries, i + 1, Some(f)));
          SleepAppended(sleeps, i, Run(replies, retries, i + 1, Some(f)));
          lastErr := Some(f);
          sleeps := sleeps + [i];
        case Succeeded(body) =>
          return Ok(body), i + 1, sleeps;
      }
      i := i + 1;
    }
    assert Run(replies, retries, i, lastErr) == Trace(Err(Exhausted(retries, lastErr)), i, []);
    return Err(Exhausted(retries, lastErr)), i, sleeps;
  }

  /** Recording one more sleep after `sleeps` is sleeping first in the rest of the run. */
  lemma SleepAppended<B, E>(sleeps: seq<nat>, i: nat, t: Trace<B, E>)
    ensures SleptBefore(sleeps + [i], t) == SleptBefore(sleeps, SleptFirst(i, t))
  {
    assert (sleeps + [i]) + t.sleeps == sleeps + ([i] + t.sleeps);
  }

  predicate FailsAt<B, E>(replies: nat -> Reply<B, E>, i: nat)
  {
    Classify(replies(i)).Failed?
  }

  /**
    `last_err` is the exception of the latest attempt that raised one, and
    keeps its earlier value when no attempt in the range raised.
  */
  lemma {:induction false} LastFailureIsLatest<B, E>(replies: nat -> Reply<B, E>, lo: nat, hi: nat, lastErr: Option<Failure<E>>)
    requires lo <= hi
    ensures (forall j | lo <= j < hi :: !FailsAt(replies, j)) ==> LastFailure(replies, lo, hi, lastErr) == lastErr
    ensures (exists j | lo <= j < hi :: FailsAt(replies, j)) ==>
      exists j | lo <= j < hi ::
        && FailsAt(replies, j)
        && LastFailure(replies, lo, hi, lastErr) == Some(Classify(replies(j)).failure)
        && forall k | j < k < hi :: !FailsAt(replies, k)
    decreases hi - lo
  {
    if lo < hi {
      var next := match Classify(replies(lo)) case Failed(f) => Some(f) case _ => lastErr;
      LastFailureIsLatest(replies, lo + 1, hi, next);
      if exists j | lo < j < hi :: FailsAt(replies, j) {
        var j :| lo + 1 <= j < hi && FailsAt(replies, j)
          && LastFailure(replies, lo + 1, hi, next) == Some(Classify(replies(j)).failure)
          && forall k | j < k < hi :: !FailsAt(replies, k);
      } else if FailsAt(replies, lo) {
        assert LastFailure(replies, lo, hi, lastErr) == Some(Classify(replies(lo)).failure);
      }
    }
  }

  /**
    When every attempt fails the error carries the exception of the latest
    attempt that raised one, and `None` when every attempt was a 429.
  */
  lemma ExhaustedError<B, E>(replies: nat -> Reply<B, E>, retries: int)
    requires forall j | 0 <= j < retries :: !SucceedsAt(replies, j)
    ensures Execute(replies, retries).result.Err?
    ensures Execute(replies, retries).attempts == Budget(retries)
    ensures (forall j | 0 <= j < retries :: Classify(replies(j)).RateLimited?) ==>
      Execute(replies, retries).result == Err(Exhausted(retries, None))
    ensures (exists j | 0 <= j < retries :: FailsAt(replies, j)) ==>
      exists j | 0 <= j < retries ::
        && FailsAt(replies, j)
        && Execute(replies, retries).result == Err(Exhausted(retries, Some(Classify(replies(j)).failure)))
        && forall k | j < k < retries :: !FailsAt(replies, k)
  {
    ExecuteContract(replies, retries);
    LastFailureIsLatest(replies, 0, Budget(retries), None);
  }

  /**
    A transport that fails `k` times and then succeeds, with `k` below
    `retries`: the call returns that success after `k + 1` attempts and
    sleeps once after each of the first `k`, for attempt indices 0 to k - 1.
  */
  lemma FailsThenSucceeds<B, E>(replies: nat -> Reply<B, E>, retries: int, k: nat)
    requires k < retries
    requires forall j | 0 <= j < k :: !SucceedsAt(replies, j)
    requires SucceedsAt(replies, k)
    ensures Execute(replies, retries) == Trace(Ok(Classify(replies(k)).body), k + 1, seq(k, j => j))
  {
    var t := Execute(replies, retries);
    ExecuteContract(replies, retries);
    assert t.result.Err? ==> !SucceedsAt(replies, k);
    assert t.attempts == k + 1;
  }
}
