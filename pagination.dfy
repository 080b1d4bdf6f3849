/**
  The cursor-paginated collector, the `while True` loop of `fetch_games`.

  The upstream is the sequence of transports the successive requests meet:
  request `k` is sent with the cursor the loop holds and is answered through
  `server[k]`, retried by `safe_get` with its default budget. A server that
  never signals its last page would keep the source looping forever, so the
  collector requires one of the given responses to end the loop.
*/
module Pagination {
  import opened Wrappers
  import opened Retry

  /** The cursor of the first request. */
  const FIRST_CURSOR := 0

  /** The `data` member of a payload: missing, JSON null, or a list of rows. */
  datatype Data<R> = Absent | JsonNull | Rows(rows: seq<R>)

  /** The `meta` object; a missing or null `next_cursor` is `None`. */
  datatype Meta = Meta(nextCursor: Option<int>)

  /** A decoded payload; a missing, null or empty `meta` is `None`. */
  datatype Page<R> = Page(data: Data<R>, meta: Option<Meta>)

  /** Why the collection aborts: `safe_get` gave up, or `rows.extend(None)` raised TypeError. */
  datatype CollectError<E> = RequestFailed(exhausted: Exhausted<E>) | NullData

  function NextCursor<R>(p: Page<R>): Option<int>
  {
    if p.meta.Some? then p.meta.value.nextCursor else None
  }

  /** What `rows.extend(payload.get("data", []))` appends. */
  function PageRows<R>(p: Page<R>): seq<R>
  {
    if p.data.Rows? then p.data.rows else []
  }

  /** The outcome of request `k`. */
  function Served<R, E>(server: seq<nat -> Reply<Page<R>, E>>, k: nat): Result<Page<R>, Exhausted<E>>
    requires k < |server|
  {
    Execute(server[k], DEFAULT_RETRIES).result
  }

  /** The loop ends at this response: by an error that propagates, or at the last page. */
  predicate Stops<R, E>(response: Result<Page<R>, Exhausted<E>>)
  {
    response.Err? || response.value.data.JsonNull? || NextCursor(response.value).None?
  }

  /** Some response ends the loop, so that the source's loop terminates. */
  predicate Finishes<R, E>(server: seq<nat -> Reply<Page<R>, E>>)
  {
    exists k | 0 <= k < |server| :: Stops(Served(server, k))
  }

  /** The index of the response that ends the loop: the first one that stops it. */
  function LastRequest<R, E>(server: seq<nat -> Reply<Page<R>, E>>): (n: nat)
    requires Finishes(server)
    ensures n < |server| && Stops(Served(server, n))
    ensures forall k | 0 <= k < n :: !Stops(Served(server, k))
  {
    FirstStopFrom(server, 0)
  }

  function FirstStopFrom<R, E>(server: seq<nat -> Reply<Page<R>, E>>, k: nat): (n: nat)
    requires k <= |server|
    requires exists j | k <= j < |server| :: Stops(Served(server, j))
    ensures k <= n < |server| && Stops(Served(server, n))
    ensures forall j | k <= j < n :: !Stops(Served(server, j))
    decreases |server| - k
  {
    if Stops(Served(server, k)) then k else FirstStopFrom(server, k + 1)
  }

  /** The rows of the first `n` responses, in response order. */
  function Gathered<R, E>(server: seq<nat -> Reply<Page<R>, E>>, n: nat): seq<R>
    requires n <= |server|
  {
    if n == 0 then []
    else
      var response := Served(server, n - 1);
      Gathered(server, n - 1) + (if response.Ok? then PageRows(response.value) else [])
  }

  /** What the loop leaves behind: the gathered rows, or the error that aborts it. */
  function Collected<R, E>(server: seq<nat -> Reply<Page<R>, E>>): Result<seq<R>, CollectError<E>>
    requires Finishes(server)
  {
    var n := LastRequest(server);
    var last := Served(server, n);
    if last.Err? then Err(RequestFailed(last.error))
    else if last.value.data.JsonNull? then Err(NullData)
    else Ok(Gathered(server, n + 1))
  }

  /** `response` is a page whose `next_cursor` is `cursor`. */
  predicate ContinuesWith<R, E>(response: Result<Page<R>, Exhausted<E>>, cursor: int)
  {
    response.Ok? && NextCursor(response.value) == Some(cursor)
  }

  /** Each cursor in `requested` after the first is the `next_cursor` of the page before it. */
  ghost predicate Chained<R, E>(server: seq<nat -> Reply<Page<R>, E>>, requested: seq<int>)
    requires |requested| <= |server|
  {
    forall k | 0 <= k < |requested| - 1 :: ContinuesWith(Served(server, k), requested[k + 1])
  }

  /**
    What the loop holds before request `k`: `requested` are the cursors sent
    so far, `cursor` is the one about to be sent, and `rows` are the rows
    gathered so far.
  */
  ghost predicate Progress<R, E>(server: seq<nat -> Reply<Page<R>, E>>, k: nat, requested: seq<int>, cursor: int, rows: seq<R>)
    requires Finishes(server)
  {
    && k <= LastRequest(server)
    && |requested| == k
    && (requested + [cursor])[0] == FIRST_CURSOR
    && Chained(server, requested + [cursor])
    && rows == Gathered(server, k)
  }

  /** A page that does not end the loop hands its `next_cursor` and its rows on to the next request. */
  lemma Advance<R, E>(server: seq<nat -> Reply<Page<R>, E>>, k: nat, requested: seq<int>, cursor: int, rows: seq<R>, page: Page<R>)
    requires Finishes(server) && Progress(server, k, requested, cursor, rows)
    requires Served(server, k) == Ok(page) && !page.data.JsonNull? && NextCursor(page).Some?
    ensures k < LastRequest(server)
    ensures Progress(server, k + 1, requested + [cursor], NextCursor(page).value, rows + PageRows(page))
  {
    assert !Stops(Served(server, k));
    var sent := requested + [cursor];
    var next := NextCursor(page).value;
    assert ContinuesWith(Served(server, |sent| - 1), next);
    assert (sent + [next])[0] == sent[0];
  }

  /** The response that ends the loop is the last one, and it decides what is collected. */
  lemma Stopped<R, E>(server: seq<nat -> Reply<Page<R>, E>>, k: nat, requested: seq<int>, cursor: int, rows: seq<R>)
    requires Finishes(server) && Progress(server, k, requested, cursor, rows)
    requires Stops(Served(server, k))
    ensures k == LastRequest(server)
    ensures |requested + [cursor]| == LastRequest(server) + 1
    ensures (requested + [cursor])[0] == FIRST_CURSOR
    ensures forall j | 0 <= j < k :: ContinuesWith(Served(server, j), (requested + [cursor])[j + 1])
    ensures Collected(server) ==
      var last := Served(server, k);
      if last.Err? then Err(RequestFailed(last.error))
      else if last.value.data.JsonNull? then Err(NullData)
      else Ok(rows + PageRows(last.value))
  {
  }

  /**
    The loop. The first request carries cursor 0 and each later one the
    `next_cursor` of the page before it; the requests are exactly those up
    to and including the first response that ends the loop, and the rows
    are what `Collected` says.
  */
  method CollectPages<R, E>(server: seq<nat -> Reply<Page<R>, E>>) returns (r: Result<seq<R>, CollectError<E>>, requested: seq<int>)
    requires Finishes(server)
    ensures |requested| == LastRequest(server) + 1
    ensures requested[0] == FIRST_CURSOR
    ensures forall k | 0 <= k < |requested| - 1 :: ContinuesWith(Served(server, k), requested[k + 1])
    ensures r == Collected(server)
  {
    var cursor := FIRST_CURSOR;
    var rows: seq<R> := [];
    var k := 0;
    requested := [];
    while true
      invariant Progress(server, k, requested, cursor, rows)
      decreases LastRequest(server) - k
    {
      var payload, _, _ := SafeGet(server[k], DEFAULT_RETRIES);
      assert payload == Served(server, k);
      if payload.Err? {
        Stopped(server, k, requested, cursor, rows);
        return Err(RequestFailed(payload.error)), requested + [cursor];
      }
      var page := payload.value;
      ghost var before := rows;
      match page.data {
        case Absent =>
        case JsonNull =>
          Stopped(server, k, requested, cursor, rows);
          return Err(NullData), requested + [cursor];
        case Rows(data) =>
          rows := rows + data;
      }
      assert rows == before + PageRows(page);
      var next := NextCursor(page);
      if next.None? {
        Stopped(server, k, requested, cursor, before);
        requested := requested + [cursor];
        break;
      }
      Advance(server, k, requested, cursor, before, page);
      requested := requested + [cursor];
      cursor := next.value;
      k := k + 1;
    }
    r := Ok(rows);
  }

  /** The sum of the row counts of the pages of the first `n` responses. */
  function RowCount<R, E>(server: seq<nat -> Reply<Page<R>, E>>, n: nat): nat
    requires n <= |server|
  {
    if n == 0 then 0
    else
      var response := Served(server, n - 1);
      RowCount(server, n - 1) + (if response.Ok? then |PageRows(response.value)| else 0)
  }

  /** The collected row count is the sum of the per-page row counts. */
  lemma {:induction false} GatheredCount<R, E>(server: seq<nat -> Reply<Page<R>, E>>, n: nat)
    requires n <= |server|
    ensures |Gathered(server, n)| == RowCount(server, n)
  {
    if n > 0 {
      GatheredCount(server, n - 1);
    }
  }

  /** Rows are appended in page order: the rows of earlier pages come first, unchanged. */
  lemma {:induction false} GatheredPrefix<R, E>(server: seq<nat -> Reply<Page<R>, E>>, k: nat, n: nat)
    requires k <= n <= |server|
    ensures Gathered(server, k) <= Gathered(server, n)
    decreases n - k
  {
    if k < n {
      GatheredPrefix(server, k, n - 1);
      var earlier := Gathered(server, n - 1);
      var extra := Gathered(server, n)[|earlier|..];
      assert Gathered(server, n) == earlier + extra;
    }
  }

  /** A transport that answers every attempt with a 200 and `page`. */
  function Always<R, E>(page: Page<R>): nat -> Reply<Page<R>, E>
  {
    _ => Response(200, Some(page))
  }

  /**
    Two pages, the first pointing on with `next_cursor` 7 and the second
    ending the pagination: two requests are made and the rows are those of
    the first page followed by those of the second.
  */
  lemma TwoPages<R, E>(g1: R, g2: R, g3: R)
    ensures var server: seq<nat -> Reply<Page<R>, E>> :=
      [Always(Page(Rows([g1, g2]), Some(Meta(Some(7))))), Always(Page(Rows([g3]), Some(Meta(None))))];
      && Finishes(server)
      && LastRequest(server) == 1
      && Collected(server) == Ok([g1, g2, g3])
  {
    var p1: Page<R> := Page(Rows([g1, g2]), Some(Meta(Some(7))));
    var p2: Page<R> := Page(Rows([g3]), Some(Meta(None)));
    var server: seq<nat -> Reply<Page<R>, E>> := [Always(p1), Always(p2)];
    assert Served(server, 0) == Ok(p1) by {
      assert Run(server[0], DEFAULT_RETRIES, 0, None).result == Ok(p1);
    }
    assert Served(server, 1) == Ok(p2) by {
      assert Run(server[1], DEFAULT_RETRIES, 0, None).result == Ok(p2);
    }
    assert !Stops(Served(server, 0)) && Stops(Served(server, 1));
    assert Gathered(server, 1) == [g1, g2];
    assert Gathered(server, 2) == [g1, g2] + [g3] == [g1, g2, g3];
  }
}
