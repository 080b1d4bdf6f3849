# NBA-Weekly: a verified model of the games fetcher

`app.py` is a Streamlit dashboard that lists the NBA games of the current
week. It gets them from the BallDontLie API. This project models the parts
of it that compute something, and proves what they promise:

- `week_bounds`: the Monday and the Sunday of a date's week (module `Week`).
- `safe_get`: one GET with up to `retries` attempts (module `Retry`). A 429
  answer sleeps and tries again. Any other failure is remembered as
  `last_err`, then it sleeps and tries again. When the budget runs out it
  raises `RuntimeError` with the budget and `last_err`.
- The pagination loop of `fetch_games` (module `Pagination`). It starts
  with cursor 0 and follows `meta.next_cursor` until that is missing or
  null, and it appends every page's `data` rows in page order.
- The rest of `fetch_games` (module `Games`), with the matchup corrected as
  "## Findings" describes. No rows give the empty frame.
  Otherwise each row gets its local tipoff and its `"visitor @ home"`
  matchup, the frame keeps the display columns it has, in display order,
  and it is sorted by date and then tipoff (module `Ordering`).
- The two status checkboxes of the page (module `StatusFilter`). "Only
  live" keeps statuses that contain "Qtr" or "Half" and "Only finals"
  keeps those that contain "Final", ignoring case. Both filter through
  `Subsequences.Filter`.

How the model is set up:

- A date is its proleptic Gregorian ordinal, as Python's `date.toordinal`
  gives it (1 is 0001-01-01, 3652059 is 9999-12-31). Its weekday is
  `(ordinal + 6) % 7`, with Monday as 0.
- The HTTP transport is a parameter `replies: nat -> Reply`, giving what
  attempt `i` meets. That is either an exception raised by `requests.get`,
  or a status code and a body. The body is `None` when `r.json()` cannot
  decode it. The sleeps are modelled as the list of their exponents `i`,
  so sleep `k` lasts `backoff ** sleeps[k]` seconds.
- The upstream that the pagination loop talks to is a sequence of
  transports, one for each successive request.
- The `Execute` function specifies `safe_get`. The `SafeGet` method runs
  the source's loop and is proved equal to `Execute`. `CollectPages` and
  `FetchGames` do the same against `Collected` and `Fetched`.
- A row is a map from flattened column names (`"visitor_team.full_name"`)
  to cell values: a string, an integer, a boolean or null.
- The timezone conversion is a parameter `localize` that maps a raw
  `datetime` cell to the local `"YYYY-MM-DD HH:MM"` string. It gives
  `None` where pandas coerces the value to NaT.

## Model

| member | source | states |
|---|---|---|
| Week.WeekBounds | app.py:15-18 | The Monday is a Monday, the Sunday is six days after it, and the date lies between them. The result is an overflow error exactly when the Sunday would pass 9999-12-31, which is when the date is on or after the last Monday. |
| Week.MondayUnique | app.py:16 | The only Monday at most six days before a date is `d - d.weekday()`. |
| Week.WeekBoundsCoverWeek | app.py:15-18 | Every day between a date's Monday and Sunday has the same week bounds. |
| Retry.RunShape | app.py:29-42 | From attempt `i`, every attempt index is used at most once, in order. A success returns the first successful body. Exhaustion happens only after the last index and carries the budget and the latest failure. There is one sleep per unsuccessful attempt, and sleep `k` has exponent `i + k`. |
| Retry.ExecuteContract | app.py:29-42 | At most `max(retries, 0)` attempts. An `Ok` result is the body of the first attempt that succeeded, with no success before it. An exhausted result means no attempt succeeded within the budget, and it carries `retries` and the latest failure. Sleeps are `0, 1, …` and there is one per failed or rate-limited attempt, including the last. |
| Retry.SafeGet | app.py:29-42 | The retry loop returns exactly the result, the attempt count and the sleeps of `Execute`. |
| Retry.LastFailureIsLatest | app.py:30-41 | `last_err` is the error of the latest attempt that failed with an exception. It keeps its earlier value when no attempt failed that way, because a 429 does not set it. |
| Retry.ExhaustedError | app.py:39-42 | With no success within the budget, the error carries `retries`. Its `last_err` is `None` when every attempt was a 429, and otherwise it is the failure of the latest attempt that raised, and no later attempt raised. |
| Retry.FailsThenSucceeds | app.py:31-41 | If attempt `k` is the first success within the budget, the result is its body after `k + 1` attempts, with sleeps `0 … k-1`. |
| Pagination.LastRequest | app.py:53-66 | The loop's last request is the first response that stops it: an error, `data` that is JSON null, or no `next_cursor`. No earlier response stops it. |
| Pagination.Advance | app.py:61-67 | A page that does not end the loop hands its `next_cursor` and its appended rows on to the next request. |
| Pagination.Stopped | app.py:60-66 | The response that ends the loop is the last one, and it decides the outcome. An exhausted `safe_get` propagates its error, null `data` is a TypeError, and otherwise the result is the rows gathered so far plus this page's rows. |
| Pagination.CollectPages | app.py:50-67 | One request is made per page, up to and including the last page. The first cursor is 0. Each later cursor is the `next_cursor` of the page before it. The result is `Collected`: the rows of all pages in order, or the first error. |
| Pagination.GatheredCount | app.py:61 | The number of collected rows is the sum of the per-page row counts. |
| Pagination.GatheredPrefix | app.py:61 | The rows of earlier pages come first, unchanged, in the rows of later pages. |
| Pagination.TwoPages | app.py:50-67 | Pages `[g1, g2]` with next cursor 7, then `[g3]` with a null next cursor, give 2 requests and the rows `[g1, g2, g3]`. |
| Ordering.StrLeTotal | app.py:103 | Python string order is total. |
| Ordering.StrLeAntisymmetric | app.py:103 | Python string order is antisymmetric. |
| Ordering.StrLeTransitive | app.py:103 | Python string order is transitive. |
| Ordering.KeyLeTotal | app.py:102-103 | The (date, tipoff) order with missing values last is total. |
| Ordering.KeyLeTransitive | app.py:102-103 | The (date, tipoff) order with missing values last is transitive. |
| Ordering.Insert | app.py:103 | Inserting a row adds exactly that row to the multiset of rows. |
| Ordering.InsertSorted | app.py:103 | Inserting a row into sorted rows keeps them sorted. |
| Ordering.SortRows | app.py:101-103 | The sorted frame is ordered by date, then tipoff, with missing values last, and is a permutation of its input. |
| Subsequences.Filter | app.py:136 | A boolean mask keeps at most the input's rows. It keeps only rows that satisfy it and every row that does. |
| Subsequences.FilterIsSubsequence | app.py:136 | A boolean mask keeps the rows in their original order. |
| Subsequences.FilterCount | app.py:136 | A mask keeps every occurrence of a row that satisfies it and none of one that does not. |
| Subsequences.FilterTwice | app.py:135-138 | Two masks in turn give the same result as one mask by their conjunction. |
| Subsequences.FilterSame | app.py:135-138 | Masks that agree on every row give the same result. |
| Games.Matchups | app.py:81-85 | The corrected matchup column (see "## Findings"). It exists exactly when every name cell is a string, missing or null. Otherwise the error names the visitor column first. There is one matchup per row. |
| Games.MatchupShape | app.py:81-85 | Each matchup is the visitor's full name, `" @ "`, then the home team's full name. A missing or null name becomes `""`. |
| Games.AsWrittenAgreesWithNameColumns | app.py:81-85 | When every row has both name columns, the code as written and the corrected matchup agree. |
| Games.AsWrittenFailsWithoutNames | app.py:81-85 | A single game with no team objects: as written it raises AttributeError, and the intended result is `[" @ "]`. |
| Games.Kept | app.py:87-99 | The kept columns are exactly the display columns the frame has, in display order. |
| Games.ProjectEnriched | app.py:74-99 | A displayed row has exactly the kept columns the row has, plus `tipoff_local` and `matchup`. Its other cells are copied unchanged. |
| Games.NormalisedRow | app.py:74-99 | A displayed row has its own cells in the kept columns, its local tipoff (null when it has no datetime) and its matchup. Both `tipoff_local` and `matchup` are always kept. |
| Games.Tabulate | app.py:69-103 | Built on the corrected matchup (see "## Findings"). No rows give the empty frame. The frame fails exactly when a name cell cannot be joined or no row has a `date`. Otherwise its columns are the kept columns, and its rows are sorted and are a permutation of the normalised rows. |
| Games.FetchGames | app.py:46-105 | One request per page up to the last, and the result is the first error or the frame of the collected rows, built on the corrected matchup (see "## Findings"). |
| StatusFilter.Narrow | app.py:135-138 | The ticked filters keep, in order, every occurrence of exactly the rows that every ticked filter accepts. |
| StatusFilter.NarrowedIsFiltered | app.py:135-138 | Applying the two filters one after the other is one filter by their conjunction, or no filter. |
| StatusFilter.View | app.py:134-138 | The view fails exactly when a box is ticked and the frame has no `status` column. Otherwise the columns are unchanged and the rows are the order-preserving selection of the shown rows, all their occurrences. |
| StatusFilter.BothFilters | app.py:135-138 | Ticking both boxes gives the same rows whichever filter runs first: the intersection. |
| StatusFilter.StartsMeansMatchAtZero | app.py:136 | The recursive case-insensitive prefix test agrees letter by letter at offset 0. |
| StatusFilter.ContainsMeansMatchSomewhere | app.py:136 | The recursive case-insensitive search succeeds exactly when the pattern's letters agree, up to case, at some offset of the text. |
| StatusFilter.LiveStatuses | app.py:136-138 | "4th Qtr" is live and not final, and "Halftime" is live. |
| StatusFilter.FinalStatus | app.py:136-138 | "FINAL" is final, whatever its case, and is not live. |
| StatusFilter.NullStatus | app.py:136-138 | A null status is rendered "None", and neither filter keeps it. |

## Left out

- Network I/O: `requests.get`, its URL, query parameters, headers and timeout, `raise_for_status` and `r.json()` are modelled only through their outcome per attempt.
- `time.sleep(backoff ** i)`: the float durations and the waiting itself are not modelled. The trace records the exponent of each sleep.
- `bdl_headers`, the environment lookup of the API key, and `st.error` / `st.stop` are configuration and UI.
- `st.cache_data(ttl=600)`: the ten-minute memoisation is not modelled. The model computes every call afresh.
- The Streamlit page (lines 108-133 and 140 onwards), the date pickers, the `start > end` check, the metrics and the CSV download are UI and are not modelled.
- The date range and `per_page` are sent to the server and only shape which pages it returns. The model takes the pages as given, so it does not check that games fall inside the range.
- The timezone conversion and the `strftime` rendering are the parameter `localize`.
- `pd.json_normalize` is not modelled. Rows arrive already flattened to dotted column names.
- Float cells (for example scores that pandas turns into floats next to NaN) are not modelled. Cells are strings, integers, booleans or null.
- Ordering.SortRows: the contract does not promise the order among rows with equal (date, tipoff) keys. pandas sorts on two columns with a stable lexicographic sort, so it keeps their input order, and `Insert` does the same, but no lemma states it.
- Games.Tabulate: it uses the corrected `Games.Matchups`. As written, the frame also fails with AttributeError when no row has `visitor_team.full_name` or none has `home_team.full_name`; `Games.MatchupsAsWritten` models that.
- Games.FetchGames: it inherits the corrected matchup from `Games.Tabulate`, so it returns a frame where the code as written raises AttributeError when no collected row has a team-name column.
- Ordering.SortRows: a non-string `date` or `tipoff_local` cell is treated as missing and sorted last. In a column that mixes types, pandas orders numeric and boolean cells before strings, so the model places such rows differently.
- StatusFilter.ContainsMeansMatchSomewhere: case folding covers ASCII letters only. Python's Unicode case folding is not modelled.
- Pagination.CollectPages: it requires some response to end the loop. The source has no guard against a server that keeps returning new cursors and would loop forever, so that behaviour is not modelled.
- Pagination.CollectPages: the source does not check that a cursor is never requested twice, so neither does the model. A server that sends a cursor back again is followed, page by page.
- Pagination.Stopped: a payload that is not a JSON object (so `payload.get` fails) is not modelled. Every decoded body is a page whose `data` is missing, null or a list, and whose `meta` is missing, null, empty or carries `next_cursor`.

## Findings

| source | as written | input that shows it | evidently intended | confidence | as-written member | corrected member |
|---|---|---|---|---|---|---|
| app.py:82-84 | `df.get("visitor_team.full_name", "").fillna("")` gives the string `""` when no row has the column, and `"".fillna` raises AttributeError. The same holds for the home column. | one game row `{"date": "2024-01-01"}` with no team objects | missing team names become `""`, so the matchup is `" @ "` | not executed | Games.MatchupsAsWritten (shown by Games.AsWrittenFailsWithoutNames) | Games.Matchups |

Other behaviour the code has and the model follows:

- `week_bounds` raises OverflowError for a date in the last week of 9999, because that week's Sunday would be after 9999-12-31.
- A JSON-null `data` makes `rows.extend(None)` raise TypeError.
- `tipoff_local` is assigned on both branches of lines 75-79. So the condition on line 102 always holds, and the sort always uses both columns.
