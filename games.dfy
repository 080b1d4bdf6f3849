/**
  `fetch_games`: the collected rows turned into the displayed frame.

  After the pages are collected, an empty collection gives the empty frame;
  otherwise each row gets its local tipoff and its matchup string, the
  frame keeps the display columns it has, in display order, and is sorted
  by date and tipoff. The timezone conversion is a library call and is the
  parameter `localize`: it maps a raw `datetime` cell to the local
  "YYYY-MM-DD HH:MM" string, or to `None` where pandas coerces it to NaT.
*/
module Games {
  import opened Wrappers
  import opened Table
  import opened Subsequences
  import opened Ordering
  import opened Retry
  import opened Pagination

  const SEPARATOR := " @ "

  /** The columns kept for display, in display order. */
  const KEEP: seq<string> := [
    "id", DATE, TIPOFF_LOCAL, STATUS, "postseason",
    "visitor_team.abbreviation", "visitor_team_score",
    "home_team.abbreviation", "home_team_score", MATCHUP
  ]

  datatype FrameError =
    | NotAString(column: string)     // TypeError: a name cell that `+` cannot join to a string
    | MissingColumn(column: string)  // KeyError: `sort_values` on a column the frame lacks
    | NoFillna(column: string)       // AttributeError: `"".fillna` when `df.get` found no column

  /** The errors that end `fetch_games`. */
  datatype FetchError<E> = Collecting(cause: CollectError<E>) | Tabulating(problem: FrameError)

  /** A name cell `+` can join: a string, or a missing or null cell that `fillna("")` turns into "". */
  predicate Joinable(row: Row, column: string)
  {
    column !in row || row[column].Str? || row[column].Null?
  }

  /** A name cell after `fillna("")`. */
  function NameOf(row: Row, column: string): string
  {
    match StrCell(row, column)
    case Some(s) => s
    case None => ""
  }

  /** The matchup column, the visitor name column being evaluated, and so failing, first. */
  function Matchups(rows: seq<Row>): (r: Result<seq<string>, FrameError>)
    ensures r.Ok? <==> forall i | 0 <= i < |rows| :: Joinable(rows[i], VISITOR_NAME) && Joinable(rows[i], HOME_NAME)
    ensures r.Err? ==> r.error == if exists i | 0 <= i < |rows| :: !Joinable(rows[i], VISITOR_NAME)
      then NotAString(VISITOR_NAME) else NotAString(HOME_NAME)
    ensures r.Ok? ==> |r.value| == |rows|
  {
    if exists i | 0 <= i < |rows| :: !Joinable(rows[i], VISITOR_NAME) then Err(NotAString(VISITOR_NAME))
    else if exists i | 0 <= i < |rows| :: !Joinable(rows[i], HOME_NAME) then Err(NotAString(HOME_NAME))
    else Ok(seq(|rows|, i requires 0 <= i < |rows| => NameOf(rows[i], VISITOR_NAME) + SEPARATOR + NameOf(rows[i], HOME_NAME)))
  }

  /**
    Each matchup is the visitor's full name, " @ ", and the home team's full
    name; a row lacking a name has "" in its place, so a row lacking both
    gives " @ ".
  */
  lemma MatchupShape(rows: seq<Row>, i: nat)
    requires Matchups(rows).Ok? && i < |rows|
    ensures var m := Matchups(rows).value[i];
      var v := NameOf(rows[i], VISITOR_NAME);
      var h := NameOf(rows[i], HOME_NAME);
      && |m| == |v| + 3 + |h|
      && m[..|v|] == v
      && m[|v|..|v| + 3] == SEPARATOR
      && m[|v| + 3..] == h
      && (VISITOR_NAME !in rows[i] || rows[i][VISITOR_NAME].Null? ==> v == "")
      && (HOME_NAME !in rows[i] || rows[i][HOME_NAME].Null? ==> h == "")
  {
  }

  /**
    The matchup column AS WRITTEN: `df.get(column, "")` gives the string ""
    when no row has the column, and `"".fillna("")` then raises
    AttributeError, before any `+` is evaluated on that side.
  */
  function MatchupsAsWritten(rows: seq<Row>): Result<seq<string>, FrameError>
  {
    if VISITOR_NAME !in ColumnsOf(rows) then Err(NoFillna(VISITOR_NAME))
    else if exists i | 0 <= i < |rows| :: !Joinable(rows[i], VISITOR_NAME) then Err(NotAString(VISITOR_NAME))
    else if HOME_NAME !in ColumnsOf(rows) then Err(NoFillna(HOME_NAME))
    else if exists i | 0 <= i < |rows| :: !Joinable(rows[i], HOME_NAME) then Err(NotAString(HOME_NAME))
    else Ok(seq(|rows|, i requires 0 <= i < |rows| => NameOf(rows[i], VISITOR_NAME) + SEPARATOR + NameOf(rows[i], HOME_NAME)))
  }

  /** Where every row carries both name columns, the code as written and the corrected matchup agree. */
  lemma AsWrittenAgreesWithNameColumns(rows: seq<Row>)
    requires forall i | 0 <= i < |rows| :: VISITOR_NAME in rows[i] && HOME_NAME in rows[i]
    requires rows != []
    ensures MatchupsAsWritten(rows) == Matchups(rows)
  {
    assert VISITOR_NAME in ColumnsOf(rows) && HOME_NAME in ColumnsOf(rows) by {
      assert VISITOR_NAME in rows[0] && HOME_NAME in rows[0];
    }
  }

  /**
    A page of one game without team objects: the code as written raises
    AttributeError where the matchup " @ " was intended.
  */
  lemma AsWrittenFailsWithoutNames()
    ensures var rows := [map[DATE := Str("2024-01-01")]];
      && MatchupsAsWritten(rows) == Err(NoFillna(VISITOR_NAME))
      && Matchups(rows) == Ok([SEPARATOR])
  {
    var rows := [map[DATE := Str("2024-01-01")]];
    assert VISITOR_NAME !in ColumnsOf(rows);
    assert Matchups(rows).value[0] == "" + SEPARATOR + "" == SEPARATOR;
    assert Matchups(rows).value == [SEPARATOR];
  }

  /** The `tipoff_local` of a row: NaN, here `None`, when the row has no `datetime`. */
  function Tipoff(row: Row, localize: Value -> Option<string>): Option<string>
  {
    if DATETIME in row && !row[DATETIME].Null? then localize(row[DATETIME]) else None
  }

  /** A row with its `tipoff_local` and `matchup` cells set. */
  function Enrich(row: Row, tipoff: Option<string>, matchup: string): Row
  {
    row[TIPOFF_LOCAL := TipoffCell(tipoff)][MATCHUP := Str(matchup)]
  }

  /** The cells of a row in the kept columns. */
  function Project(row: Row, columns: seq<string>): Row
  {
    map c | c in row && c in columns :: row[c]
  }

  /** The columns of the enriched frame: the rows' own, and `tipoff_local` and `matchup`, which are always set. */
  function FrameColumns(rows: seq<Row>): set<string>
  {
    ColumnsOf(rows) + {TIPOFF_LOCAL, MATCHUP}
  }

  /**
    `[c for c in keep if c in df.columns]`: exactly the display columns the
    frame has, in display order.
  */
  function Kept(present: set<string>): (columns: seq<string>)
    ensures forall c :: c in columns <==> c in KEEP && c in present
    ensures SubsequenceOf(columns, KEEP)
  {
    FilterIsSubsequence(KEEP, c => c in present);
    Filter(KEEP, c => c in present)
  }

  function KeptColumns(rows: seq<Row>): seq<string>
  {
    Kept(FrameColumns(rows))
  }

  /** The enriched, projected rows in input order, before the sort. */
  function Normalised(rows: seq<Row>, localize: Value -> Option<string>, matchups: seq<string>): (r: seq<Row>)
    requires |matchups| == |rows|
    ensures |r| == |rows|
  {
    var columns := KeptColumns(rows);
    seq(|rows|, i requires 0 <= i < |rows| => Project(Enrich(rows[i], Tipoff(rows[i], localize), matchups[i]), columns))
  }

  /** The `tipoff_local` cell: the local time, or null. */
  function TipoffCell(tipoff: Option<string>): Value
  {
    if tipoff.Some? then Str(tipoff.value) else Null
  }

  lemma ProjectEnriched(row: Row, tipoff: Option<string>, matchup: string, columns: seq<string>)
    ensures var out := Project(Enrich(row, tipoff, matchup), columns);
      && (forall c :: c in out <==> c in columns && (c in row || c == TIPOFF_LOCAL || c == MATCHUP))
      && (forall c | c in out && c != TIPOFF_LOCAL && c != MATCHUP :: out[c] == row[c])
      && (MATCHUP in columns ==> MATCHUP in out && out[MATCHUP] == Str(matchup))
      && (TIPOFF_LOCAL in columns ==> TIPOFF_LOCAL in out && out[TIPOFF_LOCAL] == TipoffCell(tipoff))
  {
    assert TIPOFF_LOCAL != MATCHUP;
  }

  /**
    What a displayed row holds: its own cells in the kept columns, its local
    tipoff (null when absent) and its matchup.
  */
  lemma NormalisedRow(rows: seq<Row>, localize: Value -> Option<string>, i: nat)
    requires Matchups(rows).Ok? && i < |rows|
    ensures var out := Normalised(rows, localize, Matchups(rows).value)[i];
      && (forall c :: c in out <==> c in KeptColumns(rows) && (c in rows[i] || c == TIPOFF_LOCAL || c == MATCHUP))
      && (forall c | c in out && c != TIPOFF_LOCAL && c != MATCHUP :: out[c] == rows[i][c])
      && MATCHUP in out && out[MATCHUP] == Str(NameOf(rows[i], VISITOR_NAME) + SEPARATOR + NameOf(rows[i], HOME_NAME))
      && TIPOFF_LOCAL in out && out[TIPOFF_LOCAL] == TipoffCell(Tipoff(rows[i], localize))
  {
    var columns := KeptColumns(rows);
    assert KEEP[2] == TIPOFF_LOCAL && KEEP[9] == MATCHUP;
    assert TIPOFF_LOCAL in columns && MATCHUP in columns;
    ProjectEnriched(rows[i], Tipoff(rows[i], localize), Matchups(rows).value[i], columns);
  }

  /**
    Lines 69-103 of `fetch_games`: no rows give the empty frame; otherwise
    the enriched, projected rows sorted by date and tipoff, or the error
    pandas raises.
  */
  function Tabulate(rows: seq<Row>, localize: Value -> Option<string>): (r: Result<Frame, FrameError>)
    ensures rows == [] ==> r == Ok(EMPTY_FRAME)
    ensures r.Err? <==> rows != [] && (Matchups(rows).Err? || DATE !in ColumnsOf(rows))
    ensures r.Ok? && rows != [] ==>
      && r.value.columns == KeptColumns(rows)
      && Sorted(r.value.rows)
      && multiset(r.value.rows) == multiset(Normalised(rows, localize, Matchups(rows).value))
  {
    if rows == [] then Ok(EMPTY_FRAME)
    else
      match Matchups(rows)
      case Err(e) => Err(e)
      case Ok(matchups) =>
        if DATE !in ColumnsOf(rows) then Err(MissingColumn(DATE))
        else Ok(Frame(KeptColumns(rows), SortRows(Normalised(rows, localize, matchups))))
  }

  /** Each stage's error, as `fetch_games` lets it propagate. */
  function Fetched<E>(server: seq<nat -> Reply<Page<Row>, E>>, localize: Value -> Option<string>): Result<Frame, FetchError<E>>
    requires Finishes(server)
  {
    match Collected(server)
    case Err(e) => Err(Collecting(e))
    case Ok(rows) =>
      match Tabulate(rows, localize)
      case Err(e) => Err(Tabulating(e))
      case Ok(frame) => Ok(frame)
  }

  /**
    `fetch_games`: the pagination loop, then the frame. It makes one request
    per page up to the last, and its result is the frame of the collected
    rows, or the first error raised.
  */
  method FetchGames<E>(server: seq<nat -> Reply<Page<Row>, E>>, localize: Value -> Option<string>)
    returns (r: Result<Frame, FetchError<E>>, requested: seq<int>)
    requires Finishes(server)
    ensures |requested| == LastRequest(server) + 1
    ensures r == Fetched(server, localize)
  {
    var rows;
    rows, requested := CollectPages(server);
    if rows.Err? {
      return Err(Collecting(rows.error)), requested;
    }
    var frame := Tabulate(rows.value, localize);
    if frame.Err? {
      return Err(Tabulating(frame.error)), requested;
    }
    r := Ok(frame.value);
  }
}
