/**
  Rows as the dashboard's data frame holds them, after `pd.json_normalize`
  has flattened each game into dotted column names
  (`visitor_team.full_name`, ...). A row maps the columns it has a value for
  to that value; a column a row lacks is a missing cell (NaN).
*/
module Table {
  import opened Wrappers

  /** A JSON scalar as it lands in a cell. */
  datatype Value = Str(s: string) | Int(i: int) | Bool(b: bool) | Null

  type Row = map<string, Value>

  /** A data frame: its column names in order, and its rows in order. */
  datatype Frame = Frame(columns: seq<string>, rows: seq<Row>)

  /** `pd.DataFrame()`: no columns and no rows. */
  const EMPTY_FRAME := Frame([], [])

  const DATE := "date"
  const DATETIME := "datetime"
  const TIPOFF_LOCAL := "tipoff_local"
  const STATUS := "status"
  const MATCHUP := "matchup"
  const VISITOR_NAME := "visitor_team.full_name"
  const HOME_NAME := "home_team.full_name"

  /** The cell of `column` when it holds a string, `None` when it is missing, null or not a string. */
  function StrCell(row: Row, column: string): Option<string>
  {
    if column in row && row[column].Str? then Some(row[column].s) else None
  }

  /** The columns of a frame built from these rows: every column some row has. */
  function ColumnsOf(rows: seq<Row>): set<string>
  {
    set i, c | 0 <= i < |rows| && c in rows[i] :: c
  }
}
