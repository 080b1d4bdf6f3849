/**
  The Monday-to-Sunday bounds of the week that contains a date (`week_bounds`).

  A date is its proleptic Gregorian ordinal, as Python's `date.toordinal()`
  gives it: day 1 is Monday 0001-01-01 and day 3652059 is Friday 9999-12-31,
  the largest date Python represents. Subtracting and adding `timedelta`
  days is subtraction and addition of ordinals, and raises OverflowError
  when the result leaves that range.
*/
module Week {
  import opened Wrappers

  const MIN_ORDINAL := 1
  const MAX_ORDINAL := 3652059

  type Day = d: int | MIN_ORDINAL <= d <= MAX_ORDINAL witness MIN_ORDINAL

  /** `date.weekday()`: Monday is 0 and Sunday is 6. */
  function Weekday(d: Day): (w: int)
    ensures 0 <= w < 7
  {
    (d + 6) % 7
  }

  /** The Monday of the last week Python can represent in full or in part. */
  const LAST_MONDAY := MAX_ORDINAL - Weekday(MAX_ORDINAL)

  /** OverflowError("date value out of range") from `monday + timedelta(days=6)`. */
  datatype DateOverflow = DateOverflow

  /**
    `week_bounds(d)`: the Monday on or before `d` and the Sunday six days
    later. The Monday always exists (day 1 is a Monday); the Sunday does not
    when `d` lies in the last, truncated week.
  */
  function WeekBounds(d: Day): (r: Result<(Day, Day), DateOverflow>)
    ensures r.Ok? ==> Weekday(r.value.0) == 0 && r.value.1 == r.value.0 + 6
    ensures r.Ok? ==> r.value.0 <= d <= r.value.1
    ensures r.Err? <==> LAST_MONDAY <= d
  {
    var monday := d - Weekday(d);
    assert (monday + 6) % 7 == 0;
    var sunday := monday + 6;
    if sunday <= MAX_ORDINAL then Ok((monday, sunday)) else Err(DateOverflow)
  }

  /** There is one Monday among the seven days ending at `d`. */
  lemma MondayUnique(d: Day, m: Day)
    requires Weekday(m) == 0 && m <= d < m + 7
    ensures m == d - Weekday(d)
  {
    var q := (m + 6) / 7;
    assert m + 6 == 7 * q;
    assert d + 6 == 7 * q + (d - m);
  }

  /** Every day of the week `WeekBounds(d)` names has that same week as its bounds. */
  lemma WeekBoundsCoverWeek(d: Day, e: Day)
    requires WeekBounds(d).Ok?
    requires WeekBounds(d).value.0 <= e <= WeekBounds(d).value.1
    ensures WeekBounds(e) == WeekBounds(d)
  {
    MondayUnique(e, WeekBounds(d).value.0);
  }
}
