/**
  The status filters of the dashboard: "Only live / in-progress" keeps the
  rows whose status contains "Qtr" or "Half", "Only finals" those whose
  status contains "Final", both ignoring case, after `astype(str)` has
  rendered every status cell as text.
*/
module StatusFilter {
  import opened Wrappers
  import opened Table
  import opened Subsequences
  import opened Games

  function Digit(d: nat): char
    requires d < 10
  {
    "0123456789"[d]
  }

  function Digits(n: nat): string
    decreases n
  {
    if n < 10 then [Digit(n)] else Digits(n / 10) + [Digit(n % 10)]
  }

  /** `str(i)` for an integer. */
  function DecimalString(i: int): string
  {
    if i < 0 then "-" + Digits(-i) else Digits(i)
  }

  /** `str(x)` for a status cell; a row without one has NaN, rendered "nan". */
  function StatusText(row: Row): string
  {
    if STATUS !in row then "nan"
    else
      match row[STATUS]
      case Str(s) => s
      case Int(i) => DecimalString(i)
      case Bool(b) => if b then "True" else "False"
      case Null => "None"
  }

  /** ASCII upper case to lower case; every other character is left alone. */
  function Lower(c: char): char
  {
    if 'A' <= c <= 'Z' then (c as int + 32) as char else c
  }

  /** `pattern` begins `text`, letters compared without regard to case. */
  predicate StartsIgnoringCase(text: string, pattern: string)
  {
    pattern == [] || (text != [] && Lower(text[0]) == Lower(pattern[0]) && StartsIgnoringCase(text[1..], pattern[1..]))
  }

  /** `pattern` occurs in `text`, letters compared without regard to case. */
  predicate ContainsIgnoringCase(text: string, pattern: string)
  {
    StartsIgnoringCase(text, pattern) || (text != [] && ContainsIgnoringCase(text[1..], pattern))
  }

  /** `str.contains("Qtr|Half", case=False)`. */
  predicate IsLive(row: Row)
  {
    ContainsIgnoringCase(StatusText(row), "Qtr") || ContainsIgnoringCase(StatusText(row), "Half")
  }

  /** `str.contains("Final", case=False)`. */
  predicate IsFinal(row: Row)
  {
    ContainsIgnoringCase(StatusText(row), "Final")
  }

  /** A row the two checkboxes let through. */
  predicate Shown(row: Row, onlyLive: bool, onlyFinal: bool)
  {
    (onlyLive ==> IsLive(row)) && (onlyFinal ==> IsFinal(row))
  }

  /**
    The rows left after the ticked filters, applied one after the other as
    the page applies them: in their order, exactly the rows every ticked
    filter accepts, every occurrence of them.
  */
  function Narrow(rows: seq<Row>, live: Row -> bool, final: Row -> bool, onlyLive: bool, onlyFinal: bool): (shown: seq<Row>)
    ensures SubsequenceOf(shown, rows)
    ensures forall row | row in shown :: (onlyLive ==> live(row)) && (onlyFinal ==> final(row))
    ensures forall row ::
      multiset(shown)[row] == (if (onlyLive ==> live(row)) && (onlyFinal ==> final(row)) then multiset(rows)[row] else 0)
  {
    var afterLive := if onlyLive then Filter(rows, live) else rows;
    var shown := if onlyFinal then Filter(afterLive, final) else afterLive;
    NarrowedIsFiltered(rows, live, final, onlyLive, onlyFinal);
    shown
  }

  /** The two filters in turn are one filter by the conjunction, or no filter. */
  lemma NarrowedIsFiltered<T>(rows: seq<T>, live: T -> bool, final: T -> bool, onlyLive: bool, onlyFinal: bool)
    ensures var afterLive := if onlyLive then Filter(rows, live) else rows;
      var shown := if onlyFinal then Filter(afterLive, final) else afterLive;
      && SubsequenceOf(shown, rows)
      && forall row ::
           multiset(shown)[row] == (if (onlyLive ==> live(row)) && (onlyFinal ==> final(row)) then multiset(rows)[row] else 0)
  {
    var afterLive := if onlyLive then Filter(rows, live) else rows;
    var shown := if onlyFinal then Filter(afterLive, final) else afterLive;
    var p := (row: T) => (onlyLive ==> live(row)) && (onlyFinal ==> final(row));
    if !onlyLive && !onlyFinal {
      SubsequenceOfSelf(rows);
      return;
    }
    if onlyLive && onlyFinal {
      FilterTwice(rows, live, final);
      FilterSame(rows, x => live(x) && final(x), p);
    } else if onlyLive {
      FilterSame(rows, live, p);
    } else {
      FilterSame(rows, final, p);
    }
    assert shown == Filter(rows, p);
    FilterIsSubsequence(rows, p);
    forall row {
      FilterCount(rows, p, row);
    }
  }

  /**
    The frame the page shows. With a checkbox ticked and no status column,
    `df["status"]` raises KeyError; otherwise the rows are narrowed and the
    columns kept.
  */
  function View(frame: Frame, onlyLive: bool, onlyFinal: bool): (r: Result<Frame, FrameError>)
    ensures r.Err? <==> (onlyLive || onlyFinal) && STATUS !in frame.columns
    ensures r.Ok? ==> r.value.columns == frame.columns
    ensures r.Ok? ==> SubsequenceOf(r.value.rows, frame.rows)
    ensures r.Ok? ==> forall row | row in r.value.rows :: Shown(row, onlyLive, onlyFinal)
    ensures r.Ok? ==> forall row ::
      multiset(r.value.rows)[row] == (if Shown(row, onlyLive, onlyFinal) then multiset(frame.rows)[row] else 0)
  {
    if (onlyLive || onlyFinal) && STATUS !in frame.columns then Err(MissingColumn(STATUS))
    else Ok(frame.(rows := Narrow(frame.rows, IsLive, IsFinal, onlyLive, onlyFinal)))
  }

  /** Ticking both boxes shows the rows both filters accept, whichever is applied first. */
  lemma BothFilters(rows: seq<Row>)
    ensures Filter(Filter(rows, IsLive), IsFinal) == Filter(Filter(rows, IsFinal), IsLive)
  {
    FilterTwice(rows, IsLive, IsFinal);
    FilterTwice(rows, IsFinal, IsLive);
    FilterSame(rows, x => IsLive(x) && IsFinal(x), x => IsFinal(x) && IsLive(x));
  }

  /** The letters of `pattern` agree, up to case, with those of `text` from index `k` on. */
  ghost predicate MatchesAt(text: string, pattern: string, k: nat)
  {
    k + |pattern| <= |text| && forall i | 0 <= i < |pattern| :: Lower(text[k..][i]) == Lower(pattern[i])
  }

  lemma {:induction false} StartsMeansMatchAtZero(text: string, pattern: string)
    ensures StartsIgnoringCase(text, pattern) <==> MatchesAt(text, pattern, 0)
  {
    if pattern != [] && text != [] {
      StartsMeansMatchAtZero(text[1..], pattern[1..]);
      if MatchesAt(text, pattern, 0) {
        assert forall i | 0 <= i < |pattern| - 1 :: text[1..][i] == text[i + 1] && pattern[1..][i] == pattern[i + 1];
      }
    }
  }

  lemma {:induction false} MatchAtShift(text: string, pattern: string, k: nat)
    requires text != []
    ensures MatchesAt(text, pattern, k + 1) <==> MatchesAt(text[1..], pattern, k)
  {
    if k + 1 <= |text| {
      assert text[k + 1..] == text[1..][k..];
    }
  }

  /** The recursive search finds `pattern` exactly where its letters agree with the text's. */
  lemma {:induction false} ContainsMeansMatchSomewhere(text: string, pattern: string)
    ensures ContainsIgnoringCase(text, pattern) <==> exists k: nat :: MatchesAt(text, pattern, k)
  {
    StartsMeansMatchAtZero(text, pattern);
    if text != [] {
      ContainsMeansMatchSomewhere(text[1..], pattern);
      if exists k: nat :: MatchesAt(text, pattern, k) {
        var k: nat :| MatchesAt(text, pattern, k);
        if k > 0 {
          MatchAtShift(text, pattern, k - 1);
        }
      }
      if exists k: nat :: MatchesAt(text[1..], pattern, k) {
        var k: nat :| MatchesAt(text[1..], pattern, k);
        MatchAtShift(text, pattern, k);
      }
    } else if exists k: nat :: MatchesAt(text, pattern, k) {
      var k: nat :| MatchesAt(text, pattern, k);
      assert k == 0;
    }
  }

  /** In-progress statuses the upstream reports are live and not final. */
  lemma LiveStatuses()
    ensures IsLive(map[STATUS := Str("4th Qtr")]) && !IsFinal(map[STATUS := Str("4th Qtr")])
    ensures IsLive(map[STATUS := Str("Halftime")])
  {
    Found("4th Qtr", "Qtr", 4);
    Found("Halftime", "Half", 0);
    NotFound("4th Qtr", "Final");
  }

  /** "Final" matches whatever its case, and is not live. */
  lemma FinalStatus()
    ensures IsFinal(map[STATUS := Str("FINAL")]) && !IsLive(map[STATUS := Str("FINAL")])
  {
    Found("FINAL", "Final", 0);
    NotFound("FINAL", "Qtr");
    NotFound("FINAL", "Half");
  }

  /** A null status is rendered "None" and neither filter keeps it. */
  lemma NullStatus()
    ensures !IsLive(map[STATUS := Null]) && !IsFinal(map[STATUS := Null])
  {
    NotFound("None", "Qtr");
    NotFound("None", "Half");
    NotFound("None", "Final");
  }

  lemma Found(text: string, pattern: string, k: nat)
    requires MatchesAt(text, pattern, k)
    ensures ContainsIgnoringCase(text, pattern)
  {
    ContainsMeansMatchSomewhere(text, pattern);
  }

  lemma NotFound(text: string, pattern: string)
    requires pattern != []
    requires forall i | 0 <= i < |text| :: Lower(text[i]) != Lower(pattern[0])
    ensures !ContainsIgnoringCase(text, pattern)
  {
    ContainsMeansMatchSomewhere(text, pattern);
    forall k: nat ensures !MatchesAt(text, pattern, k) {
      if k + |pattern| <= |text| {
        assert text[k..][0] == text[k];
      }
    }
  }
}
