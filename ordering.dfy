/**
  `df.sort_values(["date", "tipoff_local"], ascending=True)`: rows ordered
  by date, then by local tipoff, strings compared as Python compares them,
  a missing value after every present one in its column.
*/
module Ordering {
  import opened Wrappers
  import opened Table

  /** Python's `<=` on `str`: code point by code point, a prefix before its extensions. */
  predicate StrLe(a: string, b: string)
  {
    a == [] || (b != [] && (a[0] < b[0] || (a[0] == b[0] && StrLe(a[1..], b[1..]))))
  }

  lemma {:induction false} StrLeTotal(a: string, b: string)
    ensures StrLe(a, b) || StrLe(b, a)
  {
    if a != [] && b != [] && a[0] == b[0] {
      StrLeTotal(a[1..], b[1..]);
    }
  }

  lemma {:induction false} StrLeAntisymmetric(a: string, b: string)
    requires StrLe(a, b) && StrLe(b, a)
    ensures a == b
  {
    if a != [] && b != [] {
      StrLeAntisymmetric(a[1..], b[1..]);
      assert a == [a[0]] + a[1..] && b == [b[0]] + b[1..];
    }
  }

  lemma {:induction false} StrLeTransitive(a: string, b: string, c: string)
    requires StrLe(a, b) && StrLe(b, c)
    ensures StrLe(a, c)
  {
    if a != [] && b != [] && c != [] && a[0] == b[0] == c[0] {
      StrLeTransitive(a[1..], b[1..], c[1..]);
    }
  }

  /** One sort column: values ascending, a missing value last (`na_position="last"`). */
  predicate CellLe(x: Option<string>, y: Option<string>)
  {
    y.None? || (x.Some? && StrLe(x.value, y.value))
  }

  datatype SortKey = SortKey(date: Option<string>, tipoff: Option<string>)

  function KeyOf(row: Row): SortKey
  {
    SortKey(StrCell(row, DATE), StrCell(row, TIPOFF_LOCAL))
  }

  /** The order of the two sort columns: by date, and by tipoff among equal dates. */
  predicate KeyLe(k: SortKey, l: SortKey)
  {
    if k.date == l.date then CellLe(k.tipoff, l.tipoff) else CellLe(k.date, l.date)
  }

  lemma CellLeTotal(x: Option<string>, y: Option<string>)
    ensures CellLe(x, y) || CellLe(y, x)
  {
    if x.Some? && y.Some? {
      StrLeTotal(x.value, y.value);
    }
  }

  lemma CellLeAntisymmetric(x: Option<string>, y: Option<string>)
    requires CellLe(x, y) && CellLe(y, x)
    ensures x == y
  {
    if x.Some? && y.Some? {
      StrLeAntisymmetric(x.value, y.value);
    }
  }

  lemma CellLeTransitive(x: Option<string>, y: Option<string>, z: Option<string>)
    requires CellLe(x, y) && CellLe(y, z)
    ensures CellLe(x, z)
  {
    if x.Some? && y.Some? && z.Some? {
      StrLeTransitive(x.value, y.value, z.value);
    }
  }

  /** Any two keys are ordered one way or the other. */
  lemma KeyLeTotal(k: SortKey, l: SortKey)
    ensures KeyLe(k, l) || KeyLe(l, k)
  {
    CellLeTotal(k.date, l.date);
    CellLeTotal(k.tipoff, l.tipoff);
  }

  lemma KeyLeTransitive(k: SortKey, l: SortKey, m: SortKey)
    requires KeyLe(k, l) && KeyLe(l, m)
    ensures KeyLe(k, m)
  {
    if k.date == l.date == m.date {
      CellLeTransitive(k.tipoff, l.tipoff, m.tipoff);
    } else if k.date != l.date && l.date != m.date {
      CellLeTransitive(k.date, l.date, m.date);
      if k.date == m.date {
        CellLeAntisymmetric(k.date, l.date);
      }
    }
  }

  ghost predicate Sorted(rows: seq<Row>)
  {
    forall i, j | 0 <= i < j < |rows| :: KeyLe(KeyOf(rows[i]), KeyOf(rows[j]))
  }

  /** `row` placed before the first row of `sorted` it does not follow. */
  function Insert(row: Row, sorted: seq<Row>): (r: seq<Row>)
    ensures multiset(r) == multiset(sorted) + multiset{row}
  {
    if sorted == [] then [row]
    else if KeyLe(KeyOf(row), KeyOf(sorted[0])) then [row] + sorted
    else
      assert sorted == [sorted[0]] + sorted[1..];
      [sorted[0]] + Insert(row, sorted[1..])
  }

  lemma {:induction false} InsertSorted(row: Row, sorted: seq<Row>)
    requires Sorted(sorted)
    ensures Sorted(Insert(row, sorted))
  {
    if sorted == [] {
    } else if KeyLe(KeyOf(row), KeyOf(sorted[0])) {
      var r := [row] + sorted;
      forall i, j | 0 <= i < j < |r| ensures KeyLe(KeyOf(r[i]), KeyOf(r[j])) {
        if i == 0 && j > 1 {
          KeyLeTransitive(KeyOf(row), KeyOf(sorted[0]), KeyOf(sorted[j - 1]));
        }
      }
    } else {
      var rest := Insert(row, sorted[1..]);
      InsertSorted(row, sorted[1..]);
      KeyLeTotal(KeyOf(row), KeyOf(sorted[0]));
      var r := [sorted[0]] + rest;
      forall i, j | 0 <= i < j < |r| ensures KeyLe(KeyOf(r[i]), KeyOf(r[j])) {
        if i == 0 {
          var x := rest[j - 1];
          assert x in multiset(rest);
          if x != row {
            assert x in multiset(sorted[1..]);
            var m :| 0 <= m < |sorted[1..]| && sorted[1..][m] == x;
            assert sorted[m + 1] == x;
          }
        }
      }
    }
  }

  /**
    The sort, by insertion: the result is ordered by date and tipoff and
    is a permutation of the rows.
  */
  function SortRows(rows: seq<Row>): (r: seq<Row>)
    ensures Sorted(r)
    ensures multiset(r) == multiset(rows)
  {
    if rows == [] then []
    else
      var rest := SortRows(rows[1..]);
      InsertSorted(rows[0], rest);
      assert rows == [rows[0]] + rows[1..];
      Insert(rows[0], rest)
  }
}
