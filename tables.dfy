/**
 * Tables as the reconciliation engine sees them: a data frame is an ordered
 * list of column labels and a sequence of rows, each row mapping every label
 * to a cell. A cell is a value or None, which stands for pandas' NaN (the
 * padding an outer join puts on the absent side).
 *
 * This module also holds the ascending sort by join keys that
 * `DataFrame.sort_values(by = join_on)` performs, with its order and
 * permutation lemmas.
 */
module Tables {

  datatype Option<+T> = None | Some(value: T)

  datatype Result<+T, +E> = Success(value: T) | Failure(error: E)

  /** The failures the engine raises (Python assertions and pandas' KeyError). */
  datatype Error =
    | NotTwoTables          // the constructor's `len(df_dict) == 2` assertion
    | UnknownConfigKeys     // `set_config`: a key that is not a table name
    | MissingColumn(column: string)  // pandas' KeyError for an absent column
    | NotRun                // `save_as_excel` before `run`
    | NotXlsx               // `save_as_excel` with a file name not ending in `.xlsx`
    | ColumnOutOfRange      // IndexError: a column position past the 702 names ranges are built from

  /** A cell: `Some(text)` for a value, `None` for NaN. */
  type Cell = Option<string>

  type Row = map<string, Cell>

  /** A data frame: column labels in order, and its rows. */
  datatype Table = Table(columns: seq<string>, rows: seq<Row>)

  function ColumnSet(t: Table): set<string> {
    set c | c in t.columns
  }

  predicate Distinct<T(==)>(s: seq<T>) {
    forall i, j | 0 <= i < j < |s| :: s[i] != s[j]
  }

  /** A rectangular frame: labels are distinct and every row has exactly these labels. */
  predicate WellFormed(t: Table) {
    && Distinct(t.columns)
    && forall i | 0 <= i < |t.rows| :: t.rows[i].Keys == ColumnSet(t)
  }

  /** The cell of `row` under `c`; NaN when the row has no such column. */
  function Get(row: Row, c: string): Cell {
    if c in row then row[c] else None
  }

  /** A prefix one element longer is the prefix with that element appended. */
  lemma TakeSnoc<T>(s: seq<T>, k: nat)
    requires k < |s|
    ensures s[..k + 1] == s[..k] + [s[k]]
  {
  }

  /** The join-key tuple of a row, one cell per key, in key order. */
  function KeyOf(row: Row, keys: seq<string>): seq<Cell> {
    seq(|keys|, i requires 0 <= i < |keys| => Get(row, keys[i]))
  }

  // ---------------------------------------------------------------------
  // Ordering: Python compares strings code point by code point; NaN sorts
  // last (pandas' default na_position). Key tuples compare lexicographically.
  // ---------------------------------------------------------------------

  predicate StrLe(a: string, b: string)
    decreases |a|
  {
    a == [] || (b != [] && (a[0] < b[0] || (a[0] == b[0] && StrLe(a[1..], b[1..]))))
  }

  predicate CellLe(x: Cell, y: Cell) {
    y.None? || (x.Some? && StrLe(x.value, y.value))
  }

  predicate KeyLe(a: seq<Cell>, b: seq<Cell>)
    decreases |a|
  {
    || a == []
    || b == []
    || (a[0] != b[0] && CellLe(a[0], b[0]))
    || (a[0] == b[0] && KeyLe(a[1..], b[1..]))
  }

  lemma {:induction false} StrLeTotal(a: string, b: string)
    ensures StrLe(a, b) || StrLe(b, a)
    decreases |a|
  {
    if a != [] && b != [] && a[0] == b[0] {
      StrLeTotal(a[1..], b[1..]);
    }
  }

  lemma {:induction false} StrLeAntisymmetric(a: string, b: string)
    requires StrLe(a, b) && StrLe(b, a)
    ensures a == b
    decreases |a|
  {
    if a != [] {
      StrLeAntisymmetric(a[1..], b[1..]);
      assert a == [a[0]] + a[1..];
      assert b == [b[0]] + b[1..];
    }
  }

  lemma {:induction false} StrLeTransitive(a: string, b: string, c: string)
    requires StrLe(a, b) && StrLe(b, c)
    ensures StrLe(a, c)
    decreases |a|
  {
    if a != [] && a[0] == b[0] && b[0] == c[0] {
      StrLeTransitive(a[1..], b[1..], c[1..]);
    }
  }

  lemma CellLeTotal(x: Cell, y: Cell)
    ensures CellLe(x, y) || CellLe(y, x)
  {
    if x.Some? && y.Some? {
      StrLeTotal(x.value, y.value);
    }
  }

  lemma CellLeAntisymmetric(x: Cell, y: Cell)
    requires CellLe(x, y) && CellLe(y, x)
    ensures x == y
  {
    if x.Some? && y.Some? {
      StrLeAntisymmetric(x.value, y.value);
    }
  }

  lemma CellLeTransitive(x: Cell, y: Cell, z: Cell)
    requires CellLe(x, y) && CellLe(y, z)
    ensures CellLe(x, z)
  {
    if x.Some? && y.Some? && z.Some? {
      StrLeTransitive(x.value, y.value, z.value);
    }
  }

  lemma {:induction false} KeyLeTotal(a: seq<Cell>, b: seq<Cell>)
    requires |a| == |b|
    ensures KeyLe(a, b) || KeyLe(b, a)
    decreases |a|
  {
    if a != [] {
      if a[0] == b[0] {
        KeyLeTotal(a[1..], b[1..]);
      } else {
        CellLeTotal(a[0], b[0]);
      }
    }
  }

  lemma {:induction false} KeyLeTransitive(a: seq<Cell>, b: seq<Cell>, c: seq<Cell>)
    requires |a| == |b| == |c|
    requires KeyLe(a, b) && KeyLe(b, c)
    ensures KeyLe(a, c)
    decreases |a|
  {
    if a != [] {
      if a[0] == b[0] && b[0] == c[0] {
        KeyLeTransitive(a[1..], b[1..], c[1..]);
      } else if a[0] == b[0] {
        assert CellLe(b[0], c[0]);
      } else if b[0] == c[0] {
        assert CellLe(a[0], b[0]);
      } else {
        CellLeTransitive(a[0], b[0], c[0]);
        if a[0] == c[0] {
          CellLeAntisymmetric(b[0], c[0]);
        }
      }
    }
  }

  // ---------------------------------------------------------------------
  // Sorting rows by their join keys, ascending.
  // ---------------------------------------------------------------------

  predicate SortedBy(rows: seq<Row>, keys: seq<string>) {
    forall i, j | 0 <= i < j < |rows| :: KeyLe(KeyOf(rows[i], keys), KeyOf(rows[j], keys))
  }

  function Insert(r: Row, sorted: seq<Row>, keys: seq<string>): seq<Row> {
    if sorted == [] then [r]
    else if KeyLe(KeyOf(r, keys), KeyOf(sorted[0], keys)) then [r] + sorted
    else [sorted[0]] + Insert(r, sorted[1..], keys)
  }

  /** `sort_values(by = keys)`: rows in ascending key order; ties keep their input order. */
  function SortRows(rows: seq<Row>, keys: seq<string>): seq<Row> {
    if rows == [] then [] else Insert(rows[0], SortRows(rows[1..], keys), keys)
  }

  lemma {:induction false} InsertPermutation(r: Row, sorted: seq<Row>, keys: seq<string>)
    ensures multiset(Insert(r, sorted, keys)) == multiset(sorted) + multiset{r}
    decreases |sorted|
  {
    if sorted != [] && !KeyLe(KeyOf(r, keys), KeyOf(sorted[0], keys)) {
      InsertPermutation(r, sorted[1..], keys);
      assert sorted == [sorted[0]] + sorted[1..];
    }
  }

  lemma {:induction false} InsertSorted(r: Row, sorted: seq<Row>, keys: seq<string>)
    requires SortedBy(sorted, keys)
    ensures SortedBy(Insert(r, sorted, keys), keys)
    decreases |sorted|
  {
    if sorted == [] {
    } else if KeyLe(KeyOf(r, keys), KeyOf(sorted[0], keys)) {
      var s := [r] + sorted;
      forall i, j | 0 <= i < j < |s|
        ensures KeyLe(KeyOf(s[i], keys), KeyOf(s[j], keys))
      {
        if i == 0 && j > 1 {
          KeyLeTransitive(KeyOf(r, keys), KeyOf(sorted[0], keys), KeyOf(sorted[j - 1], keys));
        }
      }
    } else {
      var head := sorted[0];
      var tail := Insert(r, sorted[1..], keys);
      InsertSorted(r, sorted[1..], keys);
      InsertPermutation(r, sorted[1..], keys);
      KeyLeTotal(KeyOf(r, keys), KeyOf(head, keys));
      var s := [head] + tail;
      forall i, j | 0 <= i < j < |s|
        ensures KeyLe(KeyOf(s[i], keys), KeyOf(s[j], keys))
      {
        if i == 0 {
          var x := s[j];
          assert x in multiset(tail);
          if x != r {
            assert x in multiset(sorted[1..]);
            var k :| 0 <= k < |sorted[1..]| && sorted[1..][k] == x;
            assert sorted[k + 1] == x;
          }
        }
      }
    }
  }

  /** The sort returns the same rows (as a multiset). */
  lemma {:induction false} SortRowsPermutation(rows: seq<Row>, keys: seq<string>)
    ensures multiset(SortRows(rows, keys)) == multiset(rows)
    decreases |rows|
  {
    if rows != [] {
      SortRowsPermutation(rows[1..], keys);
      InsertPermutation(rows[0], SortRows(rows[1..], keys), keys);
      assert rows == [rows[0]] + rows[1..];
    }
  }

  /** The sort returns its rows in ascending key order. */
  lemma {:induction false} SortRowsSorted(rows: seq<Row>, keys: seq<string>)
    ensures SortedBy(SortRows(rows, keys), keys)
    decreases |rows|
  {
    if rows != [] {
      SortRowsSorted(rows[1..], keys);
      InsertSorted(rows[0], SortRows(rows[1..], keys), keys);
    }
  }

  /** With no join keys every pair of rows ties, so the order is left unchanged. */
  lemma {:induction false} SortRowsNoKeys(rows: seq<Row>)
    ensures SortRows(rows, []) == rows
    decreases |rows|
  {
    if rows != [] {
      SortRowsNoKeys(rows[1..]);
      assert KeyOf(rows[0], []) == [];
      assert rows == [rows[0]] + rows[1..];
    }
  }
}
