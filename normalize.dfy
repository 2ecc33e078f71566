/**
 * The normalizer of `compare._process_dfs`: for one table, apply each
 * configured per-column transform, render every cell with `astype(str)`,
 * and sort by the join keys. A configured column or a join key that the
 * table does not have raises pandas' KeyError; the table then keeps the
 * transforms already applied to it.
 */
module Normalize {
  import opened Tables

  /** A user-supplied per-column function, passed to `Series.apply`. */
  type Transform = Cell -> Cell

  /** One table's configuration dict: (column, transform) entries in insertion order. */
  type ColumnConfig = seq<(string, Transform)>

  /** The state a normalizing step leaves behind: the table as it now is, and the KeyError if one was raised. */
  datatype Processed = Processed(table: Table, failure: Option<Error>)

  function MapColumn(row: Row, col: string, f: Transform): Row {
    if col in row then row[col := f(row[col])] else row
  }

  /** `df[col] = df[col].apply(f)` */
  function ApplyTransform(t: Table, col: string, f: Transform): Table {
    Table(t.columns, seq(|t.rows|, i requires 0 <= i < |t.rows| => MapColumn(t.rows[i], col, f)))
  }

  /** The configured transforms, one after the other; stops at the first column the table lacks. */
  function ApplyConfig(t: Table, cfg: ColumnConfig): Processed
    decreases |cfg|
  {
    if cfg == [] then Processed(t, None)
    else if cfg[0].0 !in t.columns then Processed(t, Some(MissingColumn(cfg[0].0)))
    else ApplyConfig(ApplyTransform(t, cfg[0].0, cfg[0].1), cfg[1..])
  }

  /** `astype(str)`: every cell, NaN included, becomes its text. */
  function Stringify(t: Table, toStr: Cell -> string): Table {
    Table(t.columns, seq(|t.rows|, i requires 0 <= i < |t.rows| =>
      map c | c in t.rows[i] :: Some(toStr(t.rows[i][c]))))
  }

  /** The first key, in key order, that is not a column label: the one `sort_values` reports. */
  function FirstMissing(keys: seq<string>, cols: seq<string>): (r: Option<string>)
    ensures r.None? <==> forall k | k in keys :: k in cols
    ensures r.Some? ==> r.value in keys && r.value !in cols
  {
    if keys == [] then None
    else if keys[0] !in cols then Some(keys[0])
    else FirstMissing(keys[1..], cols)
  }

  /**
   * One iteration of `_process_dfs`' outer loop: the transforms, then
   * `df.astype(str).sort_values(by = keys)`, whose KeyError leaves the
   * transformed table in place.
   */
  function ProcessTable(t: Table, cfg: ColumnConfig, keys: seq<string>, toStr: Cell -> string): Processed {
    var applied := ApplyConfig(t, cfg);
    if applied.failure.Some? then applied
    else match FirstMissing(keys, applied.table.columns)
      case Some(k) => Processed(applied.table, Some(MissingColumn(k)))
      case None =>
        var s := Stringify(applied.table, toStr);
        Processed(Table(s.columns, SortRows(s.rows, keys)), None)
  }

  /** The outcome of `_process_dfs` on all tables, in the dict's order: it stops at the first KeyError. */
  datatype Stage = Stage(tables: map<string, Table>, failure: Option<Error>)

  function ProcessAll(
    dfs: map<string, Table>, names: seq<string>, config: map<string, ColumnConfig>,
    keys: seq<string>, toStr: Cell -> string): Stage
    requires forall n | n in names :: n in dfs && n in config
    decreases |names|
  {
    if names == [] then Stage(dfs, None)
    else
      var p := ProcessTable(dfs[names[0]], config[names[0]], keys, toStr);
      var dfs' := dfs[names[0] := p.table];
      if p.failure.Some? then Stage(dfs', p.failure)
      else ProcessAll(dfs', names[1..], config, keys, toStr)
  }

  // ---------------------------------------------------------------------
  // Reference definitions: what a row becomes, cell by cell.
  // ---------------------------------------------------------------------

  /** The value of column `c` after every transform configured for `c`, in configuration order. */
  function Transformed(cfg: ColumnConfig, c: string, v: Cell): Cell
    decreases |cfg|
  {
    if cfg == [] then v
    else Transformed(cfg[1..], c, if cfg[0].0 == c then cfg[0].1(v) else v)
  }

  /** A row with the configured transforms applied and every cell rendered as text. */
  function NormalRow(row: Row, cfg: ColumnConfig, toStr: Cell -> string): Row {
    map c | c in row :: Some(toStr(Transformed(cfg, c, row[c])))
  }

  function NormalRows(rows: seq<Row>, cfg: ColumnConfig, toStr: Cell -> string): seq<Row> {
    seq(|rows|, i requires 0 <= i < |rows| => NormalRow(rows[i], cfg, toStr))
  }

  /** Every cell holds text (no NaN): true of every table `astype(str)` returns. */
  predicate AllText(t: Table) {
    forall i, c | 0 <= i < |t.rows| && c in t.rows[i] :: t.rows[i][c].Some?
  }

  // ---------------------------------------------------------------------
  // Lemmas
  // ---------------------------------------------------------------------

  /** Transforms rewrite cells, never labels or the number of rows; a rectangular table stays rectangular. */
  lemma {:induction false} ApplyConfigShape(t: Table, cfg: ColumnConfig)
    ensures ApplyConfig(t, cfg).table.columns == t.columns
    ensures |ApplyConfig(t, cfg).table.rows| == |t.rows|
    ensures WellFormed(t) ==> WellFormed(ApplyConfig(t, cfg).table)
    decreases |cfg|
  {
    if cfg != [] && cfg[0].0 in t.columns {
      var t' := ApplyTransform(t, cfg[0].0, cfg[0].1);
      ApplyConfigShape(t', cfg[1..]);
    }
  }

  /** `ApplyConfig` fails exactly when some configured column is not a label of the table. */
  lemma {:induction false} ApplyConfigFails(t: Table, cfg: ColumnConfig)
    ensures ApplyConfig(t, cfg).failure.None? <==> forall j | 0 <= j < |cfg| :: cfg[j].0 in t.columns
    ensures ApplyConfig(t, cfg).failure.Some? ==>
      exists j | 0 <= j < |cfg| :: cfg[j].0 !in t.columns && ApplyConfig(t, cfg).failure == Some(MissingColumn(cfg[j].0))
    decreases |cfg|
  {
    if cfg != [] && cfg[0].0 in t.columns {
      var t' := ApplyTransform(t, cfg[0].0, cfg[0].1);
      ApplyConfigFails(t', cfg[1..]);
      if ApplyConfig(t, cfg).failure.Some? {
        var j :| 0 <= j < |cfg[1..]| && cfg[1..][j].0 !in t'.columns
          && ApplyConfig(t', cfg[1..]).failure == Some(MissingColumn(cfg[1..][j].0));
        assert cfg[j + 1] == cfg[1..][j];
      } else {
        forall j | 0 <= j < |cfg| ensures cfg[j].0 in t.columns {
          if j > 0 { assert cfg[j] == cfg[1..][j - 1]; }
        }
      }
    }
  }

  /** On success, each row of `ApplyConfig` holds, under every label, the transformed original cell. */
  lemma {:induction false} ApplyConfigRows(t: Table, cfg: ColumnConfig, i: int)
    requires 0 <= i < |t.rows|
    requires ApplyConfig(t, cfg).failure.None?
    ensures i < |ApplyConfig(t, cfg).table.rows|
    ensures ApplyConfig(t, cfg).table.rows[i] == map c | c in t.rows[i] :: Transformed(cfg, c, t.rows[i][c])
    decreases |cfg|
  {
    ApplyConfigShape(t, cfg);
    if cfg == [] {
      assert (map c | c in t.rows[i] :: t.rows[i][c]) == t.rows[i];
    } else {
      var t' := ApplyTransform(t, cfg[0].0, cfg[0].1);
      ApplyConfigRows(t', cfg[1..], i);
      var row := t.rows[i];
      var row' := t'.rows[i];
      assert row' == MapColumn(row, cfg[0].0, cfg[0].1);
      assert row'.Keys == row.Keys;
      var lhs := map c | c in row' :: Transformed(cfg[1..], c, row'[c]);
      var rhs := map c | c in row :: Transformed(cfg, c, row[c]);
      forall c | c in row ensures lhs[c] == rhs[c] {
        if c == cfg[0].0 {
          assert row'[c] == cfg[0].1(row[c]);
        } else {
          assert row'[c] == row[c];
        }
      }
      assert lhs == rhs;
    }
  }

  /**
   * `_process_dfs` on one table fails, with a KeyError, exactly when a
   * configured column or a join key is not one of its labels; on success the
   * labels are unchanged, the rows are the normalized input rows (same
   * multiset), they are in ascending key order, all cells are text, and with
   * no join keys the row order is the input order.
   */
  lemma ProcessTableSpec(t: Table, cfg: ColumnConfig, keys: seq<string>, toStr: Cell -> string)
    ensures var p := ProcessTable(t, cfg, keys, toStr);
      && (p.failure.None? <==>
           (forall j | 0 <= j < |cfg| :: cfg[j].0 in t.columns) && (forall k | k in keys :: k in t.columns))
      && (p.failure.Some? ==> p.failure.value.MissingColumn? && p.table == ApplyConfig(t, cfg).table)
      && p.table.columns == t.columns
      && (WellFormed(t) ==> WellFormed(p.table))
      && (p.failure.None? ==>
           && multiset(p.table.rows) == multiset(NormalRows(t.rows, cfg, toStr))
           && SortedBy(p.table.rows, keys)
           && AllText(p.table)
           && (keys == [] ==> p.table.rows == NormalRows(t.rows, cfg, toStr)))
  {
    ApplyConfigShape(t, cfg);
    ApplyConfigFails(t, cfg);
    var applied := ApplyConfig(t, cfg);
    if applied.failure.None? && FirstMissing(keys, applied.table.columns).None? {
      var s := Stringify(applied.table, toStr);
      StringifyNormal(t, cfg, toStr);
      SortRowsPermutation(s.rows, keys);
      SortRowsSorted(s.rows, keys);
      if keys == [] {
        SortRowsNoKeys(s.rows);
      }
      SortedTableShape(s, keys);
    }
  }

  /** On success, rendering the transformed table gives the reference rows. */
  lemma StringifyNormal(t: Table, cfg: ColumnConfig, toStr: Cell -> string)
    requires ApplyConfig(t, cfg).failure.None?
    ensures Stringify(ApplyConfig(t, cfg).table, toStr).rows == NormalRows(t.rows, cfg, toStr)
  {
    ApplyConfigShape(t, cfg);
    var s := Stringify(ApplyConfig(t, cfg).table, toStr);
    forall i | 0 <= i < |t.rows| ensures s.rows[i] == NormalRow(t.rows[i], cfg, toStr) {
      ApplyConfigRows(t, cfg, i);
    }
  }

  /** Sorting a rendered table keeps every cell text, and keeps it rectangular. */
  lemma SortedTableShape(s: Table, keys: seq<string>)
    requires forall i, c | 0 <= i < |s.rows| && c in s.rows[i] :: s.rows[i][c].Some?
    ensures AllText(Table(s.columns, SortRows(s.rows, keys)))
    ensures WellFormed(s) ==> WellFormed(Table(s.columns, SortRows(s.rows, keys)))
  {
    var sorted: seq<Row> := SortRows(s.rows, keys);
    SortRowsPermutation(s.rows, keys);
    forall i, c: string | 0 <= i < |sorted| && c in sorted[i] ensures sorted[i][c].Some? {
      assert sorted[i] in multiset(s.rows);
    }
    if WellFormed(s) {
      forall i | 0 <= i < |sorted| ensures sorted[i].Keys == ColumnSet(s) {
        assert sorted[i] in multiset(s.rows);
      }
    }
  }

  /** `_process_dfs` replaces tables in place: the same names, each with the same labels and still rectangular. */
  lemma {:induction false} ProcessAllShape(
    dfs: map<string, Table>, names: seq<string>, config: map<string, ColumnConfig>,
    keys: seq<string>, toStr: Cell -> string)
    requires forall n | n in names :: n in dfs && n in config
    ensures var s := ProcessAll(dfs, names, config, keys, toStr);
      && s.tables.Keys == dfs.Keys
      && forall n | n in dfs :: s.tables[n].columns == dfs[n].columns && (WellFormed(dfs[n]) ==> WellFormed(s.tables[n]))
    decreases |names|
  {
    if names != [] {
      var p := ProcessTable(dfs[names[0]], config[names[0]], keys, toStr);
      ProcessTableSpec(dfs[names[0]], config[names[0]], keys, toStr);
      var dfs' := dfs[names[0] := p.table];
      if p.failure.None? {
        ProcessAllShape(dfs', names[1..], config, keys, toStr);
      }
    }
  }

  /**
   * `_process_dfs` read table by table: it succeeds exactly when every
   * table's own normalization does; a table it did not reach is untouched;
   * on success every table is its own normalized version; a failure is a
   * KeyError.
   */
  lemma {:induction false} ProcessAllOutcome(
    dfs: map<string, Table>, names: seq<string>, config: map<string, ColumnConfig>,
    keys: seq<string>, toStr: Cell -> string)
    requires forall n | n in names :: n in dfs && n in config
    requires Distinct(names)
    ensures var s := ProcessAll(dfs, names, config, keys, toStr);
      && (s.failure.None? <==> forall n | n in names :: ProcessTable(dfs[n], config[n], keys, toStr).failure.None?)
      && (s.failure.Some? ==> s.failure.value.MissingColumn?)
      && (forall n | n in dfs && n !in names :: n in s.tables && s.tables[n] == dfs[n])
      && (s.failure.None? ==>
           forall n | n in names :: n in s.tables && s.tables[n] == ProcessTable(dfs[n], config[n], keys, toStr).table)
    decreases |names|
  {
    if names != [] {
      var n0 := names[0];
      var p := ProcessTable(dfs[n0], config[n0], keys, toStr);
      ProcessTableSpec(dfs[n0], config[n0], keys, toStr);
      var dfs' := dfs[n0 := p.table];
      assert forall n | n in names :: n == n0 || n in names[1..] by {
        assert names == [n0] + names[1..];
      }
      assert n0 !in names[1..] by {
        forall j | 0 <= j < |names[1..]| ensures names[1..][j] != n0 {
          assert names[1..][j] == names[j + 1];
        }
      }
      if p.failure.None? {
        assert Distinct(names[1..]) by {
          forall i, j | 0 <= i < j < |names[1..]| ensures names[1..][i] != names[1..][j] {
            assert names[1..][i] == names[i + 1] && names[1..][j] == names[j + 1];
          }
        }
        ProcessAllOutcome(dfs', names[1..], config, keys, toStr);
        assert forall n | n in names[1..] :: dfs'[n] == dfs[n];
      }
    }
  }

  /**
   * `_process_dfs` when the table `names[j]` is the first whose normalization
   * raises: that KeyError is the outcome, that table keeps what was done to it
   * before the error, the tables before it are normalized, and the tables
   * after it are as they were.
   */
  lemma {:induction false} ProcessAllFailure(
    dfs: map<string, Table>, names: seq<string>, config: map<string, ColumnConfig>,
    keys: seq<string>, toStr: Cell -> string, j: int)
    requires forall n | n in names :: n in dfs && n in config
    requires Distinct(names)
    requires 0 <= j < |names|
    requires forall i | 0 <= i < j :: ProcessTable(dfs[names[i]], config[names[i]], keys, toStr).failure.None?
    requires ProcessTable(dfs[names[j]], config[names[j]], keys, toStr).failure.Some?
    ensures var s := ProcessAll(dfs, names, config, keys, toStr);
      && s.failure == ProcessTable(dfs[names[j]], config[names[j]], keys, toStr).failure
      && (forall i | 0 <= i <= j ::
           names[i] in s.tables && s.tables[names[i]] == ProcessTable(dfs[names[i]], config[names[i]], keys, toStr).table)
      && (forall i | j < i < |names| :: names[i] in s.tables && s.tables[names[i]] == dfs[names[i]])
    decreases |names|
  {
    var n0 := names[0];
    var p := ProcessTable(dfs[n0], config[n0], keys, toStr);
    var dfs' := dfs[n0 := p.table];
    var tail := names[1..];
    forall i | 0 < i < |names| ensures names[i] != n0 && tail[i - 1] == names[i] {
    }
    if j > 0 {
      assert Distinct(tail) by {
        forall a, b | 0 <= a < b < |tail| ensures tail[a] != tail[b] {
          assert tail[a] == names[a + 1] && tail[b] == names[b + 1];
        }
      }
      assert n0 !in tail by {
        forall a | 0 <= a < |tail| ensures tail[a] != n0 {
          assert tail[a] == names[a + 1];
        }
      }
      ProcessAllFailure(dfs', tail, config, keys, toStr, j - 1);
      ProcessAllOutcome(dfs', tail, config, keys, toStr);
    }
  }
}
