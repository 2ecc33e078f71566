/**
 * The cell comparator and the verdict of `compare`: `_fill_func` collapses
 * the two temporaries `c_df1` and `c_df2` of a shared non-key column into a
 * single column `c`, writing the conflict marker `x <-L | R-> y` where the
 * values differ, and `run` derives the status from three row counts.
 */
module CellCompare {
  import opened Tables
  import opened Alignment

  /** How Python formats NaN inside an f-string. */
  const NanText := "nan"

  const StatusOk := "OK"
  const StatusNotOk := "NOT OK"

  function Render(c: Cell): string {
    if c.Some? then c.value else NanText
  }

  /** Python's `x == y` on two cells: text is compared exactly, and NaN equals nothing, not even NaN. */
  predicate CellsEqual(x: Cell, y: Cell) {
    x.Some? && y.Some? && x.value == y.value
  }

  /** `' <-{} | {}-> '.format(*df_dict)`: the separator built from the two table names, in dict order. */
  function SplitString(leftName: string, rightName: string): string {
    " <-" + leftName + " | " + rightName + "-> "
  }

  /** The value `_fill_func(x, y, col)` returns: `x` when equal, else the conflict marker. */
  function FillValue(x: Cell, y: Cell, sep: string): Cell {
    if CellsEqual(x, y) then x else Some(Render(x) + sep + Render(y))
  }

  /** Does `s` occur in `t` as a contiguous piece? (Python's `s in t`.) */
  predicate Contains(t: string, s: string) {
    exists i | 0 <= i <= |t| - |s| :: OccursAt(t, s, i)
  }

  predicate OccursAt(t: string, s: string, i: int)
    requires 0 <= i <= |t| - |s|
  {
    t[i..i + |s|] == s
  }

  /**
   * When neither value's text contains the separator, the collapsed cell
   * contains the separator exactly when the two values differ; a marker
   * starts with the left value's text and ends with the right value's.
   */
  lemma MarkerIffConflict(x: Cell, y: Cell, sep: string)
    requires !Contains(Render(x), sep) && !Contains(Render(y), sep)
    ensures FillValue(x, y, sep).Some?
    ensures Contains(FillValue(x, y, sep).value, sep) <==> !CellsEqual(x, y)
    ensures !CellsEqual(x, y) ==>
      var v := FillValue(x, y, sep).value;
      && v[..|Render(x)|] == Render(x)
      && v[|v| - |Render(y)|..] == Render(y)
  {
    if !CellsEqual(x, y) {
      var v := Render(x) + sep + Render(y);
      assert OccursAt(v, sep, |Render(x)|);
    } else {
      assert FillValue(x, y, sep) == x;
    }
  }

  // ---------------------------------------------------------------------
  // Collapsing the temporaries of one column, then of several
  // ---------------------------------------------------------------------

  /** `df_new[c] = df_new.apply(... _fill_func(i['c_df1'], i['c_df2'], c) ...)` then the drop, on one row. */
  function CollapseRow(m: MRow, c: string, sep: string): MRow {
    var x, y := Lookup(m, Suffixed(c, Df1)), Lookup(m, Suffixed(c, Df2));
    (m - {Suffixed(c, Df1), Suffixed(c, Df2)})[Col(c) := FillValue(x, y, sep)]
  }

  /** `df_new.drop(['c_df1', 'c_df2'], axis = 1)` on the label list. */
  function DropTemps(labels: seq<Label>, c: string): seq<Label> {
    if labels == [] then []
    else (if labels[0] in {Suffixed(c, Df1), Suffixed(c, Df2)} then [] else [labels[0]]) + DropTemps(labels[1..], c)
  }

  /** One iteration of `_comp`'s loop: the new column `c` is appended, the two temporaries dropped. */
  function CollapseColumn(t: Merged, c: string, sep: string): Merged {
    Merged(DropTemps(t.labels + [Col(c)], c), seq(|t.rows|, i requires 0 <= i < |t.rows| => CollapseRow(t.rows[i], c, sep)))
  }

  /** `_comp`'s loop after the columns `cols`, in that order. */
  function CollapsePrefix(t: Merged, cols: seq<string>, sep: string): Merged
    decreases |cols|
  {
    if cols == [] then t
    else CollapseColumn(CollapsePrefix(t, cols[..|cols| - 1], sep), cols[|cols| - 1], sep)
  }

  /** The two values of `c` in a merged row differ (Python's `x == y` is False). */
  predicate Differs(m: MRow, c: string) {
    !CellsEqual(Lookup(m, Suffixed(c, Df1)), Lookup(m, Suffixed(c, Df2)))
  }

  /** How many of `rows` have differing values for `c`. */
  function ConflictCount(rows: seq<MRow>, c: string): nat
    decreases |rows|
  {
    if rows == [] then 0
    else ConflictCount(rows[..|rows| - 1], c) + (if Differs(rows[|rows| - 1], c) then 1 else 0)
  }

  /** Line 94-95: OK exactly when the set of the three row counts is {1}. */
  function StatusOf(left: int, right: int, result: int): (s: string)
    ensures s == StatusOk <==> left == 1 && right == 1 && result == 1
    ensures s == StatusOk || s == StatusNotOk
  {
    if {left, right, result} == {1} then StatusOk
    else
      assert left in {left, right, result};
      assert right in {left, right, result};
      assert result in {left, right, result};
      StatusNotOk
  }

  /** Equal counts other than one still give NOT OK: the rule looks at the set of counts and at nothing else. */
  lemma StatusIgnoresAgreement()
    ensures StatusOf(2, 2, 2) == StatusNotOk
    ensures StatusOf(0, 0, 0) == StatusNotOk
    ensures StatusOf(1, 1, 2) == StatusNotOk
    ensures StatusOf(1, 1, 1) == StatusOk
  {
  }

  // ---------------------------------------------------------------------
  // Lemmas about collapsing and counting
  // ---------------------------------------------------------------------

  /**
   * The loop leaves every other label alone: the join keys, the columns only
   * one table has, `_merge`, and the temporaries of columns not collapsed
   * keep, row by row, whether they are present and what they hold.
   */
  lemma {:induction false} CollapsePrefixOthers(t: Merged, cols: seq<string>, sep: string, l: Label, i: int)
    requires l.Indicator? || l.name !in cols
    requires 0 <= i < |t.rows|
    ensures |CollapsePrefix(t, cols, sep).rows| == |t.rows|
    ensures l in CollapsePrefix(t, cols, sep).rows[i] <==> l in t.rows[i]
    ensures Lookup(CollapsePrefix(t, cols, sep).rows[i], l) == Lookup(t.rows[i], l)
    decreases |cols|
  {
    if cols != [] {
      var pre := cols[..|cols| - 1];
      assert cols == pre + [cols[|cols| - 1]];
      CollapsePrefixOthers(t, pre, sep, l, i);
    }
  }

  lemma CollapsePrefixRows(t: Merged, cols: seq<string>, sep: string)
    ensures |CollapsePrefix(t, cols, sep).rows| == |t.rows|
    decreases |cols|
  {
    if cols != [] {
      CollapsePrefixRows(t, cols[..|cols| - 1], sep);
    }
  }

  /** Counting conflicts only looks at the two temporaries of the column. */
  lemma {:induction false} ConflictCountSame(a: seq<MRow>, b: seq<MRow>, c: string)
    requires |a| == |b|
    requires forall i | 0 <= i < |a| ::
      Lookup(a[i], Suffixed(c, Df1)) == Lookup(b[i], Suffixed(c, Df1)) &&
      Lookup(a[i], Suffixed(c, Df2)) == Lookup(b[i], Suffixed(c, Df2))
    ensures ConflictCount(a, c) == ConflictCount(b, c)
    decreases |a|
  {
    if a != [] {
      ConflictCountSame(a[..|a| - 1], b[..|b| - 1], c);
    }
  }

  /** The loop's next step: collapsing one more column. */
  lemma CollapsePrefixSnoc(t: Merged, cols: seq<string>, c: string, sep: string)
    ensures CollapsePrefix(t, cols + [c], sep) == CollapseColumn(CollapsePrefix(t, cols, sep), c, sep)
  {
    assert (cols + [c])[..|cols|] == cols;
  }

  /** Collapsing other columns first does not change how many conflicts column `x` has. */
  lemma CollapsePrefixCount(t: Merged, cols: seq<string>, sep: string, x: string)
    requires x !in cols
    ensures ConflictCount(CollapsePrefix(t, cols, sep).rows, x) == ConflictCount(t.rows, x)
  {
    var c := CollapsePrefix(t, cols, sep);
    CollapsePrefixRows(t, cols, sep);
    forall i | 0 <= i < |t.rows|
      ensures Lookup(c.rows[i], Suffixed(x, Df1)) == Lookup(t.rows[i], Suffixed(x, Df1))
      ensures Lookup(c.rows[i], Suffixed(x, Df2)) == Lookup(t.rows[i], Suffixed(x, Df2))
    {
      CollapsePrefixOthers(t, cols, sep, Suffixed(x, Df1), i);
      CollapsePrefixOthers(t, cols, sep, Suffixed(x, Df2), i);
    }
    ConflictCountSame(c.rows, t.rows, x);
  }

  /**
   * After the whole loop, every column in `cols` holds in each row what
   * `_fill_func` returned for that row's two temporaries, and the
   * temporaries are gone from the row.
   */
  lemma {:induction false} CollapsePrefixCells(t: Merged, cols: seq<string>, sep: string, c: string, i: int)
    requires Distinct(cols) && c in cols
    requires 0 <= i < |t.rows|
    ensures |CollapsePrefix(t, cols, sep).rows| == |t.rows|
    ensures var row := CollapsePrefix(t, cols, sep).rows[i];
      && Col(c) in row
      && row[Col(c)] == FillValue(Lookup(t.rows[i], Suffixed(c, Df1)), Lookup(t.rows[i], Suffixed(c, Df2)), sep)
      && Suffixed(c, Df1) !in row && Suffixed(c, Df2) !in row
    decreases |cols|
  {
    var n := |cols|;
    var pre := cols[..n - 1];
    CollapsePrefixRows(t, cols, sep);
    CollapsePrefixRows(t, pre, sep);
    if cols[n - 1] == c {
      assert c !in pre by {
        forall j | 0 <= j < n - 1 ensures pre[j] != c {
          assert pre[j] == cols[j];
        }
      }
      CollapsePrefixOthers(t, pre, sep, Suffixed(c, Df1), i);
      CollapsePrefixOthers(t, pre, sep, Suffixed(c, Df2), i);
    } else {
      assert c in pre by {
        var j :| 0 <= j < n && cols[j] == c;
        assert j < n - 1 && pre[j] == c;
      }
      assert Distinct(pre) by {
        forall a, b | 0 <= a < b < |pre| ensures pre[a] != pre[b] {
          assert pre[a] == cols[a] && pre[b] == cols[b];
        }
      }
      CollapsePrefixCells(t, pre, sep, c, i);
    }
  }

  lemma {:induction false} DropTempsSet(labels: seq<Label>, c: string)
    ensures forall l :: l in DropTemps(labels, c) <==> l in labels && l != Suffixed(c, Df1) && l != Suffixed(c, Df2)
    decreases |labels|
  {
    if labels != [] {
      DropTempsSet(labels[1..], c);
      forall l ensures l in labels <==> l == labels[0] || l in labels[1..] {
        assert labels == [labels[0]] + labels[1..];
      }
    }
  }

  /** Which labels the loop leaves: the temporaries of the columns done are replaced by one column each. */
  lemma {:induction false} CollapsePrefixLabels(t: Merged, cols: seq<string>, sep: string)
    ensures forall l :: l in CollapsePrefix(t, cols, sep).labels <==>
      if l.Suffixed? then l in t.labels && l.name !in cols
      else l in t.labels || (l.Col? && l.name in cols)
    decreases |cols|
  {
    if cols != [] {
      var n := |cols|;
      var pre := cols[..n - 1];
      CollapsePrefixLabels(t, pre, sep);
      var x := cols[n - 1];
      var prev := CollapsePrefix(t, pre, sep);
      DropTempsSet(prev.labels + [Col(x)], x);
      forall s: string ensures s in cols <==> s in pre || s == x {
        assert cols == pre + [x];
      }
      forall l ensures l in CollapsePrefix(t, cols, sep).labels <==>
        if l.Suffixed? then l in t.labels && l.name !in cols
        else l in t.labels || (l.Col? && l.name in cols)
      {
        assert l in prev.labels + [Col(x)] <==> l in prev.labels || l == Col(x);
        if l.Suffixed? {
          assert l == Suffixed(l.name, l.side);
          assert l.side == Df1 || l.side == Df2;
        }
      }
    }
  }

  /** A conflict count is the number of rows whose `c` is a marker (a conflict recorded row by row). */
  lemma {:induction false} ConflictCountBounds(rows: seq<MRow>, c: string)
    ensures ConflictCount(rows, c) <= |rows|
    ensures (forall i | 0 <= i < |rows| :: Differs(rows[i], c)) ==> ConflictCount(rows, c) == |rows|
    ensures (forall i | 0 <= i < |rows| :: !Differs(rows[i], c)) ==> ConflictCount(rows, c) == 0
    decreases |rows|
  {
    if rows != [] {
      ConflictCountBounds(rows[..|rows| - 1], c);
    }
  }

  /** The rows of a merged frame that came from one table only. */
  function OneSidedCount(rows: seq<MRow>): nat
    decreases |rows|
  {
    if rows == [] then 0
    else OneSidedCount(rows[..|rows| - 1]) + (if Lookup(rows[|rows| - 1], Indicator) != Some(BothTag) then 1 else 0)
  }

  /** The rows both tables contributed whose values for `c` differ. */
  function BothConflicts(rows: seq<MRow>, c: string): nat
    decreases |rows|
  {
    if rows == [] then 0
    else
      var m := rows[|rows| - 1];
      BothConflicts(rows[..|rows| - 1], c) + (if Lookup(m, Indicator) == Some(BothTag) && Differs(m, c) then 1 else 0)
  }

  /** When every one-sided row conflicts, the count splits into one-sided rows plus differing matched rows. */
  lemma {:induction false} ConflictCountSplit(rows: seq<MRow>, c: string)
    requires forall i | 0 <= i < |rows| :: Lookup(rows[i], Indicator) != Some(BothTag) ==> Differs(rows[i], c)
    ensures ConflictCount(rows, c) == OneSidedCount(rows) + BothConflicts(rows, c)
    decreases |rows|
  {
    if rows != [] {
      ConflictCountSplit(rows[..|rows| - 1], c);
    }
  }

  /** A merged row only one table contributed has NaN on the other side, so it is a conflict in every inner column. */
  lemma OneSidedRowConflicts(m: MRow, left: seq<Row>, right: seq<Row>, js: JoinShape, c: string)
    requires c in js.inner && c in js.left && c in js.right && c !in js.keys
    requires JoinRow(m, left, right, js)
    requires Lookup(m, Indicator) != Some(BothTag)
    ensures Differs(m, c)
  {
    if exists lr | lr in left :: m == LeftOnlyRow(lr, js) {
      var lr :| lr in left && m == LeftOnlyRow(lr, js);
      InnerCellsOfLeftOnlyRow(lr, c, js);
    } else if exists rr | rr in right :: m == RightOnlyRow(rr, js) {
      var rr :| rr in right && m == RightOnlyRow(rr, js);
      InnerCellsOfRightOnlyRow(rr, c, js);
    } else {
      var lr, rr :| lr in left && rr in right && m == BothRow(lr, rr, js);
      TagsOfRows(lr, rr, js);
      assert false;
    }
  }

  /**
   * The conflicts `_fill_func` counts for an inner column of the merged
   * frame: one for every row present in only one table, plus the rows both
   * tables contributed whose two values differ.
   */
  lemma MergeConflictSplit(l: Table, r: Table, keys: seq<string>, inner: set<string>, c: string)
    requires c in inner && c in l.columns && c in r.columns && c !in keys
    ensures var rows := Merge(l, r, keys, inner).rows;
      ConflictCount(rows, c) == OneSidedCount(rows) + BothConflicts(rows, c)
  {
    var rows := Merge(l, r, keys, inner).rows;
    var js := ShapeOf(l, r, keys, inner);
    MergeRowsAreJoinRows(l, r, keys, inner);
    forall i | 0 <= i < |rows| && Lookup(rows[i], Indicator) != Some(BothTag) ensures Differs(rows[i], c) {
      assert rows[i] in rows;
      OneSidedRowConflicts(rows[i], l.rows, r.rows, js, c);
    }
    ConflictCountSplit(rows, c);
  }

  // ---------------------------------------------------------------------
  // Swapping the two tables
  // ---------------------------------------------------------------------

  /**
   * Swapping the two tables (and so the two names of `split_string`) leaves
   * equality alone and swaps a marker's two values together with their names:
   * each table's name stays next to that table's value.
   */
  lemma FillValueSwap(x: Cell, y: Cell, a: string, b: string)
    ensures CellsEqual(x, y) <==> CellsEqual(y, x)
    ensures CellsEqual(x, y) ==> x == y && FillValue(x, y, SplitString(a, b)) == x == FillValue(y, x, SplitString(b, a))
    ensures !CellsEqual(x, y) ==>
      && FillValue(x, y, SplitString(a, b)) == Some(Render(x) + " <-" + a + " | " + b + "-> " + Render(y))
      && FillValue(y, x, SplitString(b, a)) == Some(Render(y) + " <-" + b + " | " + a + "-> " + Render(x))
  {
    MarkerText(Render(x), a, b, Render(y));
    MarkerText(Render(y), b, a, Render(x));
  }

  lemma MarkerText(p: string, a: string, b: string, q: string)
    ensures p + SplitString(a, b) + q == p + " <-" + a + " | " + b + "-> " + q
  {
  }

  /** The values of `c` in two input rows differ. */
  predicate PairDiffers(x: Row, y: Row, c: string) {
    !CellsEqual(Get(x, c), Get(y, c))
  }

  /** How many rows of `rows` have `x`'s key tuple and a value of `c` that differs from `x`'s. */
  function PairConflicts(x: Row, rows: seq<Row>, keys: seq<string>, c: string): nat
    decreases |rows|
  {
    if rows == [] then 0
    else
      (if KeyOf(rows[0], keys) == KeyOf(x, keys) && PairDiffers(x, rows[0], c) then 1 else 0)
      + PairConflicts(x, rows[1..], keys, c)
  }

  /** The matched pairs of a key join whose values of `c` differ, counted left row by left row. */
  function PairSum(left: seq<Row>, right: seq<Row>, keys: seq<string>, c: string): nat
    decreases |left|
  {
    if left == [] then 0 else PairConflicts(left[0], right, keys, c) + PairSum(left[1..], right, keys, c)
  }

  /** How many of `rows` no row of `other` matches on the keys. */
  function UnmatchedCount(rows: seq<Row>, other: seq<Row>, keys: seq<string>): nat
    decreases |rows|
  {
    if rows == [] then 0
    else (if MatchCount(KeyOf(rows[0], keys), other, keys) == 0 then 1 else 0) + UnmatchedCount(rows[1..], other, keys)
  }

  lemma {:induction false} ConflictCountAppend(a: seq<MRow>, b: seq<MRow>, c: string)
    ensures ConflictCount(a + b, c) == ConflictCount(a, c) + ConflictCount(b, c)
    decreases |b|
  {
    if b != [] {
      assert (a + b)[..|a + b| - 1] == a + b[..|b| - 1];
      ConflictCountAppend(a, b[..|b| - 1], c);
    } else {
      assert a + b == a;
    }
  }

  lemma ConflictCountSingle(m: MRow, c: string)
    ensures ConflictCount([m], c) == if Differs(m, c) then 1 else 0
  {
    assert [m][..0] == [];
  }

  /** Two row sequences that conflict at the same positions have the same count. */
  lemma {:induction false} ConflictCountPointwise(a: seq<MRow>, b: seq<MRow>, c: string)
    requires |a| == |b|
    requires forall i | 0 <= i < |a| :: Differs(a[i], c) <==> Differs(b[i], c)
    ensures ConflictCount(a, c) == ConflictCount(b, c)
    decreases |a|
  {
    if a != [] {
      ConflictCountPointwise(a[..|a| - 1], b[..|b| - 1], c);
    }
  }

  /** The merged rows one left row forms with each of `m`. */
  function PairedRows(lr: Row, m: seq<Row>, js: JoinShape): seq<MRow> {
    seq(|m|, i requires 0 <= i < |m| => BothRow(lr, m[i], js))
  }

  lemma PairedRowsCons(lr: Row, x: Row, m: seq<Row>, js: JoinShape)
    ensures PairedRows(lr, [x] + m, js) == [BothRow(lr, x, js)] + PairedRows(lr, m, js)
  {
  }

  /** The rows one left row pairs with conflict exactly where the two values differ. */
  lemma {:induction false} ConflictCountOfPairs(lr: Row, rows: seq<Row>, js: JoinShape, c: string)
    requires c in js.inner && c in js.left && c in js.right && c !in js.keys
    ensures ConflictCount(PairedRows(lr, Matches(KeyOf(lr, js.keys), rows, js.keys), js), c) == PairConflicts(lr, rows, js.keys, c)
    decreases |rows|
  {
    if rows != [] {
      var k := KeyOf(lr, js.keys);
      var m' := Matches(k, rows[1..], js.keys);
      ConflictCountOfPairs(lr, rows[1..], js, c);
      if KeyOf(rows[0], js.keys) == k {
        var head := BothRow(lr, rows[0], js);
        assert Matches(k, rows, js.keys) == [rows[0]] + m';
        PairedRowsCons(lr, rows[0], m', js);
        ConflictCountAppend([head], PairedRows(lr, m', js), c);
        ConflictCountSingle(head, c);
        InnerCellsOfBothRow(lr, rows[0], c, js);
      } else {
        assert Matches(k, rows, js.keys) == m';
      }
    }
  }

  lemma ConflictCountRowsFor(lr: Row, right: seq<Row>, js: JoinShape, c: string)
    requires c in js.inner && c in js.left && c in js.right && c !in js.keys
    ensures ConflictCount(RowsFor(lr, right, js), c) ==
      PairConflicts(lr, right, js.keys, c) + (if MatchCount(KeyOf(lr, js.keys), right, js.keys) == 0 then 1 else 0)
  {
    var m := Matches(KeyOf(lr, js.keys), right, js.keys);
    ConflictCountOfPairs(lr, right, js, c);
    if m != [] {
      assert RowsFor(lr, right, js) == PairedRows(lr, m, js);
    } else {
      assert PairedRows(lr, m, js) == [];
      ConflictCountSingle(LeftOnlyRow(lr, js), c);
      InnerCellsOfLeftOnlyRow(lr, c, js);
    }
  }

  lemma {:induction false} ConflictCountLeftRows(left: seq<Row>, right: seq<Row>, js: JoinShape, c: string)
    requires c in js.inner && c in js.left && c in js.right && c !in js.keys
    ensures ConflictCount(LeftRows(left, right, js), c) == PairSum(left, right, js.keys, c) + UnmatchedCount(left, right, js.keys)
    decreases |left|
  {
    if left != [] {
      ConflictCountAppend(RowsFor(left[0], right, js), LeftRows(left[1..], right, js), c);
      ConflictCountRowsFor(left[0], right, js, c);
      ConflictCountLeftRows(left[1..], right, js, c);
    }
  }

  lemma {:induction false} ConflictCountRightUnmatched(left: seq<Row>, right: seq<Row>, js: JoinShape, c: string)
    requires c in js.inner && c in js.left && c in js.right && c !in js.keys
    ensures ConflictCount(RightUnmatched(left, right, js), c) == UnmatchedCount(right, left, js.keys)
    decreases |right|
  {
    if right != [] {
      var head := if MatchCount(KeyOf(right[0], js.keys), left, js.keys) == 0 then [RightOnlyRow(right[0], js)] else [];
      ConflictCountAppend(head, RightUnmatched(left, right[1..], js), c);
      ConflictCountSingle(RightOnlyRow(right[0], js), c);
      InnerCellsOfRightOnlyRow(right[0], c, js);
      ConflictCountRightUnmatched(left, right[1..], js, c);
    }
  }

  /**
   * The conflicts of an inner column in the join on keys: the matched pairs
   * whose values differ, plus the left rows no right row matches, plus the
   * right rows no left row matches.
   */
  lemma KeyJoinConflicts(left: seq<Row>, right: seq<Row>, js: JoinShape, c: string)
    requires c in js.inner && c in js.left && c in js.right && c !in js.keys
    ensures ConflictCount(KeyJoin(left, right, js), c) ==
      PairSum(left, right, js.keys, c) + UnmatchedCount(left, right, js.keys) + UnmatchedCount(right, left, js.keys)
  {
    ConflictCountAppend(LeftRows(left, right, js), RightUnmatched(left, right, js), c);
    ConflictCountLeftRows(left, right, js, c);
    ConflictCountRightUnmatched(left, right, js, c);
  }

  lemma {:induction false} PairSumNone(rows: seq<Row>, keys: seq<string>, c: string)
    ensures PairSum(rows, [], keys, c) == 0
    decreases |rows|
  {
    if rows != [] {
      PairSumNone(rows[1..], keys, c);
    }
  }

  /** Peeling the first row off the inner sum of `PairSum`. */
  lemma {:induction false} PairSumSplit(rows: seq<Row>, other: seq<Row>, keys: seq<string>, c: string)
    requires other != []
    ensures PairSum(rows, other, keys, c) == PairConflicts(other[0], rows, keys, c) + PairSum(rows, other[1..], keys, c)
    decreases |rows|
  {
    if rows != [] {
      assert PairDiffers(rows[0], other[0], c) <==> PairDiffers(other[0], rows[0], c);
      PairSumSplit(rows[1..], other, keys, c);
    }
  }

  /** Every differing matched pair is counted once whichever table is on the left. */
  lemma {:induction false} PairSumSymmetric(left: seq<Row>, right: seq<Row>, keys: seq<string>, c: string)
    ensures PairSum(left, right, keys, c) == PairSum(right, left, keys, c)
    decreases |left|
  {
    if left == [] {
      PairSumNone(right, keys, c);
    } else {
      PairSumSymmetric(left[1..], right, keys, c);
      PairSumSplit(right, left, keys, c);
    }
  }

  /** The conflict count of an inner column does not depend on which table is first. */
  lemma ConflictSymmetry(l: Table, r: Table, keys: seq<string>, inner: set<string>, c: string)
    requires c in inner && c in l.columns && c in r.columns && c !in keys
    ensures ConflictCount(Merge(l, r, keys, inner).rows, c) == ConflictCount(Merge(r, l, keys, inner).rows, c)
  {
    var js := ShapeOf(l, r, keys, inner);
    var js' := ShapeOf(r, l, keys, inner);
    if keys != [] {
      KeyJoinConflicts(l.rows, r.rows, js, c);
      KeyJoinConflicts(r.rows, l.rows, js', c);
      PairSumSymmetric(l.rows, r.rows, keys, c);
    } else {
      var a := Merge(l, r, keys, inner).rows;
      var b := Merge(r, l, keys, inner).rows;
      forall i | 0 <= i < |a| ensures Differs(a[i], c) <==> Differs(b[i], c) {
        if i < |l.rows| && i < |r.rows| {
          InnerCellsOfBothRow(l.rows[i], r.rows[i], c, js);
          InnerCellsOfBothRow(r.rows[i], l.rows[i], c, js');
        } else if i < |l.rows| {
          InnerCellsOfLeftOnlyRow(l.rows[i], c, js);
          InnerCellsOfRightOnlyRow(l.rows[i], c, js');
        } else {
          InnerCellsOfRightOnlyRow(r.rows[i], c, js);
          InnerCellsOfLeftOnlyRow(r.rows[i], c, js');
        }
      }
      ConflictCountPointwise(a, b, c);
    }
  }
}
