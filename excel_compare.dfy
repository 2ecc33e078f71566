/**
 * The `compare` class: two named tables, a per-table transform
 * configuration, and the state `run` leaves behind (`errors`,
 * `_comp_results`, `status`), which `save_as_excel` reads.
 */
module ExcelCompare {
  import opened Tables
  import opened Normalize
  import opened Alignment
  import opened CellCompare
  import opened ExcelRange

  /** `list(set(a) & set(b))`: the labels both tables have (in the first table's order; Python's set order is unspecified). */
  function SharedColumns(a: seq<string>, b: seq<string>): (r: seq<string>)
    ensures forall c :: c in r <==> c in a && c in b
    ensures Distinct(a) ==> Distinct(r)
  {
    if a == [] then []
    else
      var rest := SharedColumns(a[1..], b);
      assert forall c :: c in a <==> c == a[0] || c in a[1..] by {
        assert a == [a[0]] + a[1..];
      }
      if a[0] in b then [a[0]] + rest else rest
  }

  /** `filter(lambda x: x not in join_on, self.columns)`: the shared non-key columns, in order. */
  function InnerColumns(columns: seq<string>, joinOn: seq<string>): (r: seq<string>)
    ensures forall c :: c in r <==> c in columns && c !in joinOn
    ensures Distinct(columns) ==> Distinct(r)
  {
    if columns == [] then []
    else
      var rest := InnerColumns(columns[1..], joinOn);
      assert forall c :: c in columns <==> c == columns[0] || c in columns[1..] by {
        assert columns == [columns[0]] + columns[1..];
      }
      if columns[0] !in joinOn then [columns[0]] + rest else rest
  }

  function InnerSet(columns: seq<string>, joinOn: seq<string>): set<string> {
    set c | c in InnerColumns(columns, joinOn)
  }

  /** Line 89: `{x: 0 for x in <inner columns>}`, the conflict counter before any comparison. */
  function ZeroCounts(columns: seq<string>, joinOn: seq<string>): (m: map<string, nat>)
    ensures m.Keys == (set c | c in columns) - (set k | k in joinOn)
    ensures forall c | c in m :: m[c] == 0
  {
    map c | c in InnerColumns(columns, joinOn) :: 0
  }

  /** The counter after `_comp`: one entry per inner column, the number of merged rows whose two values differ. */
  function ConflictCounts(merged: Merged, inner: seq<string>): map<string, nat> {
    map c | c in inner :: ConflictCount(merged.rows, c)
  }

  /** The counter after `_fill_func` has counted, column by column, the conflicts of each of `cols` on top of `before`. */
  function AddCounts(before: map<string, nat>, merged: Merged, cols: seq<string>): map<string, nat>
    decreases |cols|
  {
    if cols == [] then before
    else
      var now := AddCounts(before, merged, cols[..|cols| - 1]);
      var x := cols[|cols| - 1];
      if x in now then now[x := now[x] + ConflictCount(merged.rows, x)] else now
  }

  /** Counting one more column adds its conflicts to its entry. */
  lemma AddCountsSnoc(before: map<string, nat>, merged: Merged, done: seq<string>, x: string)
    requires x in before
    ensures x in AddCounts(before, merged, done)
    ensures var now := AddCounts(before, merged, done);
      AddCounts(before, merged, done + [x]) == now[x := now[x] + ConflictCount(merged.rows, x)]
  {
    AddCountsKeys(before, merged, done);
    assert (done + [x])[..|done|] == done;
  }

  /** Counting never adds or removes an entry. */
  lemma {:induction false} AddCountsKeys(before: map<string, nat>, merged: Merged, cols: seq<string>)
    ensures AddCounts(before, merged, cols).Keys == before.Keys
    decreases |cols|
  {
    if cols != [] {
      AddCountsKeys(before, merged, cols[..|cols| - 1]);
    }
  }

  /** Over distinct columns, each entry grows by its column's conflict count if the column was counted, and not at all otherwise. */
  lemma {:induction false} AddCountsEntries(before: map<string, nat>, merged: Merged, cols: seq<string>, c: string)
    requires Distinct(cols)
    requires c in before
    ensures c in AddCounts(before, merged, cols)
    ensures AddCounts(before, merged, cols)[c] == before[c] + (if c in cols then ConflictCount(merged.rows, c) else 0)
    decreases |cols|
  {
    if cols != [] {
      var init := cols[..|cols| - 1];
      var x := cols[|cols| - 1];
      assert cols == init + [x];
      assert Distinct(init) by {
        forall a, b | 0 <= a < b < |init| ensures init[a] != init[b] {
          assert init[a] == cols[a] && init[b] == cols[b];
        }
      }
      assert x !in init by {
        forall a | 0 <= a < |init| ensures init[a] != x {
          assert init[a] == cols[a];
        }
      }
      AddCountsEntries(before, merged, init, c);
      AddCountsKeys(before, merged, init);
    }
  }

  /** Counting up from `ZeroCounts`, each entry ends at its column's conflict count. */
  lemma CountsFromZero(merged: Merged, columns: seq<string>, joinOn: seq<string>)
    requires Distinct(columns)
    ensures AddCounts(ZeroCounts(columns, joinOn), merged, InnerColumns(columns, joinOn))
      == ConflictCounts(merged, InnerColumns(columns, joinOn))
  {
    var inner := InnerColumns(columns, joinOn);
    var zero := ZeroCounts(columns, joinOn);
    var after := AddCounts(zero, merged, inner);
    var target := ConflictCounts(merged, inner);
    AddCountsKeys(zero, merged, inner);
    assert target.Keys == set c | c in inner;
    assert forall c :: c in after <==> c in inner;
    forall c | c in after ensures after[c] == target[c] {
      AddCountsEntries(zero, merged, inner, c);
    }
  }

  /** Line 18: an empty or missing sheet name gives `"<left> - <right>_comparison"`. */
  function SheetNameFor(leftName: string, rightName: string, sheetName: Option<string>): string {
    if sheetName.None? || sheetName.value == "" then leftName + " - " + rightName + "_comparison"
    else sheetName.value
  }

  /** The frame `_comp(df1, df2, join_on)` returns. */
  function CompResult(df1: Table, df2: Table, joinOn: seq<string>, columns: seq<string>, sep: string): Merged {
    CollapsePrefix(Merge(df1, df2, joinOn, InnerSet(columns, joinOn)), InnerColumns(columns, joinOn), sep)
  }

  /** `_comp` keeps the merged frame's rows: one result row per merged row. */
  lemma CompResultRows(df1: Table, df2: Table, joinOn: seq<string>, columns: seq<string>, sep: string)
    ensures |CompResult(df1, df2, joinOn, columns, sep).rows| == |Merge(df1, df2, joinOn, InnerSet(columns, joinOn)).rows|
  {
    CollapsePrefixRows(Merge(df1, df2, joinOn, InnerSet(columns, joinOn)), InnerColumns(columns, joinOn), sep);
  }

  function EndsWith(s: string, suffix: string): bool {
    |s| >= |suffix| && s[|s| - |suffix|..] == suffix
  }

  /** The worksheet's tab colour. */
  datatype TabColour = Red | Green {
    function Hex(): string {
      match this
      case Red => "#FFC7CE"
      case Green => "#C6EFCE"
    }
  }

  /** The highlighting of a red tab: cells of `range` containing `containing` get the red format. */
  datatype Highlight = Highlight(range: string, containing: string)

  /** What `save_as_excel` decides about the worksheet. */
  datatype SheetLayout = SheetLayout(sheetName: string, tab: TabColour, highlight: Option<Highlight>)

  /** Line 115: red (with conflict highlighting) when the counter dict is non-empty or the status is NOT OK. */
  function TabColourFor(errors: map<string, nat>, status: Option<string>): TabColour {
    if errors != map[] || status == Some(StatusNotOk) then Red else Green
  }

  class Compare {
    /** The keys of `df_dict`, in order. */
    const names: seq<string>
    /** What `astype(str)` makes of a cell. */
    const toStr: Cell -> string
    const sheetName: string
    const errorSplitString: string
    const columns: seq<string>

    var dfDict: map<string, Table>
    var config: map<string, ColumnConfig>
    var errors: map<string, nat>
    var compResults: Option<Merged>
    var status: Option<string>

    ghost predicate Valid()
      reads this`dfDict, this`config
    {
      && |names| == 2 && names[0] != names[1]
      && dfDict.Keys == {names[0], names[1]}
      && config.Keys == dfDict.Keys
      && WellFormed(dfDict[names[0]]) && WellFormed(dfDict[names[1]])
      && Distinct(columns)
      && (forall c :: c in columns <==> c in dfDict[names[0]].columns && c in dfDict[names[1]].columns)
      && errorSplitString == SplitString(names[0], names[1])
    }

    /** `compare.__init__` once its assertions have passed: two tables under two distinct names. */
    constructor (leftName: string, left: Table, rightName: string, right: Table,
                 sheetName: Option<string>, toStr: Cell -> string)
      requires leftName != rightName
      requires WellFormed(left) && WellFormed(right)
      ensures Valid()
      ensures names == [leftName, rightName] && this.toStr == toStr
      ensures dfDict == map[leftName := left, rightName := right]
      ensures config == map[leftName := [], rightName := []]
      ensures this.sheetName == SheetNameFor(leftName, rightName, sheetName)
      ensures errorSplitString == SplitString(leftName, rightName)
      ensures forall c :: c in columns <==> c in left.columns && c in right.columns
      ensures errors == map[] && compResults == None && status == None
    {
      names := [leftName, rightName];
      this.toStr := toStr;
      this.sheetName := SheetNameFor(leftName, rightName, sheetName);
      errorSplitString := SplitString(leftName, rightName);
      columns := SharedColumns(left.columns, right.columns);
      dfDict := map[leftName := left, rightName := right];
      config := map[leftName := [], rightName := []];
      errors := map[];
      compResults := None;
      status := None;
    }

    /** `compare(df_dict)`: fails unless the dict holds exactly two tables. */
    static method Create(dfDict: seq<(string, Table)>, sheetName: Option<string>, toStr: Cell -> string)
      returns (r: Result<Compare, Error>)
      requires forall i, j | 0 <= i < j < |dfDict| :: dfDict[i].0 != dfDict[j].0
      requires forall i | 0 <= i < |dfDict| :: WellFormed(dfDict[i].1)
      ensures r.Failure? <==> |dfDict| != 2
      ensures r.Failure? ==> r.error == NotTwoTables
      ensures r.Success? ==>
        && fresh(r.value) && r.value.Valid()
        && r.value.names == [dfDict[0].0, dfDict[1].0] && r.value.toStr == toStr
        && r.value.dfDict == map[dfDict[0].0 := dfDict[0].1, dfDict[1].0 := dfDict[1].1]
        && r.value.config == map[dfDict[0].0 := [], dfDict[1].0 := []]
        && r.value.sheetName == SheetNameFor(dfDict[0].0, dfDict[1].0, sheetName)
        && r.value.errorSplitString == SplitString(dfDict[0].0, dfDict[1].0)
        && (forall c :: c in r.value.columns <==> c in dfDict[0].1.columns && c in dfDict[1].1.columns)
        && r.value.errors == map[] && r.value.compResults == None && r.value.status == None
    {
      if |dfDict| != 2 {
        return Failure(NotTwoTables);
      }
      var c := new Compare(dfDict[0].0, dfDict[0].1, dfDict[1].0, dfDict[1].1, sheetName, toStr);
      r := Success(c);
    }

    /** `set_config`: every key must name a table; each named table's configuration is replaced wholesale. */
    method SetConfig(cfg: map<string, ColumnConfig>) returns (failure: Option<Error>)
      requires Valid()
      modifies this`config
      ensures Valid()
      ensures failure.None? <==> cfg.Keys <= {names[0], names[1]}
      ensures failure.Some? ==> failure.value == UnknownConfigKeys && config == old(config)
      ensures failure.None? ==> config == old(config) + cfg
    {
      if cfg.Keys <= dfDict.Keys {
        config := config + cfg;
        failure := None;
      } else {
        failure := Some(UnknownConfigKeys);
      }
    }

    /** `_fill_func`: equal values stay, unequal ones become the marker and count one conflict for `col`. */
    method FillFunc(x: Cell, y: Cell, col: string) returns (r: Cell)
      requires col in errors
      modifies this`errors
      ensures r == FillValue(x, y, errorSplitString)
      ensures CellsEqual(x, y) ==> r == x && errors == old(errors)
      ensures !CellsEqual(x, y) ==>
        r == Some(Render(x) + errorSplitString + Render(y)) && errors == old(errors)[col := old(errors)[col] + 1]
    {
      if CellsEqual(x, y) {
        r := x;
      } else {
        errors := errors[col := errors[col] + 1];
        r := Some(Render(x) + errorSplitString + Render(y));
      }
    }

    /** One pass of `_process_dfs`' outer loop, over table `x`: its transforms in order, then `astype(str).sort_values(by = join_on)`. */
    method ProcessTableAt(x: string, joinOn: seq<string>) returns (failure: Option<Error>)
      requires x in dfDict && x in config
      modifies this`dfDict
      ensures var p := ProcessTable(old(dfDict)[x], config[x], joinOn, toStr);
        dfDict == old(dfDict)[x := p.table] && failure == p.failure
    {
      var cfg := config[x];
      var j := 0;
      while j < |cfg|
        invariant 0 <= j <= |cfg|
        invariant x in dfDict && dfDict == old(dfDict)[x := dfDict[x]]
        invariant ApplyConfig(old(dfDict)[x], cfg) == ApplyConfig(dfDict[x], cfg[j..])
      {
        var (col, func) := cfg[j];
        assert cfg[j..][0] == cfg[j] && cfg[j..][1..] == cfg[j + 1..];
        if col !in dfDict[x].columns {
          return Some(MissingColumn(col));
        }
        dfDict := dfDict[x := ApplyTransform(dfDict[x], col, func)];
        j := j + 1;
      }
      assert cfg[j..] == [];
      var t := dfDict[x];
      var missing := FirstMissing(joinOn, t.columns);
      if missing.Some? {
        return Some(MissingColumn(missing.value));
      }
      var s := Stringify(t, toStr);
      dfDict := dfDict[x := Table(s.columns, SortRows(s.rows, joinOn))];
      failure := None;
    }

    /** `_process_dfs`: normalize each table in dict order, in place; the first KeyError stops it. */
    method ProcessDfs(joinOn: seq<string>) returns (failure: Option<Error>)
      requires Valid()
      modifies this`dfDict
      ensures Valid()
      ensures Stage(dfDict, failure) == ProcessAll(old(dfDict), names, config, joinOn, toStr)
    {
      ProcessAllShape(dfDict, names, config, joinOn, toStr);
      ghost var final := ProcessAll(dfDict, names, config, joinOn, toStr);
      var k := 0;
      failure := None;
      while k < |names| && failure.None?
        invariant 0 <= k <= |names|
        invariant dfDict.Keys == old(dfDict).Keys
        invariant failure.None? ==> final == ProcessAll(dfDict, names[k..], config, joinOn, toStr)
        invariant failure.Some? ==> final == Stage(dfDict, failure)
      {
        assert names[k..][0] == names[k] && names[k..][1..] == names[k + 1..];
        failure := ProcessTableAt(names[k], joinOn);
        k := k + 1;
      }
      assert failure.None? ==> final == Stage(dfDict, None);
    }

    /** One `df_new.apply(lambda i: self._fill_func(...), axis = 1)` and its `drop`: column `x` rebuilt from its two temporaries, row by row. */
    method FillColumn(m: Merged, x: string) returns (res: Merged)
      requires x in errors
      modifies this`errors
      ensures res == CollapseColumn(m, x, errorSplitString)
      ensures errors == old(errors)[x := old(errors)[x] + ConflictCount(m.rows, x)]
    {
      var rows: seq<MRow> := [];
      var i := 0;
      while i < |m.rows|
        invariant 0 <= i <= |m.rows|
        invariant |rows| == i
        invariant forall j | 0 <= j < i :: rows[j] == CollapseRow(m.rows[j], x, errorSplitString)
        invariant errors == old(errors)[x := old(errors)[x] + ConflictCount(m.rows[..i], x)]
      {
        var row := m.rows[i];
        var v := FillFunc(Lookup(row, Suffixed(x, Df1)), Lookup(row, Suffixed(x, Df2)), x);
        rows := rows + [(row - {Suffixed(x, Df1), Suffixed(x, Df2)})[Col(x) := v]];
        assert m.rows[..i + 1][..i] == m.rows[..i];
        i := i + 1;
      }
      assert m.rows[..i] == m.rows;
      res := Merged(DropTemps(m.labels + [Col(x)], x), rows);
    }

    /** `_comp`: merge, then collapse every inner column's two temporaries into one column, counting conflicts. */
    method Comp(df1: Table, df2: Table, joinOn: seq<string>) returns (dfNew: Merged)
      requires Distinct(columns)
      requires forall c | c in InnerColumns(columns, joinOn) :: c in errors
      modifies this`errors
      ensures dfNew == CompResult(df1, df2, joinOn, columns, errorSplitString)
      ensures errors == AddCounts(old(errors), Merge(df1, df2, joinOn, InnerSet(columns, joinOn)), InnerColumns(columns, joinOn))
    {
      var inner := InnerColumns(columns, joinOn);
      dfNew := Merge(df1, df2, joinOn, set c | c in inner);
      dfNew := FillInner(dfNew, inner);
    }

    /** The loop of `_comp` (lines 72-76): collapse each inner column in turn, counting its conflicts. */
    method FillInner(merged: Merged, inner: seq<string>) returns (dfNew: Merged)
      requires Distinct(inner)
      requires forall c | c in inner :: c in errors
      modifies this`errors
      ensures dfNew == CollapsePrefix(merged, inner, errorSplitString)
      ensures errors == AddCounts(old(errors), merged, inner)
    {
      dfNew := merged;
      var k := 0;
      ghost var done: seq<string> := [];
      while k < |inner|
        invariant 0 <= k <= |inner|
        invariant done == inner[..k]
        invariant dfNew == CollapsePrefix(merged, done, errorSplitString)
        invariant errors == AddCounts(old(errors), merged, done)
      {
        var x := inner[k];
        TakeSnoc(inner, k);
        assert x !in done by {
          forall j | 0 <= j < k ensures inner[j] != x { }
        }
        CollapsePrefixCount(merged, done, errorSplitString, x);
        CollapsePrefixSnoc(merged, done, x, errorSplitString);
        AddCountsSnoc(old(errors), merged, done, x);
        dfNew := FillColumn(dfNew, x);
        done := done + [x];
        k := k + 1;
      }
      assert done == inner;
    }

    /** The last two statements of `run`: compare the normalized tables, then rate the outcome. */
    method CompareProcessed(joinOn: seq<string>)
      requires |names| == 2 && names[0] in dfDict && names[1] in dfDict
      requires Distinct(columns)
      requires errors == ZeroCounts(columns, joinOn)
      modifies this`errors, this`compResults, this`status
      ensures
        var l, r := dfDict[names[0]], dfDict[names[1]];
        var merged := Merge(l, r, joinOn, InnerSet(columns, joinOn));
        && compResults == Some(CompResult(l, r, joinOn, columns, errorSplitString))
        && errors == ConflictCounts(merged, InnerColumns(columns, joinOn))
        && status == Some(StatusOf(|l.rows|, |r.rows|, |merged.rows|))
    {
      var l, r := dfDict[names[0]], dfDict[names[1]];
      var res := Comp(l, r, joinOn);
      CountsFromZero(Merge(l, r, joinOn, InnerSet(columns, joinOn)), columns, joinOn);
      CompResultRows(l, r, joinOn, columns, errorSplitString);
      compResults := Some(res);
      status := Some(StatusOf(|l.rows|, |r.rows|, |res.rows|));
    }

    /** `run`: reset the counter, normalize both tables, compare them, derive the status. */
    method Run(joinOn: seq<string>) returns (failure: Option<Error>)
      requires Valid()
      modifies this
      ensures Valid()
      ensures config == old(config)
      ensures Stage(dfDict, failure) == ProcessAll(old(dfDict), names, config, joinOn, toStr)
      ensures failure.Some? ==>
        errors == ZeroCounts(columns, joinOn) && compResults == old(compResults) && status == old(status)
      ensures failure.None? ==>
        var l, r := dfDict[names[0]], dfDict[names[1]];
        var merged := Merge(l, r, joinOn, InnerSet(columns, joinOn));
        && compResults == Some(CompResult(l, r, joinOn, columns, errorSplitString))
        && errors == ConflictCounts(merged, InnerColumns(columns, joinOn))
        && status == Some(StatusOf(|l.rows|, |r.rows|, |merged.rows|))
    {
      errors := ZeroCounts(columns, joinOn);
      failure := ProcessDfs(joinOn);
      if failure.None? {
        CompareProcessed(joinOn);
      }
    }

    /**
     * The guards and the formatting decisions of `save_as_excel`: a red tab
     * with the conflict highlighting over the range `_get_excel_range` builds
     * from the result's shape (one column wider than the data), or a green
     * tab. Writing the workbook is not modelled.
     */
    method SaveAsExcel(file: string) returns (r: Result<SheetLayout, Error>)
      ensures compResults.None? ==> r == Failure(NotRun)
      ensures compResults.Some? && !EndsWith(file, ".xlsx") ==> r == Failure(NotXlsx)
      ensures r.Success? ==> compResults.Some? && EndsWith(file, ".xlsx") && r.value.sheetName == sheetName
      ensures r.Success? ==> (r.value.tab == Red <==> errors != map[] || status == Some(StatusNotOk))
      ensures r.Success? ==> r.value.tab.Hex() == (if errors != map[] || status == Some(StatusNotOk) then "#FFC7CE" else "#C6EFCE")
      ensures r.Success? ==> (r.value.highlight.Some? <==> r.value.tab == Red)
      ensures r.Success? && r.value.highlight.Some? ==>
        var res := compResults.value;
        && r.value.highlight.value.containing == errorSplitString
        && ParseRange(r.value.highlight.value.range) == Some(Span(1, 2, |res.labels| + 1, |res.rows| + 1))
      ensures compResults.Some? && EndsWith(file, ".xlsx") ==>
        (r.Failure? <==> TabColourFor(errors, status) == Red && |compResults.value.labels| >= LetterCount)
      ensures r.Failure? && compResults.Some? && EndsWith(file, ".xlsx") ==> r.error == ColumnOutOfRange
    {
      if compResults.None? {
        return Failure(NotRun);
      }
      if !EndsWith(file, ".xlsx") {
        return Failure(NotXlsx);
      }
      var res := compResults.value;
      if TabColourFor(errors, status) == Red {
        var range := GetExcelRange(|res.rows|, |res.labels|, true);
        if range.Failure? {
          return Failure(range.error);
        }
        GetExcelRangeSpan(|res.rows|, |res.labels|, true);
        r := Success(SheetLayout(sheetName, Red, Some(Highlight(range.value, errorSplitString))));
      } else {
        r := Success(SheetLayout(sheetName, Green, None));
      }
    }
  }

  // ---------------------------------------------------------------------
  // Properties of a whole run
  // ---------------------------------------------------------------------

  /**
   * After a successful `run`, the tab is green exactly when the tables share
   * no non-key column and all three row counts are one: any shared non-key
   * column puts an entry in the counter, zero or not, and turns the tab red.
   */
  lemma TabAfterRun(merged: Merged, inner: seq<string>, left: int, right: int, result: int)
    ensures TabColourFor(ConflictCounts(merged, inner), Some(StatusOf(left, right, result))) == Green
      <==> inner == [] && left == 1 && right == 1 && result == 1
  {
    var counts := ConflictCounts(merged, inner);
    if inner != [] {
      assert inner[0] in counts;
    } else {
      assert counts == map[];
    }
  }

  /**
   * Comparing a normalized table with an exact copy of itself, on the index or
   * on join keys no two of its rows share: every row matches and no inner
   * column has a conflict, yet the status is OK only for a single row, and the
   * tab is red whenever there is an inner column (on the index, whenever the
   * tables have a column at all).
   */
  lemma IdenticalCopy(t: Table, columns: seq<string>, keys: seq<string>)
    requires WellFormed(t) && AllText(t)
    requires forall c :: c in columns <==> c in t.columns
    requires keys == [] || UniqueKeys(t.rows, keys)
    ensures var inner := InnerColumns(columns, keys);
      var merged := Merge(t, t, keys, InnerSet(columns, keys));
      var status := StatusOf(|t.rows|, |t.rows|, |merged.rows|);
      && |merged.rows| == |t.rows|
      && OneSidedCount(merged.rows) == 0
      && (forall c | c in inner :: ConflictCount(merged.rows, c) == 0)
      && (status == StatusOk <==> |t.rows| == 1)
      && (inner != [] ==> TabColourFor(ConflictCounts(merged, inner), Some(status)) == Red)
      && (keys == [] && columns != [] ==> TabColourFor(ConflictCounts(merged, inner), Some(status)) == Red)
  {
    var inner := InnerColumns(columns, keys);
    var js := ShapeOf(t, t, keys, InnerSet(columns, keys));
    var merged := Merge(t, t, keys, InnerSet(columns, keys));
    if keys != [] {
      KeyJoinSelf(t.rows, js);
    }
    assert |merged.rows| == |t.rows|;
    forall i | 0 <= i < |merged.rows| ensures merged.rows[i] == BothRow(t.rows[i], t.rows[i], js) {
    }
    forall c | c in inner ensures ConflictCount(merged.rows, c) == 0 {
      forall i | 0 <= i < |merged.rows| ensures !Differs(merged.rows[i], c) {
        InnerCellsOfBothRow(t.rows[i], t.rows[i], c, js);
        assert c in t.rows[i].Keys;
      }
      ConflictCountBounds(merged.rows, c);
    }
    forall i | 0 <= i < |merged.rows| ensures Lookup(merged.rows[i], Indicator) == Some(BothTag) {
      TagsOfRows(t.rows[i], t.rows[i], js);
    }
    OneSidedNone(merged.rows);
    TabAfterRun(merged, inner, |t.rows|, |t.rows|, |merged.rows|);
    if keys == [] && columns != [] {
      assert columns[0] in inner;
    }
  }

  /**
   * The conflict counter `run` leaves in `errors` is the same whichever of
   * the two tables comes first in `df_dict`.
   */
  lemma CountsSymmetric(df1: Table, df2: Table, joinOn: seq<string>)
    ensures var cols1 := SharedColumns(df1.columns, df2.columns);
      var cols2 := SharedColumns(df2.columns, df1.columns);
      ConflictCounts(Merge(df1, df2, joinOn, InnerSet(cols1, joinOn)), InnerColumns(cols1, joinOn))
      == ConflictCounts(Merge(df2, df1, joinOn, InnerSet(cols2, joinOn)), InnerColumns(cols2, joinOn))
  {
    var cols1 := SharedColumns(df1.columns, df2.columns);
    var cols2 := SharedColumns(df2.columns, df1.columns);
    var inner := InnerSet(cols1, joinOn);
    assert InnerSet(cols2, joinOn) == inner;
    forall c | c in InnerColumns(cols1, joinOn)
      ensures ConflictCount(Merge(df1, df2, joinOn, inner).rows, c) == ConflictCount(Merge(df2, df1, joinOn, inner).rows, c)
    {
      ConflictSymmetry(df1, df2, joinOn, inner, c);
    }
  }

  /**
   * `_comp`'s result keeps, row for row, what the merge put outside the inner
   * columns: the key tuple, the `_merge` indicator, and the columns only one
   * table has.
   */
  lemma CompResultKeeps(df1: Table, df2: Table, joinOn: seq<string>, columns: seq<string>, sep: string, i: int)
    requires 0 <= i < |Merge(df1, df2, joinOn, InnerSet(columns, joinOn)).rows|
    ensures var merged := Merge(df1, df2, joinOn, InnerSet(columns, joinOn));
      var res := CompResult(df1, df2, joinOn, columns, sep);
      && |res.rows| == |merged.rows|
      && MKey(res.rows[i], joinOn) == MKey(merged.rows[i], joinOn)
      && Lookup(res.rows[i], Indicator) == Lookup(merged.rows[i], Indicator)
      && (forall c | c !in columns :: Lookup(res.rows[i], Col(c)) == Lookup(merged.rows[i], Col(c)))
  {
    var merged := Merge(df1, df2, joinOn, InnerSet(columns, joinOn));
    var inner := InnerColumns(columns, joinOn);
    var res := CompResult(df1, df2, joinOn, columns, sep);
    CollapsePrefixOthers(merged, inner, sep, Indicator, i);
    forall j | 0 <= j < |joinOn| ensures Lookup(res.rows[i], Col(joinOn[j])) == Lookup(merged.rows[i], Col(joinOn[j])) {
      CollapsePrefixOthers(merged, inner, sep, Col(joinOn[j]), i);
    }
    forall c | c !in columns ensures Lookup(res.rows[i], Col(c)) == Lookup(merged.rows[i], Col(c)) {
      CollapsePrefixOthers(merged, inner, sep, Col(c), i);
    }
  }

  lemma {:induction false} OneSidedNone(rows: seq<MRow>)
    requires forall i | 0 <= i < |rows| :: Lookup(rows[i], Indicator) == Some(BothTag)
    ensures OneSidedCount(rows) == 0
    decreases |rows|
  {
    if rows != [] {
      OneSidedNone(rows[..|rows| - 1]);
    }
  }

  /**
   * The counter `run` leaves for an inner column: one for every merged row
   * present in only one of the tables, plus the matched rows whose values differ.
   */
  lemma RunCountsSplit(l: Table, r: Table, columns: seq<string>, joinOn: seq<string>, c: string)
    requires forall x :: x in columns <==> x in l.columns && x in r.columns
    requires c in InnerColumns(columns, joinOn)
    ensures var merged := Merge(l, r, joinOn, InnerSet(columns, joinOn));
      var counts := ConflictCounts(merged, InnerColumns(columns, joinOn));
      c in counts && counts[c] == OneSidedCount(merged.rows) + BothConflicts(merged.rows, c)
  {
    MergeConflictSplit(l, r, joinOn, InnerSet(columns, joinOn), c);
  }
}
