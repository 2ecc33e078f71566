/**
 * The aligner of `compare._comp`: after every shared non-key column `c` is
 * renamed `c_df1` in the first table and `c_df2` in the second, the two
 * tables are joined with `merge(..., how = 'outer', indicator = True)`, on
 * the join keys, or on the row index when there are none.
 *
 * A label of the merged frame is a datatype, so that a temporary `c_df1`
 * can never be confused with a user column of that name.
 */
module Alignment {
  import opened Tables

  datatype Side = Df1 | Df2

  /** A column label of the merged frame: `c`, the temporaries `c_df1` / `c_df2` of an inner column, or `_merge`. */
  datatype Label = Col(name: string) | Suffixed(name: string, side: Side) | Indicator

  type MRow = map<Label, Cell>

  /** A merged frame: labels in column order, and its rows. */
  datatype Merged = Merged(labels: seq<Label>, rows: seq<MRow>)

  /** The values the `_merge` indicator column takes. */
  const LeftOnlyTag := "left_only"
  const RightOnlyTag := "right_only"
  const BothTag := "both"

  /** What the join needs to know about the two frames: their labels, the join keys and the renamed (inner) columns. */
  datatype JoinShape = JoinShape(left: seq<string>, right: seq<string>, keys: seq<string>, inner: set<string>)

  function KeySet(js: JoinShape): set<string> {
    set k | k in js.keys
  }

  /** The inner-column renaming of `df.rename(columns = {x: f'{x}_df1' ...})`. */
  function Rename(c: string, inner: set<string>, side: Side): Label {
    if c in inner then Suffixed(c, side) else Col(c)
  }

  /** The renamed labels of `cols`, leaving out those in `exclude`, in column order. */
  function RenameAll(cols: seq<string>, exclude: set<string>, inner: set<string>, side: Side): seq<Label> {
    if cols == [] then []
    else (if cols[0] in exclude then [] else [Rename(cols[0], inner, side)]) + RenameAll(cols[1..], exclude, inner, side)
  }

  function LabelSet(cols: seq<string>, exclude: set<string>, inner: set<string>, side: Side): set<Label> {
    set c | c in cols && c !in exclude :: Rename(c, inner, side)
  }

  /** The cell a renamed label reads from an input row. */
  function CellAt(row: Row, l: Label): Cell {
    match l
    case Col(c) => Get(row, c)
    case Suffixed(c, _) => Get(row, c)
    case Indicator => None
  }

  function Part(row: Row, labels: set<Label>): MRow {
    map l | l in labels :: CellAt(row, l)
  }

  /** NaN under every label of the absent side. */
  function Padding(labels: set<Label>): MRow {
    map l | l in labels :: None
  }

  function Tag(t: string): MRow {
    map[Indicator := Some(t)]
  }

  /** A cell of a merged row; NaN under a label the row does not have. */
  function Lookup(m: MRow, l: Label): Cell {
    if l in m then m[l] else None
  }

  function LeftLabels(js: JoinShape): set<Label> { LabelSet(js.left, {}, js.inner, Df1) }
  function LeftNonKeyLabels(js: JoinShape): set<Label> { LabelSet(js.left, KeySet(js), js.inner, Df1) }
  function RightLabels(js: JoinShape): set<Label> { LabelSet(js.right, {}, js.inner, Df2) }
  function RightNonKeyLabels(js: JoinShape): set<Label> { LabelSet(js.right, KeySet(js), js.inner, Df2) }

  /** A row both sides contributed; the key columns are taken from the left row. */
  function BothRow(lr: Row, rr: Row, js: JoinShape): MRow {
    Part(lr, LeftLabels(js)) + Part(rr, RightNonKeyLabels(js)) + Tag(BothTag)
  }

  function LeftOnlyRow(lr: Row, js: JoinShape): MRow {
    Part(lr, LeftLabels(js)) + Padding(RightNonKeyLabels(js)) + Tag(LeftOnlyTag)
  }

  function RightOnlyRow(rr: Row, js: JoinShape): MRow {
    Padding(LeftNonKeyLabels(js)) + Part(rr, RightLabels(js)) + Tag(RightOnlyTag)
  }

  /** The rows of `rows` whose key tuple is `k`, in order. */
  function Matches(k: seq<Cell>, rows: seq<Row>, keys: seq<string>): seq<Row> {
    if rows == [] then []
    else (if KeyOf(rows[0], keys) == k then [rows[0]] else []) + Matches(k, rows[1..], keys)
  }

  function MatchCount(k: seq<Cell>, rows: seq<Row>, keys: seq<string>): nat {
    |Matches(k, rows, keys)|
  }

  /** What one left row contributes to the outer join on keys: a row per match, or one padded row. */
  function RowsFor(lr: Row, right: seq<Row>, js: JoinShape): seq<MRow> {
    var m := Matches(KeyOf(lr, js.keys), right, js.keys);
    if m == [] then [LeftOnlyRow(lr, js)]
    else seq(|m|, i requires 0 <= i < |m| => BothRow(lr, m[i], js))
  }

  function LeftRows(left: seq<Row>, right: seq<Row>, js: JoinShape): seq<MRow> {
    if left == [] then [] else RowsFor(left[0], right, js) + LeftRows(left[1..], right, js)
  }

  /** The right rows no left row matches, padded on the left. */
  function RightUnmatched(left: seq<Row>, right: seq<Row>, js: JoinShape): seq<MRow> {
    if right == [] then []
    else
      (if MatchCount(KeyOf(right[0], js.keys), left, js.keys) == 0 then [RightOnlyRow(right[0], js)] else [])
      + RightUnmatched(left, right[1..], js)
  }

  /** `df1.merge(df2, on = keys, how = 'outer', indicator = True)`; the row order is this model's. */
  function KeyJoin(left: seq<Row>, right: seq<Row>, js: JoinShape): seq<MRow> {
    LeftRows(left, right, js) + RightUnmatched(left, right, js)
  }

  function Max(a: int, b: int): int { if a < b then b else a }

  /** `df1.merge(df2, left_index = True, right_index = True, how = 'outer', indicator = True)` on default indexes. */
  function IndexJoin(left: seq<Row>, right: seq<Row>, js: JoinShape): seq<MRow> {
    seq(Max(|left|, |right|), i requires 0 <= i < Max(|left|, |right|) =>
      if i < |left| && i < |right| then BothRow(left[i], right[i], js)
      else if i < |left| then LeftOnlyRow(left[i], js)
      else RightOnlyRow(right[i], js))
  }

  function ShapeOf(l: Table, r: Table, keys: seq<string>, inner: set<string>): JoinShape {
    JoinShape(l.columns, r.columns, keys, inner)
  }

  /** The merged frame of `_comp` lines 67-70, with labels in pandas' column order. */
  function Merge(l: Table, r: Table, keys: seq<string>, inner: set<string>): Merged {
    var js := ShapeOf(l, r, keys, inner);
    Merged(
      RenameAll(l.columns, {}, inner, Df1) + RenameAll(r.columns, KeySet(js), inner, Df2) + [Indicator],
      if keys != [] then KeyJoin(l.rows, r.rows, js) else IndexJoin(l.rows, r.rows, js))
  }

  // ---------------------------------------------------------------------
  // Cells of the merged rows
  // ---------------------------------------------------------------------

  /** The key tuple of a merged row, read from the key columns. */
  function MKey(m: MRow, keys: seq<string>): seq<Cell> {
    seq(|keys|, i requires 0 <= i < |keys| => Lookup(m, Col(keys[i])))
  }

  /** The shape every join in `_comp` has: keys are labels of both frames and are never renamed. */
  predicate KeysFit(js: JoinShape) {
    forall k | k in js.keys :: k in js.left && k in js.right && k !in js.inner
  }

  lemma RenameInLabelSet(c: string, cols: seq<string>, exclude: set<string>, inner: set<string>, side: Side)
    requires c in cols && c !in exclude
    ensures Rename(c, inner, side) in LabelSet(cols, exclude, inner, side)
  {
  }

  lemma LabelSetMember(l: Label, cols: seq<string>, exclude: set<string>, inner: set<string>, side: Side)
    requires l in LabelSet(cols, exclude, inner, side)
    ensures !l.Indicator? && l.name in cols && l.name !in exclude
    ensures l.Col? ==> l.name !in inner
    ensures l.Suffixed? ==> l.name in inner && l.side == side
  {
    var c :| c in cols && c !in exclude && l == Rename(c, inner, side);
  }

  /** Every row of a join carries the key values of the input row(s) it came from. */
  lemma KeysOfRows(lr: Row, rr: Row, js: JoinShape)
    requires KeysFit(js)
    ensures MKey(BothRow(lr, rr, js), js.keys) == KeyOf(lr, js.keys)
    ensures MKey(LeftOnlyRow(lr, js), js.keys) == KeyOf(lr, js.keys)
    ensures MKey(RightOnlyRow(rr, js), js.keys) == KeyOf(rr, js.keys)
  {
    forall i | 0 <= i < |js.keys|
      ensures Lookup(BothRow(lr, rr, js), Col(js.keys[i])) == Get(lr, js.keys[i])
      ensures Lookup(LeftOnlyRow(lr, js), Col(js.keys[i])) == Get(lr, js.keys[i])
      ensures Lookup(RightOnlyRow(rr, js), Col(js.keys[i])) == Get(rr, js.keys[i])
    {
      var k := js.keys[i];
      RenameInLabelSet(k, js.left, {}, js.inner, Df1);
      RenameInLabelSet(k, js.right, {}, js.inner, Df2);
      if Col(k) in RightNonKeyLabels(js) {
        LabelSetMember(Col(k), js.right, KeySet(js), js.inner, Df2);
      }
      if Col(k) in LeftNonKeyLabels(js) {
        LabelSetMember(Col(k), js.left, KeySet(js), js.inner, Df1);
      }
    }
  }

  /**
   * The two temporaries of an inner column `c` in a merged row: a row both
   * sides contributed holds the left and the right value.
   */
  lemma InnerCellsOfBothRow(lr: Row, rr: Row, c: string, js: JoinShape)
    requires c in js.inner && c in js.left && c in js.right && c !in js.keys
    ensures Lookup(BothRow(lr, rr, js), Suffixed(c, Df1)) == Get(lr, c)
    ensures Lookup(BothRow(lr, rr, js), Suffixed(c, Df2)) == Get(rr, c)
  {
    var p1, p2 := Part(lr, LeftLabels(js)), Part(rr, RightNonKeyLabels(js));
    RenameInLabelSet(c, js.left, {}, js.inner, Df1);
    RenameInLabelSet(c, js.right, KeySet(js), js.inner, Df2);
    assert Suffixed(c, Df1) in p1 && Suffixed(c, Df2) in p2;
    if Suffixed(c, Df1) in RightNonKeyLabels(js) {
      LabelSetMember(Suffixed(c, Df1), js.right, KeySet(js), js.inner, Df2);
    }
    assert Suffixed(c, Df1) !in p2;
  }

  /** In a row only the first table contributed, `c_df2` is NaN. */
  lemma InnerCellsOfLeftOnlyRow(lr: Row, c: string, js: JoinShape)
    requires c in js.inner && c in js.left && c in js.right && c !in js.keys
    ensures Lookup(LeftOnlyRow(lr, js), Suffixed(c, Df1)) == Get(lr, c)
    ensures Lookup(LeftOnlyRow(lr, js), Suffixed(c, Df2)) == None
  {
    var p1, p2 := Part(lr, LeftLabels(js)), Padding(RightNonKeyLabels(js));
    RenameInLabelSet(c, js.left, {}, js.inner, Df1);
    RenameInLabelSet(c, js.right, KeySet(js), js.inner, Df2);
    assert Suffixed(c, Df1) in p1 && Suffixed(c, Df2) in p2;
    if Suffixed(c, Df1) in RightNonKeyLabels(js) {
      LabelSetMember(Suffixed(c, Df1), js.right, KeySet(js), js.inner, Df2);
    }
    assert Suffixed(c, Df1) !in p2;
  }

  /** In a row only the second table contributed, `c_df1` is NaN. */
  lemma InnerCellsOfRightOnlyRow(rr: Row, c: string, js: JoinShape)
    requires c in js.inner && c in js.left && c in js.right && c !in js.keys
    ensures Lookup(RightOnlyRow(rr, js), Suffixed(c, Df1)) == None
    ensures Lookup(RightOnlyRow(rr, js), Suffixed(c, Df2)) == Get(rr, c)
  {
    var p1, p2 := Padding(LeftNonKeyLabels(js)), Part(rr, RightLabels(js));
    RenameInLabelSet(c, js.left, KeySet(js), js.inner, Df1);
    RenameInLabelSet(c, js.right, {}, js.inner, Df2);
    assert Suffixed(c, Df1) in p1 && Suffixed(c, Df2) in p2;
    if Suffixed(c, Df1) in RightLabels(js) {
      LabelSetMember(Suffixed(c, Df1), js.right, {}, js.inner, Df2);
    }
    assert Suffixed(c, Df1) !in p2;
  }

  /** The `_merge` indicator names the side(s) a row came from. */
  lemma TagsOfRows(lr: Row, rr: Row, js: JoinShape)
    ensures Lookup(BothRow(lr, rr, js), Indicator) == Some(BothTag)
    ensures Lookup(LeftOnlyRow(lr, js), Indicator) == Some(LeftOnlyTag)
    ensures Lookup(RightOnlyRow(rr, js), Indicator) == Some(RightOnlyTag)
  {
  }

  // ---------------------------------------------------------------------
  // Row counts of the join on keys
  // ---------------------------------------------------------------------

  function SumLeft(left: seq<Row>, right: seq<Row>, keys: seq<string>): nat {
    if left == [] then 0 else MatchCount(KeyOf(left[0], keys), right, keys) + SumLeft(left[1..], right, keys)
  }

  function SumRight(left: seq<Row>, right: seq<Row>, keys: seq<string>): nat {
    if right == [] then 0 else MatchCount(KeyOf(right[0], keys), left, keys) + SumRight(left, right[1..], keys)
  }

  lemma {:induction false} SumRightSplit(left: seq<Row>, right: seq<Row>, keys: seq<string>)
    requires left != []
    ensures SumRight(left, right, keys) == MatchCount(KeyOf(left[0], keys), right, keys) + SumRight(left[1..], right, keys)
    decreases |right|
  {
    if right != [] {
      SumRightSplit(left, right[1..], keys);
      assert left == [left[0]] + left[1..];
    }
  }

  /** Counting matched pairs from either side gives the same number. */
  lemma {:induction false} DoubleCounting(left: seq<Row>, right: seq<Row>, keys: seq<string>)
    ensures SumLeft(left, right, keys) == SumRight(left, right, keys)
    decreases |left|
  {
    if left == [] {
      SumRightEmpty(right, keys);
    } else {
      DoubleCounting(left[1..], right, keys);
      SumRightSplit(left, right, keys);
    }
  }

  lemma {:induction false} SumRightEmpty(right: seq<Row>, keys: seq<string>)
    ensures SumRight([], right, keys) == 0
    decreases |right|
  {
    if right != [] {
      SumRightEmpty(right[1..], keys);
    }
  }

  lemma {:induction false} LeftRowsLength(left: seq<Row>, right: seq<Row>, js: JoinShape)
    ensures |LeftRows(left, right, js)| >= |left|
    ensures |LeftRows(left, right, js)| >= SumLeft(left, right, js.keys)
    decreases |left|
  {
    if left != [] {
      LeftRowsLength(left[1..], right, js);
    }
  }

  lemma {:induction false} RightUnmatchedLength(left: seq<Row>, right: seq<Row>, js: JoinShape)
    ensures SumRight(left, right, js.keys) + |RightUnmatched(left, right, js)| >= |right|
    decreases |right|
  {
    if right != [] {
      RightUnmatchedLength(left, right[1..], js);
    }
  }

  /** No input row is lost: the join has at least as many rows as each input. */
  lemma KeyJoinCoversBoth(left: seq<Row>, right: seq<Row>, js: JoinShape)
    ensures |KeyJoin(left, right, js)| >= Max(|left|, |right|)
  {
    LeftRowsLength(left, right, js);
    RightUnmatchedLength(left, right, js);
    DoubleCounting(left, right, js.keys);
  }

  /** Whichever join `_comp` takes, the merged frame has at least as many rows as each input table. */
  lemma MergeCoversBoth(l: Table, r: Table, keys: seq<string>, inner: set<string>)
    ensures |Merge(l, r, keys, inner).rows| >= |l.rows|
    ensures |Merge(l, r, keys, inner).rows| >= |r.rows|
    ensures keys == [] ==> |Merge(l, r, keys, inner).rows| == Max(|l.rows|, |r.rows|)
  {
    if keys != [] {
      KeyJoinCoversBoth(l.rows, r.rows, ShapeOf(l, r, keys, inner));
    }
  }

  // ---------------------------------------------------------------------
  // Multiplicity per key tuple
  // ---------------------------------------------------------------------

  /** The merged rows with indicator `tag` and key tuple `k`. */
  function CountTagged(rows: seq<MRow>, tag: string, k: seq<Cell>, keys: seq<string>): nat {
    if rows == [] then 0
    else
      var here := if Lookup(rows[0], Indicator) == Some(tag) && MKey(rows[0], keys) == k then 1 else 0;
      here + CountTagged(rows[1..], tag, k, keys)
  }

  lemma {:induction false} CountTaggedAppend(a: seq<MRow>, b: seq<MRow>, tag: string, k: seq<Cell>, keys: seq<string>)
    ensures CountTagged(a + b, tag, k, keys) == CountTagged(a, tag, k, keys) + CountTagged(b, tag, k, keys)
    decreases |a|
  {
    if a == [] {
      assert a + b == b;
    } else {
      CountTaggedAppend(a[1..], b, tag, k, keys);
      assert (a + b)[0] == a[0];
      assert (a + b)[1..] == a[1..] + b;
    }
  }

  lemma {:induction false} CountTaggedBothRows(lr: Row, m: seq<Row>, js: JoinShape, tag: string, k: seq<Cell>)
    requires KeysFit(js)
    ensures var rows := seq(|m|, i requires 0 <= i < |m| => BothRow(lr, m[i], js));
      CountTagged(rows, tag, k, js.keys) == if tag == BothTag && KeyOf(lr, js.keys) == k then |m| else 0
    decreases |m|
  {
    var rows := seq(|m|, i requires 0 <= i < |m| => BothRow(lr, m[i], js));
    if m != [] {
      CountTaggedBothRows(lr, m[1..], js, tag, k);
      assert rows[1..] == seq(|m[1..]|, i requires 0 <= i < |m[1..]| => BothRow(lr, m[1..][i], js));
      KeysOfRows(lr, m[0], js);
      TagsOfRows(lr, m[0], js);
    }
  }

  /** What one left row contributes, counted by indicator and key tuple. */
  lemma CountRowsFor(lr: Row, right: seq<Row>, js: JoinShape, tag: string, k: seq<Cell>)
    requires KeysFit(js)
    ensures CountTagged(RowsFor(lr, right, js), tag, k, js.keys) ==
      if KeyOf(lr, js.keys) != k then 0
      else if tag == BothTag then MatchCount(k, right, js.keys)
      else if tag == LeftOnlyTag && MatchCount(k, right, js.keys) == 0 then 1
      else 0
  {
    var m := Matches(KeyOf(lr, js.keys), right, js.keys);
    if m == [] {
      KeysOfRows(lr, lr, js);
      TagsOfRows(lr, lr, js);
      assert CountTagged([LeftOnlyRow(lr, js)][1..], tag, k, js.keys) == 0;
    } else {
      CountTaggedBothRows(lr, m, js, tag, k);
    }
  }

  lemma {:induction false} CountLeftRows(left: seq<Row>, right: seq<Row>, js: JoinShape, tag: string, k: seq<Cell>)
    requires KeysFit(js)
    ensures CountTagged(LeftRows(left, right, js), tag, k, js.keys) ==
      var lc, rc := MatchCount(k, left, js.keys), MatchCount(k, right, js.keys);
      if tag == BothTag then lc * rc
      else if tag == LeftOnlyTag && rc == 0 then lc
      else 0
    decreases |left|
  {
    if left != [] {
      var lr := left[0];
      var rest := LeftRows(left[1..], right, js);
      assert LeftRows(left, right, js) == RowsFor(lr, right, js) + rest;
      CountLeftRows(left[1..], right, js, tag, k);
      CountTaggedAppend(RowsFor(lr, right, js), rest, tag, k, js.keys);
      CountRowsFor(lr, right, js, tag, k);
      MatchCountCons(k, left, js.keys);
      var a := MatchCount(k, left[1..], js.keys);
      var b := MatchCount(k, right, js.keys);
      if KeyOf(lr, js.keys) == k {
        MulSucc(a, b);
      }
    }
  }

  lemma MulSucc(a: nat, b: nat)
    ensures (1 + a) * b == b + a * b
  {
  }

  lemma MatchCountCons(k: seq<Cell>, rows: seq<Row>, keys: seq<string>)
    requires rows != []
    ensures MatchCount(k, rows, keys) == (if KeyOf(rows[0], keys) == k then 1 else 0) + MatchCount(k, rows[1..], keys)
  {
  }

  lemma {:induction false} CountRightUnmatched(left: seq<Row>, right: seq<Row>, js: JoinShape, k: seq<Cell>)
    requires KeysFit(js)
    ensures CountTagged(RightUnmatched(left, right, js), BothTag, k, js.keys) == 0
    ensures CountTagged(RightUnmatched(left, right, js), LeftOnlyTag, k, js.keys) == 0
    ensures CountTagged(RightUnmatched(left, right, js), RightOnlyTag, k, js.keys)
      == if MatchCount(k, left, js.keys) == 0 then MatchCount(k, right, js.keys) else 0
    decreases |right|
  {
    if right != [] {
      var rr := right[0];
      var head := if MatchCount(KeyOf(rr, js.keys), left, js.keys) == 0 then [RightOnlyRow(rr, js)] else [];
      CountRightUnmatched(left, right[1..], js, k);
      CountTaggedAppend(head, RightUnmatched(left, right[1..], js), BothTag, k, js.keys);
      CountTaggedAppend(head, RightUnmatched(left, right[1..], js), LeftOnlyTag, k, js.keys);
      CountTaggedAppend(head, RightUnmatched(left, right[1..], js), RightOnlyTag, k, js.keys);
      KeysOfRows(rr, rr, js);
      TagsOfRows(rr, rr, js);
      assert head != [] ==> head[1..] == [];
    }
  }

  /**
   * The join on keys, key tuple by key tuple: a tuple present on both sides
   * yields (left count x right count) rows marked `both`; a tuple present on
   * one side only yields each of its rows once, marked `left_only` or
   * `right_only`.
   */
  lemma KeyJoinMultiplicity(left: seq<Row>, right: seq<Row>, js: JoinShape, k: seq<Cell>)
    requires KeysFit(js)
    ensures var rows := KeyJoin(left, right, js);
      var lc, rc := MatchCount(k, left, js.keys), MatchCount(k, right, js.keys);
      && CountTagged(rows, BothTag, k, js.keys) == lc * rc
      && CountTagged(rows, LeftOnlyTag, k, js.keys) == (if rc == 0 then lc else 0)
      && CountTagged(rows, RightOnlyTag, k, js.keys) == (if lc == 0 then rc else 0)
  {
    CountLeftRows(left, right, js, BothTag, k);
    CountLeftRows(left, right, js, LeftOnlyTag, k);
    CountLeftRows(left, right, js, RightOnlyTag, k);
    CountRightUnmatched(left, right, js, k);
    CountTaggedAppend(LeftRows(left, right, js), RightUnmatched(left, right, js), BothTag, k, js.keys);
    CountTaggedAppend(LeftRows(left, right, js), RightUnmatched(left, right, js), LeftOnlyTag, k, js.keys);
    CountTaggedAppend(LeftRows(left, right, js), RightUnmatched(left, right, js), RightOnlyTag, k, js.keys);
  }

  // ---------------------------------------------------------------------
  // Every merged row is one of the three kinds
  // ---------------------------------------------------------------------

  /** A row both inputs contributed, or a row of one input padded with NaN on the other side. */
  ghost predicate JoinRow(m: MRow, left: seq<Row>, right: seq<Row>, js: JoinShape) {
    || (exists lr, rr | lr in left && rr in right :: m == BothRow(lr, rr, js))
    || (exists lr | lr in left :: m == LeftOnlyRow(lr, js))
    || (exists rr | rr in right :: m == RightOnlyRow(rr, js))
  }

  /** The matches of `k` are exactly the rows whose key tuple is `k`. */
  lemma {:induction false} MatchesExact(k: seq<Cell>, rows: seq<Row>, keys: seq<string>)
    ensures forall x :: x in Matches(k, rows, keys) <==> x in rows && KeyOf(x, keys) == k
    decreases |rows|
  {
    if rows != [] {
      MatchesExact(k, rows[1..], keys);
      assert rows == [rows[0]] + rows[1..];
    }
  }

  lemma {:induction false} LeftRowsAreJoinRows(left: seq<Row>, right: seq<Row>, js: JoinShape)
    ensures forall m | m in LeftRows(left, right, js) :: JoinRow(m, left, right, js)
    decreases |left|
  {
    if left != [] {
      var lr := left[0];
      var here := RowsFor(lr, right, js);
      var ms := Matches(KeyOf(lr, js.keys), right, js.keys);
      MatchesExact(KeyOf(lr, js.keys), right, js.keys);
      forall m | m in here ensures JoinRow(m, left, right, js) {
        if ms == [] {
          assert m == LeftOnlyRow(lr, js);
        } else {
          var i :| 0 <= i < |here| && here[i] == m;
          assert m == BothRow(lr, ms[i], js) && ms[i] in ms;
        }
      }
      LeftRowsAreJoinRows(left[1..], right, js);
      forall m | m in LeftRows(left[1..], right, js) ensures JoinRow(m, left, right, js) {
        assert JoinRow(m, left[1..], right, js);
        assert forall x | x in left[1..] :: x in left;
      }
    }
  }

  lemma {:induction false} RightUnmatchedAreJoinRows(left: seq<Row>, right: seq<Row>, js: JoinShape)
    ensures forall m | m in RightUnmatched(left, right, js) :: JoinRow(m, left, right, js)
    decreases |right|
  {
    if right != [] {
      RightUnmatchedAreJoinRows(left, right[1..], js);
      forall m | m in RightUnmatched(left, right[1..], js) ensures JoinRow(m, left, right, js) {
        assert JoinRow(m, left, right[1..], js);
        assert forall x | x in right[1..] :: x in right;
      }
      assert right[0] in right;
    }
  }

  /** Whichever join `_comp` takes, each merged row is built from rows of the two inputs in one of the three ways. */
  lemma MergeRowsAreJoinRows(l: Table, r: Table, keys: seq<string>, inner: set<string>)
    ensures forall m | m in Merge(l, r, keys, inner).rows :: JoinRow(m, l.rows, r.rows, ShapeOf(l, r, keys, inner))
  {
    var js := ShapeOf(l, r, keys, inner);
    if keys != [] {
      LeftRowsAreJoinRows(l.rows, r.rows, js);
      RightUnmatchedAreJoinRows(l.rows, r.rows, js);
    } else {
      var rows := IndexJoin(l.rows, r.rows, js);
      forall m | m in rows ensures JoinRow(m, l.rows, r.rows, js) {
        var i :| 0 <= i < |rows| && rows[i] == m;
        if i < |l.rows| && i < |r.rows| {
          assert l.rows[i] in l.rows && r.rows[i] in r.rows;
        } else if i < |l.rows| {
          assert l.rows[i] in l.rows;
        } else {
          assert r.rows[i] in r.rows;
        }
      }
    }
  }

  // ---------------------------------------------------------------------
  // Every input row reaches the merge
  // ---------------------------------------------------------------------

  /** Left row `lr` appears in `rows`: padded, or paired with some right row. */
  ghost predicate HasLeft(rows: seq<MRow>, lr: Row, right: seq<Row>, js: JoinShape) {
    LeftOnlyRow(lr, js) in rows || exists rr | rr in right :: BothRow(lr, rr, js) in rows
  }

  /** Right row `rr` appears in `rows`: padded, or paired with some left row. */
  ghost predicate HasRight(rows: seq<MRow>, rr: Row, left: seq<Row>, js: JoinShape) {
    RightOnlyRow(rr, js) in rows || exists lr | lr in left :: BothRow(lr, rr, js) in rows
  }

  lemma {:induction false} RowsForInLeftRows(left: seq<Row>, right: seq<Row>, js: JoinShape, i: int)
    requires 0 <= i < |left|
    ensures forall m | m in RowsFor(left[i], right, js) :: m in LeftRows(left, right, js)
    decreases |left|
  {
    var head := RowsFor(left[0], right, js);
    var tail := LeftRows(left[1..], right, js);
    assert LeftRows(left, right, js) == head + tail;
    if i == 0 {
      InAppend(head, tail);
    } else {
      RowsForInLeftRows(left[1..], right, js, i - 1);
      assert left[1..][i - 1] == left[i];
      InAppend(head, tail);
    }
  }

  lemma InAppend<T>(a: seq<T>, b: seq<T>)
    ensures forall x | x in a :: x in a + b
    ensures forall x | x in b :: x in a + b
  {
  }

  lemma LeftRowsKeep(left: seq<Row>, right: seq<Row>, js: JoinShape, i: int)
    requires 0 <= i < |left|
    ensures HasLeft(LeftRows(left, right, js), left[i], right, js)
  {
    var lr := left[i];
    var ms := Matches(KeyOf(lr, js.keys), right, js.keys);
    RowsForInLeftRows(left, right, js, i);
    if ms == [] {
      assert LeftOnlyRow(lr, js) in RowsFor(lr, right, js);
    } else {
      MatchesExact(KeyOf(lr, js.keys), right, js.keys);
      assert ms[0] in ms;
      assert RowsFor(lr, right, js)[0] == BothRow(lr, ms[0], js);
    }
  }

  lemma {:induction false} RightUnmatchedKeep(left: seq<Row>, right: seq<Row>, js: JoinShape, j: int)
    requires 0 <= j < |right|
    requires MatchCount(KeyOf(right[j], js.keys), left, js.keys) == 0
    ensures RightOnlyRow(right[j], js) in RightUnmatched(left, right, js)
    decreases |right|
  {
    if j > 0 {
      assert right[1..][j - 1] == right[j];
      RightUnmatchedKeep(left, right[1..], js, j - 1);
    }
  }

  lemma KeyJoinKeepsRight(left: seq<Row>, right: seq<Row>, js: JoinShape, j: int)
    requires 0 <= j < |right|
    ensures HasRight(KeyJoin(left, right, js), right[j], left, js)
  {
    var rr := right[j];
    var k := KeyOf(rr, js.keys);
    if MatchCount(k, left, js.keys) == 0 {
      RightUnmatchedKeep(left, right, js, j);
    } else {
      var ls := Matches(k, left, js.keys);
      MatchesExact(k, left, js.keys);
      var lr := ls[0];
      assert lr in ls;
      var i :| 0 <= i < |left| && left[i] == lr;
      var rs := Matches(k, right, js.keys);
      MatchesExact(k, right, js.keys);
      assert rr in rs;
      var p :| 0 <= p < |rs| && rs[p] == rr;
      assert RowsFor(lr, right, js)[p] == BothRow(lr, rr, js);
      RowsForInLeftRows(left, right, js, i);
    }
  }

  /** The outer join loses no input row: each row of each table is in the merge, padded or paired. */
  lemma MergeKeepsInputRows(l: Table, r: Table, keys: seq<string>, inner: set<string>)
    ensures var rows := Merge(l, r, keys, inner).rows;
      var js := ShapeOf(l, r, keys, inner);
      && (forall i | 0 <= i < |l.rows| :: HasLeft(rows, l.rows[i], r.rows, js))
      && (forall j | 0 <= j < |r.rows| :: HasRight(rows, r.rows[j], l.rows, js))
  {
    var rows := Merge(l, r, keys, inner).rows;
    var js := ShapeOf(l, r, keys, inner);
    if keys != [] {
      forall i | 0 <= i < |l.rows| ensures HasLeft(rows, l.rows[i], r.rows, js) {
        LeftRowsKeep(l.rows, r.rows, js, i);
        var lefts := LeftRows(l.rows, r.rows, js);
        assert forall m | m in lefts :: m in rows;
      }
      forall j | 0 <= j < |r.rows| ensures HasRight(rows, r.rows[j], l.rows, js) {
        KeyJoinKeepsRight(l.rows, r.rows, js, j);
      }
    } else {
      forall i | 0 <= i < |l.rows| ensures HasLeft(rows, l.rows[i], r.rows, js) {
        assert rows[i] in rows;
        if i < |r.rows| {
          assert r.rows[i] in r.rows;
        }
      }
      forall j | 0 <= j < |r.rows| ensures HasRight(rows, r.rows[j], l.rows, js) {
        assert rows[j] in rows;
        if j < |l.rows| {
          assert l.rows[j] in l.rows;
        }
      }
    }
  }

  // ---------------------------------------------------------------------
  // A table joined with itself
  // ---------------------------------------------------------------------

  /** No two rows share a key tuple. */
  predicate UniqueKeys(rows: seq<Row>, keys: seq<string>) {
    forall i, j | 0 <= i < j < |rows| :: KeyOf(rows[i], keys) != KeyOf(rows[j], keys)
  }

  lemma {:induction false} MatchesNone(k: seq<Cell>, rows: seq<Row>, keys: seq<string>)
    requires forall x | x in rows :: KeyOf(x, keys) != k
    ensures Matches(k, rows, keys) == []
    decreases |rows|
  {
    if rows != [] {
      assert forall x | x in rows[1..] :: x in rows;
      MatchesNone(k, rows[1..], keys);
    }
  }

  lemma {:induction false} MatchesSingle(rows: seq<Row>, keys: seq<string>, i: int)
    requires UniqueKeys(rows, keys) && 0 <= i < |rows|
    ensures Matches(KeyOf(rows[i], keys), rows, keys) == [rows[i]]
    decreases |rows|
  {
    var k := KeyOf(rows[i], keys);
    var tail := rows[1..];
    if i == 0 {
      forall x | x in tail ensures KeyOf(x, keys) != k {
        var j :| 0 <= j < |tail| && tail[j] == x;
        assert x == rows[j + 1];
      }
      MatchesNone(k, tail, keys);
    } else {
      assert UniqueKeys(tail, keys) by {
        forall a, b | 0 <= a < b < |tail| ensures KeyOf(tail[a], keys) != KeyOf(tail[b], keys) {
          assert tail[a] == rows[a + 1] && tail[b] == rows[b + 1];
        }
      }
      assert tail[i - 1] == rows[i];
      MatchesSingle(tail, keys, i - 1);
    }
  }

  lemma {:induction false} LeftRowsSelf(left: seq<Row>, right: seq<Row>, js: JoinShape)
    requires forall i | 0 <= i < |left| :: Matches(KeyOf(left[i], js.keys), right, js.keys) == [left[i]]
    ensures LeftRows(left, right, js) == seq(|left|, i requires 0 <= i < |left| => BothRow(left[i], left[i], js))
    decreases |left|
  {
    if left != [] {
      var tail := left[1..];
      forall i | 0 <= i < |tail| ensures Matches(KeyOf(tail[i], js.keys), right, js.keys) == [tail[i]] {
        assert tail[i] == left[i + 1];
      }
      LeftRowsSelf(tail, right, js);
      assert RowsFor(left[0], right, js) == [BothRow(left[0], left[0], js)];
    }
  }

  lemma {:induction false} RightUnmatchedNone(left: seq<Row>, right: seq<Row>, js: JoinShape)
    requires forall j | 0 <= j < |right| :: MatchCount(KeyOf(right[j], js.keys), left, js.keys) > 0
    ensures RightUnmatched(left, right, js) == []
    decreases |right|
  {
    if right != [] {
      var tail := right[1..];
      forall j | 0 <= j < |tail| ensures MatchCount(KeyOf(tail[j], js.keys), left, js.keys) > 0 {
        assert tail[j] == right[j + 1];
      }
      RightUnmatchedNone(left, tail, js);
    }
  }

  /** Joined with itself on keys no two of its rows share, a table pairs each row with itself and nothing else. */
  lemma KeyJoinSelf(rows: seq<Row>, js: JoinShape)
    requires UniqueKeys(rows, js.keys)
    ensures KeyJoin(rows, rows, js) == seq(|rows|, i requires 0 <= i < |rows| => BothRow(rows[i], rows[i], js))
  {
    forall i | 0 <= i < |rows| ensures Matches(KeyOf(rows[i], js.keys), rows, js.keys) == [rows[i]] {
      MatchesSingle(rows, js.keys, i);
    }
    LeftRowsSelf(rows, rows, js);
    RightUnmatchedNone(rows, rows, js);
  }
}
