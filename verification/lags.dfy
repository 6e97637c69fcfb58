/**
 * The lag-feature table of the XGBOOST branch of src/model.py: 24 columns
 * `lag_1` .. `lag_24`, each the `fact` column shifted down, added one per loop
 * iteration, followed by `dropna()` over every column.
 */
module Lags {
  import opened Wrappers
  import opened Sequences
  import opened Frames

  /** `look_back`: the number of lag columns. */
  const LookBack: int := 24

  /** `s.shift(i)`: `i` NaNs in front, the last `i` values pushed out. */
  function Shift(s: seq<Num>, i: nat): (r: seq<Num>)
    ensures |r| == |s|
    ensures forall t :: 0 <= t < |s| ==> r[t] == if t >= i then s[t - i] else None
  {
    var m := Min(i, |s|);
    seq(m, _ => None) + s[..|s| - m]
  }

  /** The lag columns in the order they are added: entry `i - 1` is `lag_i`. */
  function LagColumns(fact: seq<Num>): (cols: seq<seq<Num>>)
    ensures |cols| == LookBack
    ensures forall j :: 0 <= j < LookBack ==> |cols[j]| == |fact|
    ensures forall j, t :: 0 <= j < LookBack && 0 <= t < |fact| ==>
      cols[j][t] == if t > j then fact[t - 1 - j] else None
  {
    seq(LookBack, j requires 0 <= j < LookBack => Shift(fact, j + 1))
  }

  /**
   * The loop `for i in range(1, look_back + 1)` that adds `lag_i` as column
   * `i - 1`: afterwards `lag_i` at row `t` is `fact` at row `t - i`, and NaN
   * for the first `i` rows.
   */
  method AddLagColumns(fact: seq<Num>) returns (cols: seq<seq<Num>>)
    ensures cols == LagColumns(fact)
    ensures |cols| == LookBack
    ensures forall j :: 0 <= j < LookBack ==> |cols[j]| == |fact|
    ensures forall j, t :: 0 <= j < LookBack && 0 <= t < |fact| ==>
      cols[j][t] == if t > j then fact[t - 1 - j] else None
  {
    cols := [];
    for i := 1 to LookBack + 1
      invariant |cols| == i - 1
      invariant forall j :: 0 <= j < i - 1 ==> cols[j] == Shift(fact, j + 1)
    {
      cols := cols + [Shift(fact, i)];
    }
  }

  /** One row of `df_lags`: the frame row and its lags, `lags[i - 1]` being `lag_i`. */
  datatype LagRow = LagRow(row: Row, lags: seq<Num>)

  /** `df_lags` after the loop. */
  function LagTable(frame: seq<Row>): (table: seq<LagRow>)
    ensures |table| == |frame|
  {
    var cols := LagColumns(Facts(frame));
    seq(|frame|, t requires 0 <= t < |frame| =>
      LagRow(frame[t], seq(LookBack, j requires 0 <= j < LookBack => cols[j][t])))
  }

  /** Every value of a frame row that `dropna()` looks at, lags aside. */
  predicate RowComplete(r: Row)
  {
    r.fact.Some? && r.plan.Some? && r.cloudiness.Some? && r.temperature.Some? && r.extrasPresent
  }

  /** `dropna()` keeps a row of `df_lags` only when no column, lag or otherwise, is NaN. */
  predicate Complete(x: LagRow)
  {
    RowComplete(x.row) && forall j :: 0 <= j < |x.lags| ==> x.lags[j].Some?
  }

  /** `df_lags.dropna()`. */
  function LagRows(frame: seq<Row>): (rows: seq<LagRow>)
    ensures |rows| <= |frame|
  {
    Filter(LagTable(frame), Complete)
  }

  /** Every row that survives the drop has all its values and all 24 lags. */
  lemma LagRowsComplete(frame: seq<Row>)
    ensures forall i :: 0 <= i < |LagRows(frame)| ==> Complete(LagRows(frame)[i])
  {
  }

  /** Row `t` of the table carries `frame[t]` and, as `lag_(j+1)`, the fact `j + 1` rows earlier. */
  lemma LagTableAt(frame: seq<Row>, t: int)
    requires 0 <= t < |frame|
    ensures LagTable(frame)[t].row == frame[t]
    ensures |LagTable(frame)[t].lags| == LookBack
    ensures forall j :: 0 <= j < LookBack ==>
      LagTable(frame)[t].lags[j] == if t > j then frame[t - 1 - j].fact else None
  {
  }

  /** None of the first 24 rows survives the drop: each lacks at least `lag_24`. */
  lemma WarmUpRowsDropped(frame: seq<Row>, t: int)
    requires 0 <= t < |frame| && t < LookBack
    ensures !Complete(LagTable(frame)[t])
  {
    LagTableAt(frame, t);
    assert LagTable(frame)[t].lags[LookBack - 1] == None;
  }

  /**
   * A row of the table that survives the drop sits at least 24 rows into the
   * frame, and its lags are the 24 preceding facts, all present.
   */
  lemma CompleteLagRow(frame: seq<Row>, t: int)
    requires 0 <= t < |frame| && Complete(LagTable(frame)[t])
    ensures LookBack <= t && RowComplete(frame[t])
    ensures forall u :: t - LookBack <= u < t ==> frame[u].fact.Some?
    ensures forall j :: 0 <= j < LookBack ==> LagTable(frame)[t].lags[j] == frame[t - 1 - j].fact
  {
    if t < LookBack {
      WarmUpRowsDropped(frame, t);
      assert false;
    }
    LagTableAt(frame, t);
    var x := LagTable(frame)[t];
    forall u | t - LookBack <= u < t
      ensures frame[u].fact.Some?
    {
      assert x.lags[t - 1 - u].Some?;
    }
  }

  /** The drop leaves at most `n - 24` rows. */
  lemma LagRowsCount(frame: seq<Row>)
    requires |frame| >= LookBack
    ensures LagRows(frame) == Filter(LagTable(frame)[LookBack..], Complete)
    ensures |LagRows(frame)| <= |frame| - LookBack
  {
    var table := LagTable(frame);
    assert table == table[..LookBack] + table[LookBack..];
    FilterConcat(table[..LookBack], table[LookBack..], Complete);
    forall t | 0 <= t < LookBack
      ensures !Complete(table[..LookBack][t])
    {
      WarmUpRowsDropped(frame, t);
    }
    FilterNone(table[..LookBack], Complete);
  }

  /** Row `t` of the table, from row 24 on, is complete when the 25 frame rows ending at `t` are. */
  lemma LagRowCompleteAt(frame: seq<Row>, t: int)
    requires LookBack <= t < |frame|
    requires forall u :: t - LookBack <= u <= t ==> RowComplete(frame[u])
    ensures Complete(LagTable(frame)[t])
  {
    LagTableAt(frame, t);
    var x := LagTable(frame)[t];
    forall j | 0 <= j < |x.lags|
      ensures x.lags[j].Some?
    {
      assert RowComplete(frame[t - 1 - j]);
    }
  }

  /** When every row of the frame is complete, the drop removes exactly the first 24 rows. */
  lemma LagRowsOfCompleteFrame(frame: seq<Row>)
    requires |frame| >= LookBack
    requires forall t :: 0 <= t < |frame| ==> RowComplete(frame[t])
    ensures LagRows(frame) == LagTable(frame)[LookBack..]
    ensures |LagRows(frame)| == |frame| - LookBack
  {
    var tail := LagTable(frame)[LookBack..];
    LagRowsCount(frame);
    forall s | 0 <= s < |tail|
      ensures Complete(tail[s])
    {
      LagRowCompleteAt(frame, s + LookBack);
    }
    FilterAll(tail, Complete);
  }

  /** On a complete frame, row `u` of `df_lags.dropna()` carries frame row `u + 24`. */
  lemma CompleteFrameLagRowAt(frame: seq<Row>)
    requires |frame| >= LookBack
    requires forall t :: 0 <= t < |frame| ==> RowComplete(frame[t])
    ensures |LagRows(frame)| == |frame| - LookBack
    ensures forall u :: 0 <= u < |LagRows(frame)| ==> LagRows(frame)[u].row == frame[LookBack + u]
  {
    LagRowsOfCompleteFrame(frame);
    forall u | 0 <= u < |frame| - LookBack
      ensures LagRows(frame)[u].row == frame[LookBack + u]
    {
      LagTableAt(frame, LookBack + u);
    }
  }
}
