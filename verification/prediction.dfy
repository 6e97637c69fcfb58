/**
 * `create_prediction` of src/model.py: preprocessing, the size guard, the
 * 70/30 hold-out split, the three mutually exclusive model branches and the
 * slicing of the observed window to the forecast horizon. The fitted models
 * themselves are library calls and appear as the fields of `Library`.
 */
module Prediction {
  import opened Wrappers
  import opened Constants
  import opened Sequences
  import opened Frames
  import opened Lags
  import opened Schemas

  /** The smallest series the pipeline accepts. */
  const MinObservations: int := 30

  /** `int(total_size * 0.3)`: the floor of three tenths of `n`. */
  function TestSize(n: nat): (ts: int)
    ensures 0 <= ts && 10 * ts <= 3 * n < 10 * ts + 10
    ensures n >= MinObservations ==> 9 <= ts <= n - 21
  {
    (3 * n) / 10
  }

  /** A row of the regression features `X`: `df_lags` without its `fact` column. */
  datatype FeatureRow = FeatureRow(date: int, plan: Num, cloudiness: Num, temperature: Num, lags: seq<Num>)

  function Features(x: LagRow): FeatureRow
  {
    FeatureRow(x.row.date, x.row.plan, x.row.cloudiness, x.row.temperature, x.lags)
  }

  /**
   * The library calls the pipeline makes: numeric conversion, and fitting and
   * forecasting with each model.
   *  - `sarima(train, steps)`: the forecast of the seasonal ARIMA model fitted on `train`;
   *  - `prophet(history, frame, periods)`: the in-sample and future `yhat` of the additive
   *    model fitted on `history`, with regressors merged from `frame`;
   *  - `xgboost(xTrain, yTrain, x)`: the predictions for `x` of the tree regressor fitted on
   *    `(xTrain, yTrain)`.
   */
  datatype Library = Library(
    toNumeric: NumericParser,
    sarima: (seq<Num>, int) -> seq<real>,
    prophet: (seq<Row>, seq<Row>, int) -> seq<real>,
    xgboost: (seq<FeatureRow>, seq<Num>, seq<FeatureRow>) -> seq<real>)
  {
    /** Each forecaster returns one value per step, per history row and future period, or per input row. */
    ghost predicate Valid()
    {
      && (forall train, steps :: steps >= 0 ==> |sarima(train, steps)| == steps)
      && (forall history, frame, periods :: periods >= 0 ==> |prophet(history, frame, periods)| == |history| + periods)
      && (forall xTrain, yTrain, x :: |xgboost(xTrain, yTrain, x)| == |x|)
    }
  }

  /** What reaches the chart: the model, the timestamps, and the observed and predicted values. */
  datatype Forecast = Forecast(model: AvailableModel, window: seq<int>, observed: seq<real>, predicted: seq<real>)

  /**
   * The three independent `if model_type == ...` tests: the branches that run
   * for a selector. Their strings differ, so at most one runs.
   */
  function Branches(modelType: string): (bs: seq<AvailableModel>)
    ensures |bs| <= 1
    ensures |bs| == 1 <==> modelType in {"SARIMA", "FB_PROPHET", "XGBOOST"}
    ensures |bs| == 1 ==> ModelValue(bs[0]) == modelType
  {
    (if modelType == "SARIMA" then [SARIMA] else [])
    + (if modelType == "FB_PROPHET" then [FB_PROPHET] else [])
    + (if modelType == "XGBOOST" then [XGBOOST] else [])
  }

  function Values(s: seq<Num>): (v: seq<real>)
    requires forall i :: 0 <= i < |s| ==> s[i].Some?
    ensures |v| == |s| && forall i :: 0 <= i < |s| ==> s[i] == Some(v[i])
  {
    seq(|s|, i requires 0 <= i < |s| => s[i].value)
  }

  /**
   * The metrics and the chart series: the metrics reject observed and
   * predicted sequences of different lengths, empty ones, and an observed NaN;
   * each chart series needs as many values as the window has timestamps.
   */
  function Evaluate(model: AvailableModel, window: seq<int>, observed: seq<Num>, predicted: seq<real>): (r: Result<Forecast, PipelineError>)
    ensures r.Success? <==>
      |observed| == |predicted| == |window| && |observed| > 0
      && forall i :: 0 <= i < |observed| ==> observed[i].Some?
    ensures |observed| != |predicted| ==> r == Failure(InconsistentLengths)
    ensures r.Failure? ==> r.error in {InconsistentLengths, EmptyMetricInput, MissingObservedValue, IndexLengthMismatch}
    ensures r.Success? ==>
      && r.value.model == model && r.value.window == window && r.value.predicted == predicted
      && |r.value.observed| == |observed|
      && forall i :: 0 <= i < |observed| ==> observed[i] == Some(r.value.observed[i])
  {
    if |observed| != |predicted| then Failure(InconsistentLengths)
    else if |observed| == 0 then Failure(EmptyMetricInput)
    else if exists i :: 0 <= i < |observed| && observed[i].None? then Failure(MissingObservedValue)
    else if |window| != |observed| then Failure(IndexLengthMismatch)
    else Success(Forecast(model, window, Values(observed), predicted))
  }

  /** SARIMA: fit on `train`, forecast `h` steps, observe `test[:h]`. */
  function SarimaBranch(frame: seq<Row>, ts: int, h: int, lib: Library): (out: (seq<Num>, seq<real>))
    ensures 1 <= ts <= |frame| && 0 <= h ==> out.0 == Facts(frame)[|frame| - ts..][..Min(h, ts)]
    ensures lib.Valid() && 0 <= h ==> |out.1| == h
  {
    var series := Facts(frame);
    (SliceTo(SliceFrom(series, -ts), h), lib.sarima(SliceTo(series, -ts), h))
  }

  /** FB_PROPHET: fit on `df[:-test_size]`, keep the last `h` values of `yhat`, observe `test[:h]`. */
  function ProphetBranch(frame: seq<Row>, ts: int, h: int, lib: Library): (out: (seq<Num>, seq<real>))
    ensures 1 <= ts <= |frame| && 0 <= h ==> out.0 == Facts(frame)[|frame| - ts..][..Min(h, ts)]
    ensures lib.Valid() && 1 <= h ==> |out.1| == h
  {
    var yhat := lib.prophet(SliceTo(frame, -ts), frame, h);
    (SliceTo(SliceFrom(Facts(frame), -ts), h), SliceFrom(yhat, -h))
  }

  /**
   * FB_PROPHET predicts the `h` periods that follow its training history:
   * the last `h` entries of `yhat` start right after the `n - test_size`
   * in-sample rows, so no in-sample fit is reported as a forecast.
   */
  lemma ProphetBranchShape(frame: seq<Row>, ts: int, h: Horizon, lib: Library)
    requires lib.Valid()
    requires 1 <= ts <= |frame|
    ensures var out := ProphetBranch(frame, ts, h, lib);
      var yhat := lib.prophet(frame[..|frame| - ts], frame, h);
      && |out.0| == Min(h, ts) && |out.1| == h
      && (forall i :: 0 <= i < |out.0| ==> out.0[i] == frame[|frame| - ts + i].fact)
      && out.1 == yhat[|frame| - ts..]
  {
    var series := Facts(frame);
    HoldOut(frame, ts);
    var yhat := lib.prophet(frame[..|frame| - ts], frame, h);
    assert |yhat| == |frame| - ts + h;
    var out := ProphetBranch(frame, ts, h, lib);
    HeadOfTail(series, ts, h, 0);
    forall i | 0 <= i < |out.0|
      ensures out.0[i] == frame[|frame| - ts + i].fact
    {
      HeadOfTail(series, ts, h, i);
    }
  }

  /**
   * XGBOOST: split the lag table with the series' `test_size`, fit on the
   * training part, predict `X_test[:h]`, observe `y_test[:h]`.
   */
  function XgboostBranch(table: seq<LagRow>, ts: int, h: int, lib: Library): (out: (seq<Num>, seq<real>))
    ensures 1 <= ts <= |table| && 0 <= h ==> out.0 == Targets(table)[|table| - ts..][..Min(h, ts)]
    ensures lib.Valid() ==> |out.1| == |SliceTo(SliceFrom(table, -ts), h)|
  {
    var x, y := FeatureTable(table), Targets(table);
    (SliceTo(SliceFrom(y, -ts), h), lib.xgboost(SliceTo(x, -ts), SliceTo(y, -ts), SliceTo(SliceFrom(x, -ts), h)))
  }

  /** `X`: the table without its `fact` column; the timestamp is its index. */
  function FeatureTable(table: seq<LagRow>): (x: seq<FeatureRow>)
    ensures |x| == |table|
    ensures forall i :: 0 <= i < |table| ==>
      && x[i].date == table[i].row.date && x[i].lags == table[i].lags
      && x[i].plan == table[i].row.plan
      && x[i].cloudiness == table[i].row.cloudiness
      && x[i].temperature == table[i].row.temperature
  {
    seq(|table|, i requires 0 <= i < |table| => Features(table[i]))
  }

  /** `y`: the table's `fact` column. */
  function Targets(table: seq<LagRow>): (y: seq<Num>)
    ensures |y| == |table|
    ensures forall i :: 0 <= i < |table| ==> y[i] == table[i].row.fact
  {
    seq(|table|, i requires 0 <= i < |table| => table[i].row.fact)
  }

  /** `test.index[:h]`: the timestamps the chart puts on both series. */
  function Window(frame: seq<Row>, ts: int, h: int): (w: seq<int>)
    ensures 1 <= ts <= |frame| && 0 <= h ==> w == Dates(frame[|frame| - ts..])[..Min(h, ts)]
  {
    SliceTo(Dates(SliceFrom(frame, -ts)), h)
  }

  function RunBranch(model: AvailableModel, frame: seq<Row>, ts: int, h: int, lib: Library): (seq<Num>, seq<real>)
  {
    match model
    case SARIMA => SarimaBranch(frame, ts, h, lib)
    case FB_PROPHET => ProphetBranch(frame, ts, h, lib)
    case XGBOOST => XgboostBranch(LagRows(frame), ts, h, lib)
  }

  /**
   * `create_prediction` after preprocessing: the size guard, the split, the
   * branch the selector picks, and the metrics and chart.
   */
  function PredictFrom(frame: seq<Row>, modelType: string, h: Horizon, lib: Library): (r: Result<Forecast, PipelineError>)
    ensures r == Failure(InsufficientData) <==> |frame| < MinObservations
    ensures r == Failure(NoModelBranch) <==>
      |frame| >= MinObservations && modelType !in {"SARIMA", "FB_PROPHET", "XGBOOST"}
    ensures r.Failure? ==> !r.error.NotAStringColumn? && r.error != DuplicateTimestamps
    ensures r.Success? ==>
      && |frame| >= MinObservations && ModelValue(r.value.model) == modelType
      && 0 < |r.value.window| <= TestSize(|frame|)
      && r.value.window == Dates(frame[|frame| - TestSize(|frame|)..])[..|r.value.window|]
  {
    if |frame| < MinObservations then Failure(InsufficientData)
    else
      var ts := TestSize(|frame|);
      var branches := Branches(modelType);
      if branches == [] then Failure(NoModelBranch)
      else
        var out := RunBranch(branches[0], frame, ts, h, lib);
        Evaluate(branches[0], Window(frame, ts, h), out.0, out.1)
  }

  /**
   * `create_prediction(df, model_type, forecast_horizon)` up to the chart:
   * preprocessing errors come first, then the size guard on the hourly
   * series, then the selector; a success reports the selected model over a
   * prefix of the last `test_size` hours.
   */
  function CreatePrediction(raw: seq<RawRow>, modelType: string, h: Horizon, lib: Library): (r: Result<Forecast, PipelineError>)
    ensures Prepare(raw, lib.toNumeric).Failure? <==>
      r.Failure? && (r.error.NotAStringColumn? || r.error == DuplicateTimestamps)
    ensures Prepare(raw, lib.toNumeric).Failure? ==> r == Failure(Prepare(raw, lib.toNumeric).error)
    ensures r == Failure(InsufficientData) <==>
      Prepare(raw, lib.toNumeric).Success? && |Prepare(raw, lib.toNumeric).value| < MinObservations
    ensures r == Failure(NoModelBranch) <==>
      && Prepare(raw, lib.toNumeric).Success? && |Prepare(raw, lib.toNumeric).value| >= MinObservations
      && modelType !in {"SARIMA", "FB_PROPHET", "XGBOOST"}
    ensures r.Success? ==>
      && Prepare(raw, lib.toNumeric).Success?
      && |Prepare(raw, lib.toNumeric).value| >= MinObservations
      && ModelValue(r.value.model) == modelType
      && 0 < |r.value.window| <= TestSize(|Prepare(raw, lib.toNumeric).value|)
  {
    var frame :- Prepare(raw, lib.toNumeric);
    PredictFrom(frame, modelType, h, lib)
  }

  /** Past the guard, the outcome is that of the one branch the selector picks. */
  lemma RunsBranch(frame: seq<Row>, modelType: string, h: Horizon, lib: Library)
    requires |frame| >= MinObservations
    requires modelType in {"SARIMA", "FB_PROPHET", "XGBOOST"}
    ensures var ts := TestSize(|frame|);
      var m := Branches(modelType)[0]; var out := RunBranch(m, frame, ts, h, lib);
      PredictFrom(frame, modelType, h, lib) == Evaluate(m, Window(frame, ts, h), out.0, out.1)
  {
  }

  /** The series is split into a training prefix and a test suffix of `test_size` entries. */
  lemma TrainTestSplit(frame: seq<Row>)
    requires |frame| >= MinObservations
    ensures var series, ts := Facts(frame), TestSize(|frame|);
      && 9 <= ts
      && |SliceTo(series, -ts)| == |frame| - ts && |SliceFrom(series, -ts)| == ts
      && SliceTo(series, -ts) + SliceFrom(series, -ts) == series
      && SliceFrom(series, -ts) == Facts(frame[|frame| - ts..])
  {
    var series, ts := Facts(frame), TestSize(|frame|);
    HoldOut(series, ts);
  }

  /**
   * SARIMA and FB_PROPHET forecast exactly `h` values while the observed
   * window has `min(h, test_size)`: they succeed only when `h <= test_size`,
   * and then the observed values are the first `h` of the test slice.
   */
  lemma StatisticalForecastNeedsHorizonWithinTest(frame: seq<Row>, modelType: string, h: Horizon, lib: Library)
    requires lib.Valid()
    requires modelType == "SARIMA" || modelType == "FB_PROPHET"
    requires PredictFrom(frame, modelType, h, lib).Success?
    ensures var ts := TestSize(|frame|); var f := PredictFrom(frame, modelType, h, lib).value;
      && h <= ts
      && |f.predicted| == h
      && forall i :: 0 <= i < h ==> Some(f.observed[i]) == frame[|frame| - ts + i].fact
  {
    var ts := TestSize(|frame|);
    var series := Facts(frame);
    HoldOut(series, ts);
    var m := Branches(modelType)[0];
    var out := RunBranch(m, frame, ts, h, lib);
    RunsBranch(frame, modelType, h, lib);
    if m == FB_PROPHET {
      var yhat := lib.prophet(SliceTo(frame, -ts), frame, h);
      assert |yhat| == |SliceTo(frame, -ts)| + h;
    }
    assert |out.1| == h;
    assert out.0 == SliceTo(SliceFrom(series, -ts), h);
  }

  /**
   * Conversely, SARIMA succeeds whenever `h <= test_size` and the first `h`
   * hours of the test slice all have a `fact`.
   */
  lemma SarimaSucceedsWithinTest(frame: seq<Row>, h: Horizon, lib: Library)
    requires lib.Valid()
    requires |frame| >= MinObservations && h <= TestSize(|frame|)
    requires forall i :: |frame| - TestSize(|frame|) <= i < |frame| - TestSize(|frame|) + h ==> frame[i].fact.Some?
    ensures PredictFrom(frame, "SARIMA", h, lib).Success?
    ensures |PredictFrom(frame, "SARIMA", h, lib).value.window| == h
  {
    var ts := TestSize(|frame|);
    HoldOut(frame, ts);
    SarimaBranchShape(frame, ts, h, lib);
    RunsBranch(frame, "SARIMA", h, lib);
  }

  /** SARIMA observes the first `min(h, test_size)` facts of the test slice and forecasts `h` values. */
  lemma SarimaBranchShape(frame: seq<Row>, ts: int, h: Horizon, lib: Library)
    requires lib.Valid()
    requires 1 <= ts <= |frame|
    ensures var out := SarimaBranch(frame, ts, h, lib);
      && |out.0| == Min(h, ts) && |out.1| == h
      && forall i :: 0 <= i < |out.0| ==> out.0[i] == frame[|frame| - ts + i].fact
  {
    var series := Facts(frame);
    var out := SarimaBranch(frame, ts, h, lib);
    HeadOfTail(series, ts, h, 0);
    forall i | 0 <= i < |out.0|
      ensures out.0[i] == frame[|frame| - ts + i].fact
    {
      HeadOfTail(series, ts, h, i);
    }
  }

  /**
   * The 30-entry guard does not give XGBOOST a training set: with 30 to 34
   * complete hourly rows the lag table keeps `n - 24 <= test_size` rows, so
   * `X_train` and `y_train` are empty.
   */
  lemma XgboostEmptyTrainingSet(frame: seq<Row>)
    requires 30 <= |frame| <= 34 && forall t :: 0 <= t < |frame| ==> RowComplete(frame[t])
    ensures |LagRows(frame)| == |frame| - LookBack <= TestSize(|frame|)
    ensures SliceTo(FeatureTable(LagRows(frame)), -TestSize(|frame|)) == []
    ensures SliceTo(Targets(LagRows(frame)), -TestSize(|frame|)) == []
  {
    LagRowsOfCompleteFrame(frame);
  }

  /**
   * With 30 to 32 complete hourly rows, and a fit on the empty training set
   * that returns, the XGBOOST run fails at the chart: `y_test[:h]` and the
   * prediction have the `n - 24 < 9` rows of the lag table, while
   * `test.index[:h]` has 9 timestamps.
   */
  lemma XgboostTooFewLagRows(frame: seq<Row>, h: Horizon, lib: Library)
    requires lib.Valid()
    requires 30 <= |frame| <= 32 && forall t :: 0 <= t < |frame| ==> RowComplete(frame[t])
    ensures PredictFrom(frame, "XGBOOST", h, lib) == Failure(IndexLengthMismatch)
  {
    var ts := TestSize(|frame|);
    ShortCompleteLagRows(frame);
    WindowLength(frame, h);
    ShortLagTableMismatch(LagRows(frame), Window(frame, ts, h), ts, h, lib);
    XgboostOutcome(frame, h, lib);
  }

  /** On a lag table shorter than a `test_size`-long window, the XGBOOST chart fails. */
  lemma ShortLagTableMismatch(table: seq<LagRow>, window: seq<int>, ts: int, h: Horizon, lib: Library)
    requires lib.Valid()
    requires 1 <= |table| < ts <= h && |window| == ts
    requires forall i :: 0 <= i < |table| ==> Complete(table[i])
    ensures var out := XgboostBranch(table, ts, h, lib);
      Evaluate(XGBOOST, window, out.0, out.1) == Failure(IndexLengthMismatch)
  {
    ShortLagTableBranch(table, ts, h, lib);
    var out := XgboostBranch(table, ts, h, lib);
    WindowMismatch(XGBOOST, window, out.0, out.1);
  }

  /** With 30 to 32 complete rows, `test_size` is 9 and between 6 and 8 rows, all complete, survive the drop. */
  lemma ShortCompleteLagRows(frame: seq<Row>)
    requires 30 <= |frame| <= 32 && forall t :: 0 <= t < |frame| ==> RowComplete(frame[t])
    ensures TestSize(|frame|) == 9 && 1 <= |LagRows(frame)| < 9
    ensures forall i :: 0 <= i < |LagRows(frame)| ==> Complete(LagRows(frame)[i])
  {
    LagRowsOfCompleteFrame(frame);
  }

  /** From 30 rows on, the chart window has `min(h, test_size)` timestamps. */
  lemma WindowLength(frame: seq<Row>, h: Horizon)
    requires |frame| >= MinObservations
    ensures |Window(frame, TestSize(|frame|), h)| == Min(h, TestSize(|frame|))
  {
    HoldOut(frame, TestSize(|frame|));
  }

  /** Metrics on matching, non-empty, present values pass; a chart window of another length then fails. */
  lemma WindowMismatch(model: AvailableModel, window: seq<int>, observed: seq<Num>, predicted: seq<real>)
    requires 0 < |observed| == |predicted| != |window|
    requires forall i :: 0 <= i < |observed| ==> observed[i].Some?
    ensures Evaluate(model, window, observed, predicted) == Failure(IndexLengthMismatch)
  {
  }

  /** Past the guard, XGBOOST's outcome is the metrics and chart of its branch on the lag table. */
  lemma XgboostOutcome(frame: seq<Row>, h: Horizon, lib: Library)
    requires |frame| >= MinObservations
    ensures var ts := TestSize(|frame|); var out := XgboostBranch(LagRows(frame), ts, h, lib);
      PredictFrom(frame, "XGBOOST", h, lib) == Evaluate(XGBOOST, Window(frame, ts, h), out.0, out.1)
  {
    RunsBranch(frame, "XGBOOST", h, lib);
    assert Branches("XGBOOST") == [XGBOOST];
  }

  /**
   * On a lag table shorter than `test_size` (and a horizon at least as long),
   * XGBOOST observes all of `y` and predicts one value per row.
   */
  lemma ShortLagTableBranch(table: seq<LagRow>, ts: int, h: Horizon, lib: Library)
    requires lib.Valid()
    requires 1 <= |table| < ts <= h
    requires forall i :: 0 <= i < |table| ==> Complete(table[i])
    ensures var out := XgboostBranch(table, ts, h, lib);
      && out.0 == Targets(table) && |out.1| == |table|
      && forall i :: 0 <= i < |out.0| ==> out.0[i].Some?
  {
    var x, y := FeatureTable(table), Targets(table);
    ShortSliceIsWhole(y, ts, h);
    ShortSliceIsWhole(x, ts, h);
    forall i | 0 <= i < |y|
      ensures y[i].Some?
    {
      assert Complete(table[i]);
    }
  }

  /**
   * From 35 complete hourly rows on, the lag table keeps more than
   * `test_size` rows, so `X_train` is not empty.
   */
  lemma XgboostTrainingSetNotEmpty(frame: seq<Row>)
    requires |frame| >= 35 && forall t :: 0 <= t < |frame| ==> RowComplete(frame[t])
    ensures |SliceTo(FeatureTable(LagRows(frame)), -TestSize(|frame|))| == |frame| - LookBack - TestSize(|frame|) >= 1
  {
    var n, ts := |frame|, TestSize(|frame|);
    assert ts < n - LookBack by {
      if n == 35 {
        assert 10 * ts <= 105;
      }
    }
    LagRowsOfCompleteFrame(frame);
  }

  /**
   * With at least 35 complete hourly rows, where the training part is not
   * empty, XGBOOST succeeds for every horizon, and it observes exactly what
   * SARIMA observes: the first `min(h, test_size)` facts of the series' own
   * test slice.
   */
  lemma XgboostObservesTestSlice(frame: seq<Row>, h: Horizon, lib: Library)
    requires lib.Valid()
    requires |frame| >= 35 && forall t :: 0 <= t < |frame| ==> RowComplete(frame[t])
    ensures PredictFrom(frame, "XGBOOST", h, lib).Success?
    ensures var ts := TestSize(|frame|); var f := PredictFrom(frame, "XGBOOST", h, lib).value;
      && |f.observed| == |f.window| == Min(h, ts)
      && forall i :: 0 <= i < Min(h, ts) ==> Some(f.observed[i]) == frame[|frame| - ts + i].fact
  {
    CompleteFrameXgboostBranch(frame, h, lib);
    WindowLength(frame, h);
    XgboostOutcome(frame, h, lib);
  }

  /** On a complete frame of at least 33 rows, the XGBOOST branch observes present test facts and predicts as many values. */
  lemma CompleteFrameXgboostBranch(frame: seq<Row>, h: Horizon, lib: Library)
    requires lib.Valid()
    requires |frame| >= 33 && forall t :: 0 <= t < |frame| ==> RowComplete(frame[t])
    ensures var ts := TestSize(|frame|); var out := XgboostBranch(LagRows(frame), ts, h, lib);
      && |out.0| == |out.1| == Min(h, ts)
      && forall i :: 0 <= i < |out.0| ==> out.0[i] == frame[|frame| - ts + i].fact && out.0[i].Some?
  {
    CompleteFrameLagRowAt(frame);
    CompleteTableBranch(frame, LagRows(frame), h, lib);
  }

  /** `CompleteFrameXgboostBranch` for any table that carries the frame's rows from row 24 on. */
  lemma CompleteTableBranch(frame: seq<Row>, table: seq<LagRow>, h: Horizon, lib: Library)
    requires lib.Valid()
    requires |frame| >= 33 && forall t :: 0 <= t < |frame| ==> RowComplete(frame[t])
    requires |table| == |frame| - LookBack
    requires forall u :: 0 <= u < |table| ==> table[u].row == frame[LookBack + u]
    ensures var ts := TestSize(|frame|); var out := XgboostBranch(table, ts, h, lib);
      && |out.0| == |out.1| == Min(h, ts)
      && forall i :: 0 <= i < |out.0| ==> out.0[i] == frame[|frame| - ts + i].fact && out.0[i].Some?
  {
    XgboostObservesLikeSarima(frame, table, h, lib);
    CompleteFrameObservesFacts(frame, TestSize(|frame|), h, lib);
  }

  /** On a complete frame every value the SARIMA branch observes is present. */
  lemma CompleteFrameObservesFacts(frame: seq<Row>, ts: int, h: Horizon, lib: Library)
    requires lib.Valid()
    requires 1 <= ts <= |frame| && forall t :: 0 <= t < |frame| ==> RowComplete(frame[t])
    ensures var obs := SarimaBranch(frame, ts, h, lib).0;
      && |obs| == Min(h, ts)
      && forall i :: 0 <= i < |obs| ==> obs[i] == frame[|frame| - ts + i].fact && obs[i].Some?
  {
    SarimaBranchShape(frame, ts, h, lib);
  }

  /**
   * On the lag table of a complete frame (its rows are the frame's from row 24
   * on) with `test_size <= n - 24`, the XGBOOST branch observes the same
   * values as the SARIMA branch and predicts as many.
   */
  lemma XgboostObservesLikeSarima(frame: seq<Row>, table: seq<LagRow>, h: Horizon, lib: Library)
    requires lib.Valid()
    requires |frame| >= 33 && |table| == |frame| - LookBack
    requires forall u :: 0 <= u < |table| ==> table[u].row == frame[LookBack + u]
    ensures var ts := TestSize(|frame|); var out := XgboostBranch(table, ts, h, lib);
      && out.0 == SarimaBranch(frame, ts, h, lib).0
      && |out.1| == |out.0|
  {
    var n, ts := |frame|, TestSize(|frame|);
    assert ts <= n - LookBack by {
      if n == 33 {
        assert 10 * ts <= 99;
      }
    }
    var facts := Facts(frame);
    assert Targets(table) == facts[LookBack..];
    TailOfSuffix(facts, LookBack, ts);
    XgboostBranchShape(table, ts, h, lib);
  }

  /** On a lag table with at least `test_size` rows, XGBOOST observes `y_test[:h]` and predicts as many values. */
  lemma XgboostBranchShape(table: seq<LagRow>, ts: int, h: Horizon, lib: Library)
    requires lib.Valid()
    requires 1 <= ts <= |table|
    ensures var out := XgboostBranch(table, ts, h, lib);
      && out.0 == SliceTo(SliceFrom(Targets(table), -ts), h)
      && |out.0| == |out.1| == Min(h, ts)
  {
    HeadOfTail(Targets(table), ts, h, 0);
    HeadOfTail(FeatureTable(table), ts, h, 0);
  }
}
