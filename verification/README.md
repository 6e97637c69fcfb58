# power-market-api: a Dafny model of upload validation and the forecast pipeline

power-market-api is a small FastAPI service. A client uploads an hourly
table of solar generation (`date`, `fact`, `plan`, `cloudiness`,
`temperature`, ...) as CSV, JSON or Excel. The service stores the file and a
metadata row. Later it runs one of three forecasting models (SARIMA,
FB_PROPHET or XGBOOST) on the stored data and charts the forecast against a
held-out slice.

This project models the deterministic logic around the libraries:

- the three upload guards, and how the stored extension and URI are derived;
- the lookup by id that the download, analysis and prediction endpoints share;
- the choice of a reader from the stored extension, including the JSON reader
  call that always raises;
- the request and response schemas;
- the preprocessing of `create_prediction`: comma-to-dot coercion, the drop of
  incomplete rows and the hourly regularisation;
- the 30-row guard and the 70/30 split;
- the 24-column lag table;
- slicing what is observed and predicted to the forecast horizon.

The model fits are abstract functions, given as the `Prediction.Library`
parameter.

Files, in dependency order:

- `wrappers.dfy`: `Option` and `Result`.
- `constants.dfy`: the model and file-type enumerations and their string values.
- `strings.dfy`: `endswith`, `split`, taking the last part after a separator,
  and single-character replace.
- `sequences.dfy`: Python slicing with negative bounds, and an order-keeping filter.
- `schemas.dfy`: `PredictionConfig` and `DataRead` validation.
- `frames.dfy`: cells, coercion, `dropna` and `asfreq('h')`.
- `lags.dfy`: the lag table, with a loop method proved equal to the function that defines the columns.
- `prediction.dfy`: `create_prediction` up to the chart.
- `api.dfy`: the handlers, over a map from id to stored row.

Timestamps are integer seconds, and the hourly grid steps by 3600. A number
is an exact `real`, and NaN is `None`. `int(n * 0.3)` is modelled as
`(3 * n) / 10`. The two differ only where the float product `n * 0.3` rounds
below an integer. For the series sizes the service handles the float
product never rounds below a whole number, so the two agree there.

## Model

| member | source | states |
|---|---|---|
| Constants.ParseModel | src/constants.py:5-8 | a selector names a member exactly when it is `SARIMA`, `FB_PROPHET` or `XGBOOST`, and the member's value is that string |
| Constants.ParseFileType | src/constants.py:11-14 | a file type exists exactly for `csv`, `json` and `excel`, and its value is that string |
| Constants.ValuesRoundTrip | src/constants.py:5-14 | every enum member is recovered from its value, so distinct members have distinct values |
| Strings.EndsWithIsConcat | src/api.py:94 | `s.endswith(suffix)` holds exactly when `s` is some text followed by `suffix` |
| Strings.EndsWithAnyMember | src/api.py:94 | `endswith` with a tuple holds exactly when one of the listed suffixes is a suffix of `s` |
| Strings.Split | src/api.py:108 | `split(sep)` always has at least one part, and no part contains the separator |
| Strings.LastPart | src/api.py:108 | `split(".")[-1]` contains no dot, is a suffix of the name, is preceded by a dot when shorter than the name, and is the whole name when there is no dot |
| Strings.JoinSplit | src/api.py:108 | joining the parts of `split(sep)` with `sep` gives back the string |
| Strings.SplitJoin | src/api.py:108 | splitting a join of separator-free parts gives back the parts |
| Strings.LastPartKeepsSuffix | src/api.py:94-108 | a dot-free suffix of the filename is still a suffix of the extracted extension |
| Strings.ReplaceChar | src/model.py:16-17 | `str.replace(',', '.')` changes every comma to a dot and leaves every other character where it was |
| Strings.ReplaceCharRemoves | src/model.py:16-17 | after the replacement no comma is left, and replacing again changes nothing |
| Sequences.SliceTo | src/model.py:35 | `s[:stop]` is a prefix of length `min(stop, n)`, or `max(0, n + stop)` for a negative stop |
| Sequences.SliceFrom | src/model.py:35 | `s[start:]` is a suffix of length `n - min(start, n)`, or `min(-start, n)` for a negative start |
| Sequences.HoldOut | src/model.py:35 | for `1 <= k <= n`, `s[:-k]` and `s[-k:]` have `n - k` and `k` entries and concatenate to `s` |
| Sequences.HoldOutZero | src/model.py:35 | with `k = 0`, `s[:-0]` is empty and `s[-0:]` is all of `s` |
| Sequences.HeadOfTail | src/model.py:42 | `s[-k:][:h]` has `min(h, k)` entries, and entry `i` is `s[n - k + i]` |
| Sequences.TailOfSuffix | src/model.py:67 | dropping at most `n - k` leading entries does not change the last `k` |
| Sequences.Filter | src/model.py:20 | the filter keeps only satisfying elements, all taken from the input, and keeps every satisfying element |
| Sequences.FilterConcat | src/model.py:20 | filtering a concatenation is concatenating the filtered parts, so relative order is kept |
| Schemas.ModelTypeErrors | src/schemas.py:42 | a missing or unknown `model_type` yields exactly one error on that field; a member name yields none |
| Schemas.HorizonErrors | src/schemas.py:43 | a given horizon below 24 or above 128 yields one error naming the bound it breaks; an absent horizon or one in [24, 128] yields none |
| Schemas.ValidatePredictionConfig | src/schemas.py:40-43 | the body is accepted exactly when the selector is one of the three names and the horizon is absent or within [24, 128]; the horizon defaults to 48; each failure lists an error for each bad field and only for those |
| Schemas.ValidateDataRead | src/schemas.py:22-31 | the response is built exactly when `data_type` is `csv`, `json` or `excel`; every field is copied; otherwise the one error is on `data_type` |
| Frames.StrToNumeric | src/model.py:16-17 | a cell that is not a string becomes NaN; a string has its commas turned into dots and is then converted as `to_numeric` does |
| Frames.ToNumeric | src/model.py:18-19 | `to_numeric(errors='coerce')`: an empty cell stays NaN, a number is kept, and a string is whatever the parser makes of it |
| Frames.Coerce | src/model.py:16-19 | coercion fails exactly when a non-empty `fact` or `plan` column holds no string, naming `fact` first; otherwise each row is converted in place, with its timestamp kept |
| Frames.CommaIsDecimalPoint | src/model.py:16-17 | for `fact` and `plan` a comma and a dot are the same decimal mark, and a comma-free string converts as plain `to_numeric` does |
| Frames.DropIncomplete | src/model.py:20 | the survivors all have `fact`, `cloudiness` and `temperature`, and every row that has them survives |
| Frames.DropIncompleteKeepsOrder | src/model.py:20 | the drop distributes over concatenation, so survivors keep their relative order |
| Frames.PlanMayBeMissing | src/model.py:20 | a row missing only `plan` is kept |
| Frames.RowAt | src/model.py:26 | the reindex lookup at `t` is labelled `t`; it is an input row when some row has label `t`, and an all-missing gap otherwise |
| Frames.RowAtUnique | src/model.py:26 | with unique labels, looking up a row's own label returns that row |
| Frames.HourlyGrid | src/model.py:26 | the reindexed frame has one entry per hour of the range, and entry `k` is the lookup at `lo + 3600 k`: the input row labelled with that instant, or a gap |
| Frames.AsFreq | src/model.py:24-26 | an empty frame stays empty; otherwise regularisation succeeds exactly when the timestamps are unique, and fails with the duplicate-label error |
| Frames.AsFreqGrid | src/model.py:24-26 | the grid has `(max - min) / 3600 + 1` entries, entry `k` at `min + 3600 k`, starting at the first timestamp and ending within the hour before the last; each entry is an input row or a gap |
| Frames.AsFreqKeepsAlignedRows | src/model.py:26 | an input row a whole number of hours after the first sits on the grid at that index |
| Frames.AsFreqDropsUnalignedRows | src/model.py:26 | an input row off the hourly grid disappears |
| Frames.GridFactPresence | src/model.py:20-26 | on a grid built from complete rows, `fact` is present exactly at the instants of input rows |
| Frames.CleanedFactPresence | src/model.py:20-26 | after the drop and the reindex, an hour has a `fact` exactly when some coerced row at that instant has `fact`, `cloudiness` and `temperature` |
| Frames.Prepare | src/model.py:15-26 | preprocessing fails only with the string-column error or the duplicate-label error |
| Frames.PreparedFactPresence | src/model.py:15-26 | after preprocessing, an hour has a `fact` exactly when some input row at that instant had `fact`, `cloudiness` and `temperature`; every other hour, including dropped ones, is missing |
| Lags.Shift | src/model.py:62 | `shift(i)` keeps the length, puts `fact[t - i]` at `t` when `t >= i`, and NaN before |
| Lags.LagColumns | src/model.py:61-62 | there are 24 lag columns, each as long as `fact`, and `lag_{j+1}` at row `t` is `fact[t - 1 - j]` when `t > j` and NaN otherwise |
| Lags.AddLagColumns | src/model.py:60-62 | the loop builds exactly `LagColumns`: 24 columns, each as long as the frame, with `lag_{j+1}` at row `t` equal to `fact[t - 1 - j]` when `t > j` and NaN otherwise |
| Lags.LagTable | src/model.py:59-62 | the lag table has one row per frame row |
| Lags.LagTableAt | src/model.py:62 | row `t` carries frame row `t` and 24 lags, lag `j + 1` being `fact[t - 1 - j]` or NaN for `t <= j` |
| Lags.LagRows | src/model.py:63 | `dropna()` never adds rows |
| Lags.LagRowsComplete | src/model.py:63 | every row kept by `dropna()` has `fact`, `plan`, `cloudiness`, `temperature`, every extra column and all 24 lags |
| Lags.WarmUpRowsDropped | src/model.py:63 | none of the first 24 rows survives `dropna` |
| Lags.CompleteLagRow | src/model.py:63 | a surviving row sits at `t >= 24`, its own values are all present, the 24 preceding facts are present, and they are its lags |
| Lags.LagRowsCount | src/model.py:63 | the surviving rows come only from row 24 on, so at most `n - 24` survive |
| Lags.LagRowCompleteAt | src/model.py:63 | row `t >= 24` survives when the 25 frame rows ending at `t` are complete |
| Lags.LagRowsOfCompleteFrame | src/model.py:63 | on a complete frame the drop removes exactly the first 24 rows |
| Lags.CompleteFrameLagRowAt | src/model.py:63-65 | on a complete frame, surviving row `u` carries frame row `u + 24` |
| Prediction.TestSize | src/model.py:34 | `test_size` is the floor of `0.3 n`, and for `n >= 30` it is at least 9 and leaves at least 21 training entries |
| Prediction.Branches | src/model.py:37-57 | at most one branch runs; one runs exactly for the three selector strings, and it is the one named by the selector |
| Prediction.Evaluate | src/model.py:76-82 | the metrics and chart succeed exactly when observed, predicted and the window have the same non-zero length and no observed value is NaN; different lengths fail first; the chart keeps the model, window and prediction |
| Prediction.Window | src/model.py:81-82 | the chart's timestamps are the first `min(h, test_size)` timestamps of the test slice |
| Prediction.SarimaBranch | src/model.py:37-42 | SARIMA observes the first `min(h, test_size)` facts of the test slice and forecasts `h` values |
| Prediction.ProphetBranch | src/model.py:44-55 | FB_PROPHET observes the first `min(h, test_size)` facts of the test slice and reports `h` values of `yhat` |
| Prediction.ProphetBranchShape | src/model.py:44-55 | the `h` values FB_PROPHET reports are the entries of `yhat` after the `n - test_size` training rows, i.e. the forecast periods and no in-sample fit; the observed values are the test facts in order |
| Prediction.XgboostBranch | src/model.py:57-73 | XGBOOST observes the first `min(h, test_size)` targets of the lag table's test slice and predicts one value per row of `X_test[:h]` |
| Prediction.FeatureTable | src/model.py:64 | `X` has one row per lag-table row, holding that row's `plan`, `cloudiness`, `temperature` and 24 lags, indexed by its timestamp; `fact` is not in it |
| Prediction.Targets | src/model.py:65 | `y` is the lag table's `fact` column |
| Prediction.PredictFrom | src/model.py:29-82 | the insufficient-data error comes exactly for fewer than 30 entries; "no branch ran" exactly for 30 or more with a selector other than the three names; no preprocessing error arises here; a success has at least 30 entries, reports the selected model, and its window is a non-empty prefix of the test slice's timestamps |
| Prediction.CreatePrediction | src/model.py:13-82 | preprocessing fails exactly when the result is a string-column or duplicate-label error, and that error is the result; the insufficient-data error comes exactly when preprocessing succeeds with fewer than 30 hourly entries; "no branch ran" exactly when it succeeds with 30 or more and the selector is none of the three; a success comes from at least 30 hourly entries, reports the selected model, and charts at most `test_size` hours |
| Prediction.TrainTestSplit | src/model.py:34-35 | with `n >= 30`, `train` is the first `n - test_size` facts and `test` the last `test_size >= 9`, and together they are the series |
| Prediction.StatisticalForecastNeedsHorizonWithinTest | src/model.py:37-55 | when SARIMA or FB_PROPHET succeeds, `h <= test_size`, `h` values are predicted, and the observed values are the first `h` test facts |
| Prediction.SarimaSucceedsWithinTest | src/model.py:37-42 | SARIMA succeeds whenever `h <= test_size` and the first `h` test hours all have a fact, and its window has `h` timestamps |
| Prediction.SarimaBranchShape | src/model.py:40-42 | SARIMA observes the first `min(h, test_size)` test facts and forecasts `h` values |
| Prediction.XgboostEmptyTrainingSet | src/model.py:63-67 | with 30 to 34 complete hourly rows the lag table keeps `n - 24 <= test_size` rows, so `X_train` and `y_train` are empty |
| Prediction.XgboostTooFewLagRows | src/model.py:63-82 | with 30 to 32 complete hourly rows, in the model, where the fit on the empty training set returns, XGBOOST fails at the chart: `y_test[:h]` and the prediction have the 6 to 8 rows of the lag table, while the window has 9 timestamps |
| Prediction.XgboostTrainingSetNotEmpty | src/model.py:63-67 | from 35 complete hourly rows on, `X_train` has `n - 24 - test_size >= 1` rows |
| Prediction.XgboostObservesTestSlice | src/model.py:57-82 | with at least 35 complete rows, where `X_train` is not empty, XGBOOST succeeds for every horizon, observing the first `min(h, test_size)` test facts, as many as the window holds |
| Prediction.XgboostObservesLikeSarima | src/model.py:63-73 | on a complete frame, XGBOOST's `y_test[:h]` is SARIMA's `test[:h]`, and as many values are predicted |
| Prediction.XgboostBranchShape | src/model.py:66-73 | on a lag table of at least `test_size` rows, XGBOOST observes `y_test[:h]` and predicts `min(h, test_size)` values |
| Api.Status | src/api.py:89-104 | an `HTTPException` keeps its status, request validation is 422, and any other failure is 500 |
| Api.CheckUpload | src/api.py:88-104 | the upload passes exactly when the MIME type is one of the three, the name ends with `csv`, `json` or `excel`, and a size is given; the first failing guard in that order decides 415, 415 or 422 |
| Api.Extension | src/api.py:108 | the extension is what follows the last dot, or the whole name without one |
| Api.StoredUri | src/api.py:109 | the URI is `static/data/`, then the id, then a dot and the extension, and it ends with `.<ext>` |
| Api.NewRow | src/api.py:106-122 | the inserted row has the fresh id, the URI `static/data/<id>.<ext>`, the extension, the original name unchanged, the size, and the two column-default instants |
| Api.ReadRow | src/api.py:133-141 | the response is built exactly when the stored extension is `csv`, `json` or `excel`; it echoes id, URI, name, size and both timestamps; otherwise the one error is on `data_type` |
| Api.Upload | src/api.py:88-141 | a rejected upload changes nothing; an accepted one inserts the row; the answer succeeds exactly when the upload is accepted and the extension is a file type, and it echoes id, URI, name, size, type and the two timestamps |
| Api.Lookup | src/api.py:158-165 | the lookup succeeds exactly for a stored id and returns its row; otherwise it is the 404 |
| Api.GetData | src/api.py:154-167 | a download succeeds exactly for a stored id and serves its URI |
| Api.ChooseReader | src/api.py:190-195 | a reader is chosen exactly for `csv`, `json` and `excel`, each its own, by equality alone |
| Api.LoadStored | src/api.py:212-229 | loading fails with 404 for an unknown id, with the missing-reader error for an extension without a reader branch, and with the reader's own error for `json`, whose `read_json` call passes a keyword it does not take; it succeeds exactly for `csv` and `excel`, reading the stored URI with the chosen reader |
| Api.GetAnalysis | src/api.py:174-199 | an unknown id is the 404; a stored extension other than `csv`, `json` or `excel` is the missing-reader error; `json` is the raising reader call; it succeeds exactly for `csv` and `excel`, with the report rendered from the stored file read by the reader the extension names |
| Api.RunPrediction | src/api.py:207-237 | an invalid body is 422 whatever the store holds; with a valid body an unknown id is the 404, an extension without a reader branch the missing-reader error and `json` the raising reader call; for `csv` and `excel` the answer is the pipeline's outcome on the stored file with the body's selector and its horizon, 48 when omitted; a success reports the requested model, and "no branch ran" never reaches the client |
| Api.AcceptedExtensionEndsWithType | src/api.py:94-108 | the extension of an accepted upload still ends with `csv`, `json` or `excel` |
| Api.ExtensionAfterLastDot | src/api.py:108 | a name made of a prefix, a dot and a dot-free tail has that tail as its extension |
| Api.UriKeepsExtension | src/api.py:108-109 | the stored URI's own last dot part is the extension it was built from |
| Api.UploadedUriKeepsExtension | src/api.py:106-122 | after an accepted upload, the URI's extension, the stored extension and the filename's extension agree |
| Api.UploadThenGetData | src/api.py:106-128 | after an accepted upload the new id downloads its URI, the original name is kept verbatim, other rows are untouched, and only the new id is added |
| Api.NotFoundIsUniform | src/api.py:158-219 | an unknown id gives the same 404 from download, analysis, and prediction with a valid body |
| Api.ReaderBranchExactlyForResponseTypes | src/api.py:190-195 | the reader chain has a branch for a stored extension exactly when the upload response can be built for it |
| Api.AnsweredUploadHasReaderBranch | src/api.py:133-141 | a dataset whose upload was answered successfully selects one of the three reader branches |
| Api.JsonDatasetIsServerError | src/api.py:192-193 | a stored `json` dataset still downloads, but analysis and every valid prediction request on it end in the raising reader call, a 500 |
| Api.JsonUploadNeverLoads | src/api.py:88-141 | `a.json` sent as `application/json` is accepted and answered with `data_type` JSON, yet its analysis is a 500 |
| Api.SuffixWithoutDot | src/api.py:94-141 | `reportcsv` passes every guard, its row is stored with extension `reportcsv`, the answer fails on `data_type`, and a later prediction finds no reader |
| Api.XlsxRefused | src/api.py:94-98 | an `a.xlsx` workbook with the spreadsheet MIME type is refused by the suffix guard with 415 |
| Api.ZeroSizeAccepted | src/api.py:100-104 | a file of size 0 passes the guards and is stored and answered; only a missing size is refused |

## Left out

- The model fits and forecasts (SARIMAX, Prophet, XGBRegressor) are the fields of
  `Prediction.Library`. `Library.Valid` states only that each forecaster returns one
  value per requested step, per history row plus period, or per input row. Errors
  raised inside a fit are not modelled, e.g. Prophet given a missing regressor value.
  XGBoost on an empty training set also belongs here: with 30 to 34 complete hourly
  rows the model's `xgboost` field forecasts from an empty training set
  (`Prediction.XgboostEmptyTrainingSet`), where `XGBRegressor.fit` at src/model.py:69
  may raise instead. For 30 to 32 rows, `Prediction.XgboostTooFewLagRows` therefore
  reaches the chart only because the abstract fit returns.
- MSE, RMSE, MAE and their rounding are float numerics. Only the input checks of the
  metric functions and of the chart series are modelled, by `Prediction.Evaluate`.
- The plotly figure and its HTML are presentation only.
- src/analysis.py is not part of this model. `Api.GetAnalysis` takes the report as a
  parameter.
- File reads and writes are left out. `Api.RunPrediction` and `Api.GetAnalysis` take the
  reader as a parameter from reader and URI to rows.
- The SQLAlchemy session, the ORM models and the migrations are left out. The `data`
  table is a map from id to row.
- The uuid4 generator and the clock are left out. The fresh id and the two timestamps are
  parameters of `Api.Upload`. `created_at` and `updated_at` each have their own
  `default=datetime.now` (src/database.py:35-36), so they are two instants that may differ. A reused id gives `DuplicateId` where the database would
  raise its integrity error.
- The conversion of the `data_id` path parameter to a UUID is left out. A malformed id
  is answered 422 by the framework; here ids are strings.
- The truthiness test `if file_object:` is left out. An upload file is always treated as
  present.
- The health and model-list endpoints return constants and are left out.
- The `experiments/` scripts and the tkinter launcher are not part of this model.
- `pd.to_numeric`'s string grammar is the parser in `Library.toNumeric`.
- `pd.to_datetime` is left out: dates arrive as integer seconds, with no time zones.
- The `object_name` and `unit` columns are left out. They are dropped before they can
  matter.
- Extra numeric columns such as `wind_speed` are only tracked as present or missing.
- `Prediction.FeatureRow` omits the extra columns. Its features are `plan`, `cloudiness`,
  `temperature` and the lags. The timestamp is kept as the row's index, not as a feature.
- Frames.Coerce: the `.str` accessor is modelled as failing exactly when a non-empty
  column holds no string. pandas decides by the column's inferred dtype, which this
  approximates.
- Prediction.TestSize: computes `(3 * n) / 10` rather than the float expression
  `int(n * 0.3)`. The two differ only when the float product rounds below an integer.
- Prediction.CreatePrediction: the horizon is typed `Horizon` (24 to 128), because the
  only caller passes a validated configuration.
- The handlers' 500 paths that depend on the file's contents are not modelled; a raw
  row here always has the four columns and `load` is total. Each raising line:
  - src/api.py:191, 195, 225, 229: `read_csv` or `read_excel` cannot parse the file.
  - src/model.py:16-19: a column among `fact`, `plan`, `cloudiness` and `temperature`
    is missing (`KeyError`).
  - src/model.py:24: a `date` column the reader left unparsed fails `pd.to_datetime`.
  - src/analysis.py:16-18: the same unparsed `date` column fails the `.dt` accessors.
  The JSON reader call at src/api.py:193 and 227 is modelled: it fails for every file.
- Three places where the code's own text promises more than it does:
  - The 422 message at src/api.py:103 says an empty file cannot be uploaded. The guard
    at src/api.py:100 refuses only a missing size, so a size of 0 is accepted
    (`Api.ZeroSizeAccepted`).
  - src/model.py:58 lists only `cloudiness` and `temperature` as `lag_features`, and the
    list is never used. `X` at src/model.py:64 is the whole lag table without `fact`, so
    it also holds `plan` (`Prediction.FeatureTable`).
  - The chart title at src/model.py:90 says the forecast covers `forecast_horizon` hours.
    The window at src/model.py:81-82 has `min(h, test_size)` timestamps, and SARIMA and
    FB_PROPHET succeed only when `h <= test_size`
    (`Prediction.StatisticalForecastNeedsHorizonWithinTest`).
