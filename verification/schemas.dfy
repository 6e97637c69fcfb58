/**
 * The request and response schemas of src/schemas.py that carry constraints:
 * `PredictionConfig` (model selector and forecast horizon) and `DataRead`
 * (the record returned after an upload). Validation collects one error per
 * failing field, in field order, as the schema library does.
 */
module Schemas {
  import opened Wrappers
  import opened Constants

  const DefaultHorizon: int := 48
  const MinHorizon: int := 24
  const MaxHorizon: int := 128

  /** A forecast horizon, in hours, that passed validation. */
  type Horizon = h: int | MinHorizon <= h <= MaxHorizon witness DefaultHorizon

  /** One validation error, named after the schema library's error types. */
  datatype FieldError =
    | Missing(field: string)
    | NotAnEnumMember(field: string, given: string)
    | LessThanMinimum(field: string, value: int)
    | GreaterThanMaximum(field: string, value: int)

  /**
   * The JSON body of a prediction request: `None` stands for an absent key only.
   * An explicit JSON `null` is a type error for both fields (neither field is
   * declared optional), so it is rejected like a wrong-typed value; such bodies
   * are not represented here.
   */
  datatype PredictionBody = PredictionBody(modelType: Option<string>, forecastHorizon: Option<int>)

  datatype PredictionConfig = PredictionConfig(modelType: AvailableModel, forecastHorizon: Horizon)

  /** `model_type: AvailableModel` is required and must be one of the enum's values. */
  function ModelTypeErrors(v: Option<string>): (errs: seq<FieldError>)
    ensures errs == [] <==> v.Some? && ParseModel(v.value).Some?
    ensures |errs| <= 1
    ensures forall i :: 0 <= i < |errs| ==> errs[i].field == "model_type"
  {
    match v
    case None => [Missing("model_type")]
    case Some(s) => if ParseModel(s).Some? then [] else [NotAnEnumMember("model_type", s)]
  }

  /** `forecast_horizon: int = Field(default=48, ge=24, le=128)`. */
  function HorizonErrors(v: Option<int>): (errs: seq<FieldError>)
    ensures errs == [] <==> v.None? || MinHorizon <= v.value <= MaxHorizon
    ensures v.Some? && v.value < MinHorizon ==> errs == [LessThanMinimum("forecast_horizon", v.value)]
    ensures v.Some? && v.value > MaxHorizon ==> errs == [GreaterThanMaximum("forecast_horizon", v.value)]
    ensures forall i :: 0 <= i < |errs| ==> errs[i].field == "forecast_horizon"
  {
    match v
    case None => []
    case Some(h) =>
      if h < MinHorizon then [LessThanMinimum("forecast_horizon", h)]
      else if h > MaxHorizon then [GreaterThanMaximum("forecast_horizon", h)]
      else []
  }

  /**
   * Validation of a prediction request body: accepted exactly when the model
   * type names a member and the horizon, if given, lies in [24, 128]; an
   * omitted horizon becomes 48.
   */
  function ValidatePredictionConfig(body: PredictionBody): (r: Result<PredictionConfig, seq<FieldError>>)
    ensures r.Success? <==>
      body.modelType.Some? && body.modelType.value in {"SARIMA", "FB_PROPHET", "XGBOOST"}
      && (body.forecastHorizon.None? || MinHorizon <= body.forecastHorizon.value <= MaxHorizon)
    ensures r.Success? ==> ModelValue(r.value.modelType) == body.modelType.value
    ensures r.Success? && body.forecastHorizon.None? ==> r.value.forecastHorizon == 48
    ensures r.Success? && body.forecastHorizon.Some? ==> r.value.forecastHorizon == body.forecastHorizon.value
    ensures r.Failure? ==> 1 <= |r.error| <= 2
    ensures r.Failure? ==>
      ((exists i :: 0 <= i < |r.error| && r.error[i].field == "model_type") <==>
        !(body.modelType.Some? && body.modelType.value in {"SARIMA", "FB_PROPHET", "XGBOOST"}))
    ensures r.Failure? ==>
      ((exists i :: 0 <= i < |r.error| && r.error[i].field == "forecast_horizon") <==>
        !(body.forecastHorizon.None? || MinHorizon <= body.forecastHorizon.value <= MaxHorizon))
  {
    var modelErrs := ModelTypeErrors(body.modelType);
    var horizonErrs := HorizonErrors(body.forecastHorizon);
    var errs := modelErrs + horizonErrs;
    assert forall i :: 0 <= i < |errs| ==> errs[i] == if i < |modelErrs| then modelErrs[i] else horizonErrs[i - |modelErrs|];
    assert horizonErrs != [] ==> errs[|modelErrs|] == horizonErrs[0];
    assert modelErrs != [] ==> errs[0] == modelErrs[0];
    assert |"forecast_horizon"| != |"model_type"|;
    if errs != [] then Failure(errs)
    else
      var h: Horizon := if body.forecastHorizon.Some? then body.forecastHorizon.value else DefaultHorizon;
      Success(PredictionConfig(ParseModel(body.modelType.value).value, h))
  }

  /** The record returned to the client after an upload. Timestamps are abstract instants. */
  datatype DataRead = DataRead(
    dataId: string,
    uriPath: string,
    dataType: FileType,
    originalName: string,
    size: int,
    createdAt: int,
    updatedAt: int)

  /**
   * Building a `DataRead`: every field is copied, and the only one that can
   * fail is `data_type`, which must be one of the `FileType` values.
   */
  function ValidateDataRead(dataId: string, uriPath: string, dataType: string, originalName: string,
                            size: int, createdAt: int, updatedAt: int): (r: Result<DataRead, seq<FieldError>>)
    ensures r.Success? <==> dataType in {"csv", "json", "excel"}
    ensures r.Success? ==>
      && r.value.dataId == dataId && r.value.uriPath == uriPath
      && FileTypeValue(r.value.dataType) == dataType
      && r.value.originalName == originalName && r.value.size == size
      && r.value.createdAt == createdAt && r.value.updatedAt == updatedAt
    ensures r.Failure? ==> r.error == [NotAnEnumMember("data_type", dataType)]
  {
    match ParseFileType(dataType)
    case None => Failure([NotAnEnumMember("data_type", dataType)])
    case Some(t) => Success(DataRead(dataId, uriPath, t, originalName, size, createdAt, updatedAt))
  }
}
