/**
 * The enumerations of src/constants.py: the forecasting models a request may
 * select, the accepted file types and their MIME types. Each enumeration is a
 * `str` enum in the source, so a member compares equal to its string value;
 * the value functions below give those strings.
 */
module Constants {
  import opened Wrappers

  /** AvailableModel: the three forecasting procedures. */
  datatype AvailableModel = SARIMA | FB_PROPHET | XGBOOST

  function ModelValue(m: AvailableModel): string
  {
    match m
    case SARIMA => "SARIMA"
    case FB_PROPHET => "FB_PROPHET"
    case XGBOOST => "XGBOOST"
  }

  /** Enum validation by value: the member whose value is `s`, if any. */
  function ParseModel(s: string): (r: Option<AvailableModel>)
    ensures r.Some? <==> s in {"SARIMA", "FB_PROPHET", "XGBOOST"}
    ensures r.Some? ==> ModelValue(r.value) == s
  {
    if s == "SARIMA" then Some(SARIMA)
    else if s == "FB_PROPHET" then Some(FB_PROPHET)
    else if s == "XGBOOST" then Some(XGBOOST)
    else None
  }

  /** FileType: the file types a dataset may have. */
  datatype FileType = Csv | Json | Excel

  function FileTypeValue(t: FileType): string
  {
    match t
    case Csv => "csv"
    case Json => "json"
    case Excel => "excel"
  }

  /** FileMimeType: the MIME type declared for each file type. */
  function MimeType(t: FileType): string
  {
    match t
    case Csv => "text/csv"
    case Json => "application/json"
    case Excel => "application/vnd.openxmlformats-officedocument.spreadsheetml.sheet"
  }

  /** Enum validation by value: the file type whose value is `s`, if any. */
  function ParseFileType(s: string): (r: Option<FileType>)
    ensures r.Some? <==> s in {"csv", "json", "excel"}
    ensures r.Some? ==> FileTypeValue(r.value) == s
  {
    if s == "csv" then Some(Csv)
    else if s == "json" then Some(Json)
    else if s == "excel" then Some(Excel)
    else None
  }

  /** Every member is recovered from its value, so the value functions are injective. */
  lemma ValuesRoundTrip(m: AvailableModel, t: FileType)
    ensures ParseModel(ModelValue(m)) == Some(m)
    ensures ParseFileType(FileTypeValue(t)) == Some(t)
  {
  }
}
