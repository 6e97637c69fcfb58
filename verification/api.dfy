/**
 * The HTTP handlers of src/api.py, as functions of the stored `data` table:
 * the upload guards and the derivation of the stored name, extension and URI,
 * the lookup by id shared by the three read handlers, and the choice of the
 * reader from the stored extension. The table is a map from id to row; the
 * file contents, the fresh id and the clock are parameters.
 */
module Api {
  import opened Wrappers
  import opened Constants
  import opened Strings
  import opened Schemas
  import opened Frames
  import opened Prediction

  const UnsupportedMediaType: int := 415
  const UnprocessableEntity: int := 422
  const NotFound: int := 404
  const InternalServerError: int := 500

  const DetailMediaType: string := "Допустимые форматы файла: csv, json, excel"
  const DetailExtension: string :=
    "Допустимые расширения файла: .csv, .json, .xlsx. Расширение файла должно быть указано в названии файла"
  const DetailEmptyFile: string := "Нельзя загружать пустой файл"
  const DetailNotFound: string := "Данные по идентификатору не найдены"

  /** Why a request fails. */
  datatype ApiError =
    | HttpError(status: int, detail: string)      // an `HTTPException` raised by a handler
    | RequestInvalid(errors: seq<FieldError>)     // the request body failed validation
    | ResponseInvalid(errors: seq<FieldError>)    // the `DataRead` response could not be built
    | DuplicateId                                 // the primary key is already taken
    | NoReader                                    // no branch assigned `df`
    | ReaderRaised                                // the reader call itself raised
    | PipelineFailed(error: PipelineError)        // `create_prediction` raised

  /** The status code the client receives: everything that is not an `HTTPException` or a validation error is a 500. */
  function Status(e: ApiError): (code: int)
    ensures e.HttpError? ==> code == e.status
    ensures e.RequestInvalid? ==> code == UnprocessableEntity
    ensures !e.HttpError? && !e.RequestInvalid? ==> code == InternalServerError
  {
    match e
    case HttpError(status, _) => status
    case RequestInvalid(_) => UnprocessableEntity
    case _ => InternalServerError
  }

  /** The parts of an uploaded file the handler looks at. */
  datatype UploadFile = UploadFile(contentType: Option<string>, filename: string, size: Option<int>)

  /** `[FileMimeType.CSV, FileMimeType.JSON, FileMimeType.EXCEL]`. */
  function AcceptedMimeTypes(): seq<string>
  {
    [MimeType(Csv), MimeType(Json), MimeType(Excel)]
  }

  /** `(FileType.CSV, FileType.JSON, FileType.EXCEL)`: the suffixes `endswith` tries. */
  function AcceptedSuffixes(): seq<string>
  {
    [FileTypeValue(Csv), FileTypeValue(Json), FileTypeValue(Excel)]
  }

  predicate MimeAccepted(f: UploadFile)
  {
    f.contentType.Some? && f.contentType.value in AcceptedMimeTypes()
  }

  predicate SuffixAccepted(f: UploadFile)
  {
    EndsWithAny(f.filename, AcceptedSuffixes())
  }

  /**
   * The three guards of `upload_data` in order: the content type, then the
   * filename suffix, then the presence of a size. The first one that fails
   * decides the error.
   */
  function CheckUpload(f: UploadFile): (r: Option<ApiError>)
    ensures r.None? <==> MimeAccepted(f) && SuffixAccepted(f) && f.size.Some?
    ensures !MimeAccepted(f) ==> r == Some(HttpError(UnsupportedMediaType, DetailMediaType))
    ensures MimeAccepted(f) && !SuffixAccepted(f) ==> r == Some(HttpError(UnsupportedMediaType, DetailExtension))
    ensures MimeAccepted(f) && SuffixAccepted(f) && f.size.None? ==> r == Some(HttpError(UnprocessableEntity, DetailEmptyFile))
  {
    if !MimeAccepted(f) then Some(HttpError(UnsupportedMediaType, DetailMediaType))
    else if !SuffixAccepted(f) then Some(HttpError(UnsupportedMediaType, DetailExtension))
    else if f.size.None? then Some(HttpError(UnprocessableEntity, DetailEmptyFile))
    else None
  }

  /** `filename.split(".")[-1]`: what follows the last dot, or the whole name when there is none. */
  function Extension(filename: string): (ext: string)
    ensures '.' !in ext && EndsWith(filename, ext)
    ensures |ext| < |filename| ==> filename[|filename| - |ext| - 1] == '.'
    ensures '.' !in filename ==> ext == filename
  {
    LastPart(filename, '.')
  }

  /** `f"static/data/{new_file_name}.{extension}"`: the id under the data directory, a dot, then the extension. */
  function StoredUri(id: string, ext: string): (uri: string)
    ensures |uri| == |"static/data/"| + |id| + 1 + |ext|
    ensures uri[..|"static/data/"|] == "static/data/"
    ensures uri[|"static/data/"|..|"static/data/"| + |id|] == id
    ensures EndsWith(uri, "." + ext)
  {
    "static/data/" + id + "." + ext
  }

  /** A row of the `data` table; the timestamps are abstract instants. */
  datatype DataRow = DataRow(id: string, uri: string, extension: string, originalName: string, size: int,
                             createdAt: int, updatedAt: int)

  type Store = map<string, DataRow>

  /**
   * The row inserted for an accepted upload. The two timestamps are the
   * column defaults, each drawn from the clock on its own.
   */
  function NewRow(f: UploadFile, id: string, createdAt: int, updatedAt: int): (row: DataRow)
    requires f.size.Some?
    ensures row.id == id && row.originalName == f.filename && row.size == f.size.value
    ensures row.extension == Extension(f.filename) && row.uri == StoredUri(id, Extension(f.filename))
    ensures row.createdAt == createdAt && row.updatedAt == updatedAt
  {
    var ext := Extension(f.filename);
    DataRow(id, StoredUri(id, ext), ext, f.filename, f.size.value, createdAt, updatedAt)
  }

  /** `DataRead(...)` built from the inserted row, with `data_type=extension`. */
  function ReadRow(row: DataRow): (r: Result<DataRead, ApiError>)
    ensures r.Success? <==> row.extension in {"csv", "json", "excel"}
    ensures r.Success? ==>
      && r.value.dataId == row.id && r.value.uriPath == row.uri
      && FileTypeValue(r.value.dataType) == row.extension
      && r.value.originalName == row.originalName && r.value.size == row.size
      && r.value.createdAt == row.createdAt && r.value.updatedAt == row.updatedAt
    ensures r.Failure? ==> r.error == ResponseInvalid([NotAnEnumMember("data_type", row.extension)])
  {
    match ValidateDataRead(row.id, row.uri, row.extension, row.originalName, row.size, row.createdAt, row.updatedAt)
    case Success(d) => Success(d)
    case Failure(errs) => Failure(ResponseInvalid(errs))
  }

  /**
   * `upload_data`: the guards, then the insert under the fresh `id`, then the
   * response. The row is committed before the response is built, so a
   * response that fails validation leaves the row behind.
   */
  function Upload(store: Store, f: UploadFile, id: string, createdAt: int, updatedAt: int): (out: (Store, Result<DataRead, ApiError>))
    ensures CheckUpload(f).Some? ==> out.0 == store && out.1 == Failure(CheckUpload(f).value)
    ensures CheckUpload(f).None? && id in store ==> out.0 == store && out.1 == Failure(DuplicateId)
    ensures CheckUpload(f).None? && id !in store ==> out.0 == store[id := NewRow(f, id, createdAt, updatedAt)]
    ensures out.1.Success? <==>
      CheckUpload(f).None? && id !in store && Extension(f.filename) in {"csv", "json", "excel"}
    ensures out.1.Success? ==>
      && out.1.value.dataId == id
      && out.1.value.uriPath == StoredUri(id, Extension(f.filename))
      && FileTypeValue(out.1.value.dataType) == Extension(f.filename)
      && out.1.value.originalName == f.filename
      && out.1.value.size == f.size.value
      && out.1.value.createdAt == createdAt && out.1.value.updatedAt == updatedAt
  {
    match CheckUpload(f)
    case Some(e) => (store, Failure(e))
    case None =>
      if id in store then (store, Failure(DuplicateId))
      else
        var row := NewRow(f, id, createdAt, updatedAt);
        (store[id := row], ReadRow(row))
  }

  /** `select(Data).where(Data.id == data_id)` followed by the not-found check. */
  function Lookup(store: Store, id: string): (r: Result<DataRow, ApiError>)
    ensures r.Success? <==> id in store
    ensures r.Success? ==> r.value == store[id]
    ensures r.Failure? ==> r.error == HttpError(NotFound, DetailNotFound)
  {
    if id in store then Success(store[id]) else Failure(HttpError(NotFound, DetailNotFound))
  }

  /** `get_data`: the stored URI of the file to send back. */
  function GetData(store: Store, id: string): (r: Result<string, ApiError>)
    ensures r.Success? <==> id in store
    ensures r.Success? ==> r.value == store[id].uri
  {
    var row :- Lookup(store, id);
    Success(row.uri)
  }

  /** The three pandas readers. */
  datatype Reader = ReadCsv | ReadJson | ReadExcel

  /** The `if`/`elif` chain on the stored extension; it has no `else`. */
  function ChooseReader(ext: string): (r: Option<Reader>)
    ensures r.Some? <==> ext in {"csv", "json", "excel"}
    ensures r == Some(ReadCsv) <==> ext == FileTypeValue(Csv)
    ensures r == Some(ReadJson) <==> ext == FileTypeValue(Json)
    ensures r == Some(ReadExcel) <==> ext == FileTypeValue(Excel)
  {
    if ext == FileTypeValue(Csv) then Some(ReadCsv)
    else if ext == FileTypeValue(Json) then Some(ReadJson)
    else if ext == FileTypeValue(Excel) then Some(ReadExcel)
    else None
  }

  /**
   * The frame a stored dataset loads into: the lookup, then the reader. The
   * JSON branch passes `parse_dates`, a keyword `pd.read_json` does not take,
   * so that call raises a `TypeError` whatever the file holds; only the CSV
   * and Excel branches reach `load`.
   */
  function LoadStored(store: Store, id: string, load: (Reader, string) -> seq<RawRow>): (r: Result<seq<RawRow>, ApiError>)
    ensures r.Success? <==> id in store && store[id].extension in {"csv", "excel"}
    ensures id !in store ==> r == Failure(HttpError(NotFound, DetailNotFound))
    ensures id in store && ChooseReader(store[id].extension).None? ==> r == Failure(NoReader)
    ensures id in store && store[id].extension == "json" ==> r == Failure(ReaderRaised)
    ensures r.Success? ==> r.value == load(ChooseReader(store[id].extension).value, store[id].uri)
  {
    var row :- Lookup(store, id);
    match ChooseReader(row.extension)
    case None => Failure(NoReader)
    case Some(ReadJson) => Failure(ReaderRaised)
    case Some(reader) => Success(load(reader, row.uri))
  }

  /**
   * `get_analysis`: an unknown id is the 404, a stored extension without a
   * reader branch leaves `df` unassigned, a JSON dataset makes its reader
   * call raise, and otherwise the report is rendered from the stored file
   * read with the reader its extension names.
   */
  function GetAnalysis(store: Store, id: string, load: (Reader, string) -> seq<RawRow>,
                       analyse: seq<RawRow> -> string): (r: Result<string, ApiError>)
    ensures id !in store ==> r == Failure(HttpError(NotFound, DetailNotFound))
    ensures id in store && store[id].extension !in {"csv", "json", "excel"} ==> r == Failure(NoReader)
    ensures id in store && store[id].extension == "json" ==> r == Failure(ReaderRaised)
    ensures r.Success? <==> id in store && store[id].extension in {"csv", "excel"}
    ensures r.Success? ==> r.value == analyse(load(ChooseReader(store[id].extension).value, store[id].uri))
  {
    var rows :- LoadStored(store, id, load);
    Success(analyse(rows))
  }

  /**
   * `run_prediction`: an invalid body is refused with 422 whatever the store
   * holds; then an unknown id is the 404, an extension without a reader
   * branch leaves `df` unassigned and a JSON dataset makes its reader call
   * raise; otherwise the pipeline runs on the stored file with the
   * body's model name and its horizon, 48 when the body omits it. Since the
   * name was validated, the pipeline never reaches the point where no branch
   * ran.
   */
  function RunPrediction(store: Store, id: string, body: PredictionBody, lib: Library,
                         load: (Reader, string) -> seq<RawRow>): (r: Result<Forecast, ApiError>)
    ensures ValidatePredictionConfig(body).Failure? ==>
      r == Failure(RequestInvalid(ValidatePredictionConfig(body).error)) && Status(r.error) == UnprocessableEntity
    ensures ValidatePredictionConfig(body).Success? && id !in store ==>
      r == Failure(HttpError(NotFound, DetailNotFound))
    ensures ValidatePredictionConfig(body).Success? && id in store && store[id].extension !in {"csv", "json", "excel"} ==>
      r == Failure(NoReader)
    ensures ValidatePredictionConfig(body).Success? && id in store && store[id].extension == "json" ==>
      r == Failure(ReaderRaised)
    ensures ValidatePredictionConfig(body).Success? && id in store && store[id].extension in {"csv", "excel"} ==>
      var rows := load(ChooseReader(store[id].extension).value, store[id].uri);
      var h: Horizon := if body.forecastHorizon.Some? then body.forecastHorizon.value else DefaultHorizon;
      var p := CreatePrediction(rows, body.modelType.value, h, lib);
      && (r.Success? <==> p.Success?)
      && (r.Success? ==> r.value == p.value)
      && (r.Failure? ==> r.error == PipelineFailed(p.error))
    ensures r.Success? ==> body.modelType.Some? && ModelValue(r.value.model) == body.modelType.value
    ensures r != Failure(PipelineFailed(NoModelBranch))
  {
    match ValidatePredictionConfig(body)
    case Failure(errs) => Failure(RequestInvalid(errs))
    case Success(config) =>
      var rows :- LoadStored(store, id, load);
      match CreatePrediction(rows, ModelValue(config.modelType), config.forecastHorizon, lib)
      case Success(forecast) => Success(forecast)
      case Failure(e) => Failure(PipelineFailed(e))
  }

  /** An accepted filename's extension still ends with one of the three type names. */
  lemma AcceptedExtensionEndsWithType(f: UploadFile)
    requires CheckUpload(f).None?
    ensures exists t: FileType :: EndsWith(Extension(f.filename), FileTypeValue(t))
  {
    var i :| 0 <= i < |AcceptedSuffixes()| && EndsWith(f.filename, AcceptedSuffixes()[i]);
    var t := if i == 0 then Csv else if i == 1 then Json else Excel;
    assert FileTypeValue(t) == AcceptedSuffixes()[i];
    LastPartKeepsSuffix(f.filename, '.', FileTypeValue(t));
  }

  /** A name made of any prefix, a dot and a dot-free tail has that tail as its extension. */
  lemma ExtensionAfterLastDot(prefix: string, ext: string)
    requires '.' !in ext
    ensures Extension(prefix + "." + ext) == ext
  {
    var s := prefix + "." + ext;
    var r := Extension(s);
    assert s[|s| - |ext| - 1] == '.';
    assert r == s[|s| - |ext|..];
  }

  /** Splitting the stored URI on dots gives back the extension it was built from. */
  lemma UriKeepsExtension(id: string, ext: string)
    requires '.' !in ext
    ensures LastPart(StoredUri(id, ext), '.') == ext
  {
    ExtensionAfterLastDot("static/data/" + id, ext);
  }

  /** The extension recovered from an accepted upload's URI is its stored extension. */
  lemma UploadedUriKeepsExtension(store: Store, f: UploadFile, id: string, createdAt: int, updatedAt: int)
    requires CheckUpload(f).None? && id !in store
    ensures var row := Upload(store, f, id, createdAt, updatedAt).0[id];
      LastPart(row.uri, '.') == row.extension == Extension(f.filename)
  {
    UriKeepsExtension(id, Extension(f.filename));
  }

  /**
   * After an accepted upload the new id downloads the file stored under its
   * URI, the original name is kept verbatim, and every other row is untouched,
   * whether or not the response could be built.
   */
  lemma UploadThenGetData(store: Store, f: UploadFile, id: string, createdAt: int, updatedAt: int)
    requires CheckUpload(f).None? && id !in store
    ensures var after := Upload(store, f, id, createdAt, updatedAt).0;
      && GetData(after, id) == Success(StoredUri(id, Extension(f.filename)))
      && Lookup(after, id).value.originalName == f.filename
      && (forall k :: k in store ==> k in after && after[k] == store[k])
      && after.Keys == store.Keys + {id}
  {
    InsertFresh(store, id, NewRow(f, id, createdAt, updatedAt));
  }

  /** Inserting a row under a fresh id makes it downloadable and leaves every other row as it was. */
  lemma InsertFresh(store: Store, id: string, row: DataRow)
    requires id !in store
    ensures var after := store[id := row];
      && GetData(after, id) == Success(row.uri)
      && Lookup(after, id) == Success(row)
      && (forall k :: k in store ==> k in after && after[k] == store[k])
      && after.Keys == store.Keys + {id}
  {
  }

  /** An id with no row yields the same 404 from download, analysis and prediction. */
  lemma NotFoundIsUniform(store: Store, id: string, body: PredictionBody, lib: Library,
                          load: (Reader, string) -> seq<RawRow>, analyse: seq<RawRow> -> string)
    requires id !in store
    ensures GetData(store, id) == Failure(HttpError(NotFound, DetailNotFound))
    ensures GetAnalysis(store, id, load, analyse) == Failure(HttpError(NotFound, DetailNotFound))
    ensures ValidatePredictionConfig(body).Success? ==>
      RunPrediction(store, id, body, lib, load) == Failure(HttpError(NotFound, DetailNotFound))
  {
  }

  /** The reader `if`/`elif` chain has a branch for an extension exactly when it is a valid `DataRead.data_type`. */
  lemma ReaderBranchExactlyForResponseTypes(row: DataRow)
    ensures ChooseReader(row.extension).Some? <==> ReadRow(row).Success?
  {
  }

  /** A dataset whose upload was answered successfully always selects one of the reader branches. */
  lemma AnsweredUploadHasReaderBranch(store: Store, f: UploadFile, id: string, createdAt: int, updatedAt: int)
    requires Upload(store, f, id, createdAt, updatedAt).1.Success?
    ensures var after := Upload(store, f, id, createdAt, updatedAt).0;
      id in after && ChooseReader(after[id].extension).Some?
  {
  }

  /**
   * A stored JSON dataset can still be downloaded, but analysis and any valid
   * prediction request on it end in a 500: the reader call raises before the
   * file's contents matter.
   */
  lemma JsonDatasetIsServerError(store: Store, id: string, body: PredictionBody, lib: Library,
                                 load: (Reader, string) -> seq<RawRow>, analyse: seq<RawRow> -> string)
    requires id in store && store[id].extension == "json"
    ensures GetData(store, id) == Success(store[id].uri)
    ensures GetAnalysis(store, id, load, analyse) == Failure(ReaderRaised)
    ensures ValidatePredictionConfig(body).Success? ==> RunPrediction(store, id, body, lib, load) == Failure(ReaderRaised)
    ensures Status(ReaderRaised) == InternalServerError
  {
  }

  /**
   * `a.json` sent as `application/json` is accepted and answered with
   * `data_type` JSON, yet analysing it is a 500.
   */
  lemma JsonUploadNeverLoads(store: Store, id: string, createdAt: int, updatedAt: int,
                             load: (Reader, string) -> seq<RawRow>, analyse: seq<RawRow> -> string)
    requires id !in store
    ensures var f := UploadFile(Some(MimeType(Json)), "a.json", Some(10));
      var out := Upload(store, f, id, createdAt, updatedAt);
      && out.1.Success? && out.1.value.dataType == Json
      && GetAnalysis(out.0, id, load, analyse) == Failure(ReaderRaised)
  {
    var f := UploadFile(Some(MimeType(Json)), "a.json", Some(10));
    ExtensionAfterLastDot("a", "json");
    assert "a" + "." + "json" == f.filename;
    assert f.contentType.value == AcceptedMimeTypes()[1];
    assert EndsWith(f.filename, AcceptedSuffixes()[1]);
  }

  /**
   * `reportcsv` passes every guard, since the suffix test needs no dot, but
   * its extension is the whole name: the row is stored, the response fails,
   * and a later prediction on it finds no reader.
   */
  lemma SuffixWithoutDot(store: Store, id: string, createdAt: int, updatedAt: int, lib: Library, load: (Reader, string) -> seq<RawRow>)
    requires id !in store
    ensures var f := UploadFile(Some("text/csv"), "reportcsv", Some(10));
      var out := Upload(store, f, id, createdAt, updatedAt);
      && CheckUpload(f).None?
      && out.1 == Failure(ResponseInvalid([NotAnEnumMember("data_type", "reportcsv")]))
      && id in out.0 && out.0[id].extension == "reportcsv"
      && RunPrediction(out.0, id, PredictionBody(Some("SARIMA"), None), lib, load) == Failure(NoReader)
  {
    var f := UploadFile(Some("text/csv"), "reportcsv", Some(10));
    DotlessUpload(store, f, id, createdAt, updatedAt);
    UnreadableExtension(Upload(store, f, id, createdAt, updatedAt).0, id, lib, load);
  }

  /** The upload half of `SuffixWithoutDot`: the guards pass, the row is stored, the answer fails. */
  lemma DotlessUpload(store: Store, f: UploadFile, id: string, createdAt: int, updatedAt: int)
    requires id !in store && f == UploadFile(Some("text/csv"), "reportcsv", Some(10))
    ensures var out := Upload(store, f, id, createdAt, updatedAt);
      && CheckUpload(f).None?
      && out.1 == Failure(ResponseInvalid([NotAnEnumMember("data_type", "reportcsv")]))
      && id in out.0 && out.0[id].extension == "reportcsv"
  {
    DotlessFileAccepted(f);
  }

  lemma DotlessFileAccepted(f: UploadFile)
    requires f == UploadFile(Some("text/csv"), "reportcsv", Some(10))
    ensures CheckUpload(f).None? && Extension(f.filename) == "reportcsv"
  {
    assert f.contentType.value == AcceptedMimeTypes()[0];
    assert EndsWith(f.filename, AcceptedSuffixes()[0]);
    assert '.' !in f.filename;
  }

  /** A valid prediction request on a stored row whose extension names no reader fails with the missing reader. */
  lemma UnreadableExtension(store: Store, id: string, lib: Library, load: (Reader, string) -> seq<RawRow>)
    requires id in store && store[id].extension == "reportcsv"
    ensures RunPrediction(store, id, PredictionBody(Some("SARIMA"), None), lib, load) == Failure(NoReader)
  {
    assert ValidatePredictionConfig(PredictionBody(Some("SARIMA"), None)).Success?;
  }

  /** An `.xlsx` workbook is refused by the suffix guard, although the error text names `.xlsx`. */
  lemma XlsxRefused()
    ensures CheckUpload(UploadFile(Some(MimeType(Excel)), "a.xlsx", Some(10)))
      == Some(HttpError(UnsupportedMediaType, DetailExtension))
  {
    var f := UploadFile(Some(MimeType(Excel)), "a.xlsx", Some(10));
    forall i | 0 <= i < |AcceptedSuffixes()|
      ensures !EndsWith(f.filename, AcceptedSuffixes()[i])
    {
      assert f.filename[|f.filename| - 1] == 'x';
    }
  }

  /** Only a missing size is refused: an empty file of size 0 is stored and answered. */
  lemma ZeroSizeAccepted(store: Store, id: string, createdAt: int, updatedAt: int)
    requires id !in store
    ensures var f := UploadFile(Some(MimeType(Json)), "a.json", Some(0));
      && CheckUpload(f).None?
      && Upload(store, f, id, createdAt, updatedAt).1.Success?
      && Upload(store, f, id, createdAt, updatedAt).1.value.size == 0
  {
    var f := UploadFile(Some(MimeType(Json)), "a.json", Some(0));
    JsonFileAccepted(f);
  }

  lemma JsonFileAccepted(f: UploadFile)
    requires f == UploadFile(Some(MimeType(Json)), "a.json", Some(0))
    ensures CheckUpload(f).None? && Extension(f.filename) == "json"
  {
    assert f.contentType.value == AcceptedMimeTypes()[1];
    assert EndsWith(f.filename, AcceptedSuffixes()[1]);
    ExtensionAfterLastDot("a", "json");
    assert "a" + "." + "json" == f.filename;
  }
}
