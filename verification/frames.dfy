/**
 * The preprocessing of the uploaded table in src/model.py: numeric coercion
 * (with comma-to-dot normalisation for `fact` and `plan`), dropping rows that
 * lack a required value, and regularising to an hourly grid with `asfreq`.
 *
 * Timestamps are integer seconds. A cell holds what the file reader produced:
 * nothing, a string, or a number. Numeric values are exact reals standing for
 * the floats of the source; a missing value (NaN) is `None`.
 */
module Frames {
  import opened Wrappers
  import opened Strings
  import opened Sequences

  datatype Cell = Blank | Text(text: string) | Number(number: real)

  /**
   * A row as read from the file. `extras` holds the columns the pipeline
   * keeps without looking at them (such as `wind_speed`); `object_name` and
   * `unit` are dropped before any of them matters and are not represented.
   */
  datatype RawRow = RawRow(date: int, fact: Cell, plan: Cell, cloudiness: Cell, temperature: Cell, extras: seq<Cell>)

  /** A numeric value, `None` standing for NaN. */
  type Num = Option<real>

  /**
   * A row after coercion. `extrasPresent` records whether every extra column
   * holds a value; it only matters for rows whose `fact` is present.
   */
  datatype Row = Row(date: int, fact: Num, plan: Num, cloudiness: Num, temperature: Num, extrasPresent: bool)

  /** `pd.to_numeric(..., errors='coerce')` on one string: its grammar belongs to the library. */
  type NumericParser = string -> Option<real>

  /** Every way `create_prediction` can fail, in the order of the steps that raise them. */
  datatype PipelineError =
    | NotAStringColumn(column: string)   // `.str` on a column that holds no strings
    | DuplicateTimestamps                // `asfreq` cannot reindex a non-unique index
    | InsufficientData                   // fewer than 30 hourly entries
    | NoModelBranch                      // no selector branch ran, so nothing was predicted
    | InconsistentLengths                // metrics given observed and predicted of different lengths
    | EmptyMetricInput                   // metrics given no samples
    | MissingObservedValue               // metrics given an observed NaN
    | IndexLengthMismatch                // chart series whose values and index differ in length

  /** The `fact` column of a frame. */
  function Facts(rows: seq<Row>): (s: seq<Num>)
    ensures |s| == |rows| && forall t :: 0 <= t < |rows| ==> s[t] == rows[t].fact
  {
    seq(|rows|, t requires 0 <= t < |rows| => rows[t].fact)
  }

  /** The index labels (timestamps) of a frame. */
  function Dates(rows: seq<Row>): (s: seq<int>)
    ensures |s| == |rows| && forall t :: 0 <= t < |rows| ==> s[t] == rows[t].date
  {
    seq(|rows|, t requires 0 <= t < |rows| => rows[t].date)
  }

  /** `col.str.replace(',', '.')` then `to_numeric`: non-string cells become NaN. */
  function StrToNumeric(c: Cell, parse: NumericParser): (n: Num)
    ensures !c.Text? ==> n == None
    ensures c.Text? ==> n == ToNumeric(Text(ReplaceChar(c.text, ',', '.')), parse)
  {
    match c
    case Text(s) => parse(ReplaceChar(s, ',', '.'))
    case _ => None
  }

  /** `to_numeric(col, errors='coerce')` on one cell. */
  function ToNumeric(c: Cell, parse: NumericParser): (n: Num)
    ensures c.Blank? ==> n == None
    ensures c.Number? ==> n == Some(c.number)
    ensures c.Text? ==> n == parse(c.text)
  {
    match c
    case Blank => None
    case Text(s) => parse(s)
    case Number(x) => Some(x)
  }

  /**
   * For `fact` and `plan`, a comma and a dot are the same decimal mark, and a
   * string without commas converts exactly as plain `to_numeric` would.
   */
  lemma CommaIsDecimalPoint(s: string, parse: NumericParser)
    ensures StrToNumeric(Text(s), parse) == StrToNumeric(Text(ReplaceChar(s, ',', '.')), parse)
    ensures ',' !in s ==> StrToNumeric(Text(s), parse) == ToNumeric(Text(s), parse)
  {
    ReplaceCharRemoves(s, ',', '.');
    var r := ReplaceChar(s, ',', '.');
    if ',' !in s {
      assert forall i :: 0 <= i < |s| ==> r[i] == s[i];
      assert r == s;
    }
  }

  predicate HasText(cells: seq<Cell>)
  {
    exists i :: 0 <= i < |cells| && cells[i].Text?
  }

  function FactColumn(raw: seq<RawRow>): seq<Cell>
  {
    seq(|raw|, i requires 0 <= i < |raw| => raw[i].fact)
  }

  function PlanColumn(raw: seq<RawRow>): seq<Cell>
  {
    seq(|raw|, i requires 0 <= i < |raw| => raw[i].plan)
  }

  function CoerceRow(r: RawRow, parse: NumericParser): Row
  {
    Row(r.date,
        StrToNumeric(r.fact, parse),
        StrToNumeric(r.plan, parse),
        ToNumeric(r.cloudiness, parse),
        ToNumeric(r.temperature, parse),
        forall i :: 0 <= i < |r.extras| ==> !r.extras[i].Blank?)
  }

  /**
   * The four conversions. The `.str` accessor refuses a non-empty column in
   * which no cell is a string (`fact` is converted first, then `plan`).
   */
  function Coerce(raw: seq<RawRow>, parse: NumericParser): (r: Result<seq<Row>, PipelineError>)
    ensures r.Failure? <==> raw != [] && (!HasText(FactColumn(raw)) || !HasText(PlanColumn(raw)))
    ensures r.Failure? ==> r.error == NotAStringColumn(if !HasText(FactColumn(raw)) then "fact" else "plan")
    ensures r.Success? ==> |r.value| == |raw|
    ensures r.Success? ==> forall i :: 0 <= i < |raw| ==> r.value[i].date == raw[i].date
    ensures r.Success? ==> forall i :: 0 <= i < |raw| ==> r.value[i] == CoerceRow(raw[i], parse)
  {
    if raw != [] && !HasText(FactColumn(raw)) then Failure(NotAStringColumn("fact"))
    else if raw != [] && !HasText(PlanColumn(raw)) then Failure(NotAStringColumn("plan"))
    else Success(seq(|raw|, i requires 0 <= i < |raw| => CoerceRow(raw[i], parse)))
  }

  /** The values `dropna(subset=['fact', 'cloudiness', 'temperature'])` insists on. */
  predicate Required(r: Row)
  {
    r.fact.Some? && r.cloudiness.Some? && r.temperature.Some?
  }

  /** `dropna(subset=['fact', 'cloudiness', 'temperature'])`. */
  function DropIncomplete(rows: seq<Row>): (kept: seq<Row>)
    ensures |kept| <= |rows|
    ensures forall i :: 0 <= i < |kept| ==> Required(kept[i]) && kept[i] in rows
    ensures forall i :: 0 <= i < |rows| && Required(rows[i]) ==> rows[i] in kept
  {
    Filter(rows, Required)
  }

  /** Dropping rows keeps the survivors in their original relative order. */
  lemma DropIncompleteKeepsOrder(a: seq<Row>, b: seq<Row>)
    ensures DropIncomplete(a + b) == DropIncomplete(a) + DropIncomplete(b)
  {
    FilterConcat(a, b, Required);
  }

  /** A row missing only `plan` survives the drop. */
  lemma PlanMayBeMissing(rows: seq<Row>, i: int)
    requires 0 <= i < |rows| && Required(rows[i]) && rows[i].plan.None?
    ensures rows[i] in DropIncomplete(rows)
  {
  }

  predicate DistinctDates(rows: seq<Row>)
  {
    forall i, j :: 0 <= i < j < |rows| ==> rows[i].date != rows[j].date
  }

  function MinDate(rows: seq<Row>): (m: int)
    requires rows != []
    ensures exists i :: 0 <= i < |rows| && rows[i].date == m
    ensures forall i :: 0 <= i < |rows| ==> m <= rows[i].date
  {
    if |rows| == 1 then rows[0].date
    else
      var m := MinDate(rows[1..]);
      if rows[0].date <= m then rows[0].date else m
  }

  function MaxDate(rows: seq<Row>): (m: int)
    requires rows != []
    ensures exists i :: 0 <= i < |rows| && rows[i].date == m
    ensures forall i :: 0 <= i < |rows| ==> rows[i].date <= m
  {
    if |rows| == 1 then rows[0].date
    else
      var m := MaxDate(rows[1..]);
      if rows[0].date >= m then rows[0].date else m
  }

  /** The all-missing row `asfreq` inserts at an hour no input row has. */
  function Gap(t: int): Row
  {
    Row(t, None, None, None, None, false)
  }

  /** The reindex lookup: the row labelled `t`, or a gap. */
  function RowAt(rows: seq<Row>, t: int): (r: Row)
    ensures r.date == t
    ensures (exists i :: 0 <= i < |rows| && rows[i].date == t) ==> r in rows
    ensures (forall i :: 0 <= i < |rows| ==> rows[i].date != t) ==> r == Gap(t)
  {
    if rows == [] then Gap(t)
    else if rows[0].date == t then rows[0]
    else
      var r := RowAt(rows[1..], t);
      assert (exists i :: 0 <= i < |rows| && rows[i].date == t) ==>
        exists i :: 0 <= i < |rows[1..]| && rows[1..][i].date == t by {
        if exists i :: 0 <= i < |rows| && rows[i].date == t {
          var i :| 0 <= i < |rows| && rows[i].date == t;
          assert rows[1..][i - 1].date == t;
        }
      }
      r
  }

  /** With unique labels the lookup finds exactly the row with that label. */
  lemma RowAtUnique(rows: seq<Row>, i: int)
    requires DistinctDates(rows) && 0 <= i < |rows|
    ensures RowAt(rows, rows[i].date) == rows[i]
  {
    var r := RowAt(rows, rows[i].date);
    var j :| 0 <= j < |rows| && rows[j] == r;
    if j != i {
      assert false;
    }
  }

  /** `n` hourly instants (3600 seconds apart) from `lo`, each looked up in `rows`. */
  function HourlyGrid(rows: seq<Row>, lo: int, n: nat): (g: seq<Row>)
    ensures |g| == n
    ensures forall k :: 0 <= k < n ==> g[k] == RowAt(rows, lo + k * 3600)
  {
    seq(n, k requires 0 <= k < n => RowAt(rows, lo + k * 3600))
  }

  /**
   * `asfreq('h')`: reindexing on the hourly range from the earliest to the
   * latest timestamp; duplicate timestamps make the reindex fail.
   */
  function AsFreq(rows: seq<Row>): (r: Result<seq<Row>, PipelineError>)
    ensures rows == [] ==> r == Success([])
    ensures rows != [] ==> (r.Success? <==> DistinctDates(rows))
    ensures r.Failure? ==> r.error == DuplicateTimestamps
  {
    if rows == [] then Success([])
    else if !DistinctDates(rows) then Failure(DuplicateTimestamps)
    else
      var lo := MinDate(rows);
      Success(HourlyGrid(rows, lo, (MaxDate(rows) - lo) / 3600 + 1))
  }

  /** A successful `asfreq` is the hourly lookup grid from the earliest timestamp. */
  lemma AsFreqIsGrid(rows: seq<Row>)
    requires rows != [] && DistinctDates(rows)
    ensures AsFreq(rows) == Success(HourlyGrid(rows, MinDate(rows), (MaxDate(rows) - MinDate(rows)) / 3600 + 1))
  {
  }

  /**
   * The grid has one entry for every hour from the earliest timestamp up to
   * the latest, and each entry is the input row at that instant or a gap.
   */
  lemma AsFreqGrid(rows: seq<Row>)
    requires rows != [] && DistinctDates(rows)
    ensures var g := AsFreq(rows).value;
      && |g| == (MaxDate(rows) - MinDate(rows)) / 3600 + 1
      && g[0].date == MinDate(rows)
      && g[|g| - 1].date <= MaxDate(rows) < g[|g| - 1].date + 3600
      && (forall k :: 0 <= k < |g| ==> g[k].date == MinDate(rows) + k * 3600)
      && (forall k :: 0 <= k < |g| ==> g[k] in rows || g[k] == Gap(g[k].date))
  {
    var lo, hi := MinDate(rows), MaxDate(rows);
    var n := (hi - lo) / 3600;
    AsFreqIsGrid(rows);
    var g := HourlyGrid(rows, lo, n + 1);
    assert AsFreq(rows).value == g;
    assert lo + n * 3600 <= hi < lo + n * 3600 + 3600;
    forall k | 0 <= k <= n
      ensures g[k].date == lo + k * 3600
      ensures g[k] in rows || g[k] == Gap(g[k].date)
    {
      HourlyGridAt(rows, lo, n + 1, k);
    }
  }

  /** Division facts for an instant `d` of the grid that starts at `lo` and ends by `hi`. */
  lemma AlignedIndex(lo: int, hi: int, d: int)
    requires lo <= d <= hi && (d - lo) % 3600 == 0
    ensures 0 <= (d - lo) / 3600 <= (hi - lo) / 3600
    ensures lo + (d - lo) / 3600 * 3600 == d
  {
  }

  /** Every input row whose timestamp lies a whole number of hours after the earliest keeps its place on the grid. */
  lemma AsFreqKeepsAlignedRows(rows: seq<Row>, i: int)
    requires DistinctDates(rows) && 0 <= i < |rows|
    requires (rows[i].date - MinDate(rows)) % 3600 == 0
    ensures AsFreq(rows).Success?
    ensures var grid := AsFreq(rows).value; var k := (rows[i].date - MinDate(rows)) / 3600;
      0 <= k < |grid| && grid[k] == rows[i]
  {
    AsFreqLookup(rows);
    AlignedOnGrid(rows, AsFreq(rows).value, MinDate(rows), MaxDate(rows), i);
  }

  /** A successful `asfreq` is `(hi - lo) / 3600 + 1` lookups, one per hour from the earliest timestamp. */
  lemma AsFreqLookup(rows: seq<Row>)
    requires rows != [] && DistinctDates(rows)
    ensures AsFreq(rows).Success?
    ensures var g := AsFreq(rows).value;
      && |g| == (MaxDate(rows) - MinDate(rows)) / 3600 + 1
      && LookupGrid(rows, g, MinDate(rows))
      && HourlyFrom(g, MinDate(rows))
  {
    AsFreqIsGrid(rows);
  }

  /** Entry `k` of `g` is the lookup of the instant `k` hours after `lo`. */
  predicate LookupGrid(rows: seq<Row>, g: seq<Row>, lo: int)
  {
    forall k :: 0 <= k < |g| ==> g[k] == RowAt(rows, lo + k * 3600)
  }

  /** Entry `k` of `g` is labelled `k` hours after `lo`. */
  predicate HourlyFrom(g: seq<Row>, lo: int)
  {
    forall k :: 0 <= k < |g| ==> g[k].date == lo + k * 3600
  }

  /** On a lookup grid from `lo` to `hi`, an aligned input row with a unique label sits at its hour. */
  lemma AlignedOnGrid(rows: seq<Row>, g: seq<Row>, lo: int, hi: int, i: int)
    requires DistinctDates(rows) && 0 <= i < |rows|
    requires lo <= rows[i].date <= hi && (rows[i].date - lo) % 3600 == 0
    requires |g| == (hi - lo) / 3600 + 1
    requires LookupGrid(rows, g, lo)
    ensures var k := (rows[i].date - lo) / 3600; 0 <= k < |g| && g[k] == rows[i]
  {
    var d := rows[i].date;
    AlignedIndex(lo, hi, d);
    var k := (d - lo) / 3600;
    assert g[k] == RowAt(rows, d);
    RowAtUnique(rows, i);
  }

  /** An instant `k` hours after `lo` is a whole number of hours after it. */
  lemma OnGrid(lo: int, k: int, d: int)
    requires d == lo + k * 3600
    ensures (d - lo) % 3600 == 0
  {
  }

  /** Entry `k` of the hourly grid is the lookup `k` hours after its start. */
  lemma HourlyGridAt(rows: seq<Row>, lo: int, n: nat, k: int)
    requires 0 <= k < n
    ensures HourlyGrid(rows, lo, n)[k] == RowAt(rows, lo + k * 3600)
  {
  }

  /** Every input row off the hourly grid disappears. */
  lemma AsFreqDropsUnalignedRows(rows: seq<Row>, i: int)
    requires DistinctDates(rows) && 0 <= i < |rows|
    requires (rows[i].date - MinDate(rows)) % 3600 != 0
    ensures rows[i] !in AsFreq(rows).value
  {
    var lo, r := MinDate(rows), rows[i];
    assert (r.date - lo) % 3600 != 0;
    AsFreqLookup(rows);
    OnlyAlignedOnGrid(r, AsFreq(rows).value, lo);
  }

  /** Only a row a whole number of hours after `lo` can be on a grid of hours from `lo`. */
  lemma OnlyAlignedOnGrid(r: Row, g: seq<Row>, lo: int)
    requires HourlyFrom(g, lo)
    ensures r in g ==> (r.date - lo) % 3600 == 0
  {
    if r in g {
      var k :| 0 <= k < |g| && g[k] == r;
      OnGrid(lo, k, r.date);
    }
  }
  /** A grid entry is the lookup of its own instant. */
  lemma GridEntry(rows: seq<Row>, k: int)
    requires rows != [] && DistinctDates(rows)
    requires 0 <= k < |AsFreq(rows).value|
    ensures AsFreq(rows).value[k] == RowAt(rows, AsFreq(rows).value[k].date)
  {
  }

  /** On a grid built from complete rows, `fact` is present exactly at the instants of input rows. */
  lemma GridFactPresence(kept: seq<Row>, k: int)
    requires forall i :: 0 <= i < |kept| ==> Required(kept[i])
    requires AsFreq(kept).Success? && 0 <= k < |AsFreq(kept).value|
    ensures var t := AsFreq(kept).value[k].date;
      AsFreq(kept).value[k].fact.Some? <==> exists i :: 0 <= i < |kept| && kept[i].date == t
  {
    var g := AsFreq(kept).value;
    GridEntry(kept, k);
    var t := g[k].date;
    if exists i :: 0 <= i < |kept| && kept[i].date == t {
      var r := RowAt(kept, t);
      var i :| 0 <= i < |kept| && kept[i] == r;
    }
  }

  /** The three preprocessing steps, in order. */
  function Prepare(raw: seq<RawRow>, parse: NumericParser): (r: Result<seq<Row>, PipelineError>)
    ensures r.Failure? ==> r.error.NotAStringColumn? || r.error == DuplicateTimestamps
  {
    var rows :- Coerce(raw, parse);
    AsFreq(DropIncomplete(rows))
  }

  /**
   * After preprocessing, `fact` is present at an hour of the grid exactly when
   * some input row at that instant had `fact`, `cloudiness` and `temperature`;
   * every other hour, including those whose rows were dropped, is missing.
   */
  lemma PreparedFactPresence(raw: seq<RawRow>, parse: NumericParser, k: int)
    requires Prepare(raw, parse).Success?
    requires 0 <= k < |Prepare(raw, parse).value|
    ensures var g := Prepare(raw, parse).value;
      g[k].fact.Some? <==>
        exists j :: 0 <= j < |raw| && raw[j].date == g[k].date && Required(CoerceRow(raw[j], parse))
  {
    var rows := Coerce(raw, parse).value;
    assert Prepare(raw, parse) == AsFreq(DropIncomplete(rows));
    CleanedFactPresence(rows, k);
  }

  /** `PreparedFactPresence` for the rows after coercion. */
  lemma CleanedFactPresence(rows: seq<Row>, k: int)
    requires AsFreq(DropIncomplete(rows)).Success?
    requires 0 <= k < |AsFreq(DropIncomplete(rows)).value|
    ensures var g := AsFreq(DropIncomplete(rows)).value;
      g[k].fact.Some? <==>
        exists j :: 0 <= j < |rows| && rows[j].date == g[k].date && Required(rows[j])
  {
    var kept := DropIncomplete(rows);
    GridFactPresence(kept, k);
    KeptInstants(rows, kept, AsFreq(kept).value[k].date);
  }

  /** An instant has a kept row exactly when it has an input row with the required values. */
  lemma KeptInstants(rows: seq<Row>, kept: seq<Row>, t: int)
    requires forall i :: 0 <= i < |kept| ==> Required(kept[i]) && kept[i] in rows
    requires forall i :: 0 <= i < |rows| && Required(rows[i]) ==> rows[i] in kept
    ensures (exists i :: 0 <= i < |kept| && kept[i].date == t) <==>
      exists j :: 0 <= j < |rows| && rows[j].date == t && Required(rows[j])
  {
    if exists i :: 0 <= i < |kept| && kept[i].date == t {
      var i :| 0 <= i < |kept| && kept[i].date == t;
      var j :| 0 <= j < |rows| && rows[j] == kept[i];
      assert rows[j].date == t && Required(rows[j]);
    }
    if exists j :: 0 <= j < |rows| && rows[j].date == t && Required(rows[j]) {
      var j :| 0 <= j < |rows| && rows[j].date == t && Required(rows[j]);
      assert rows[j] in kept;
      var i :| 0 <= i < |kept| && kept[i] == rows[j];
      assert kept[i].date == t;
    }
  }
}
