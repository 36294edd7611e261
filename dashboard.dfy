/** The dashboard page's state and what it shows: the fields offered for the
    axes, the single-field projection that turns one selected field into a
    derived bar chart, and the default axes chosen when rows are loaded. */
module Dashboard {
  import opened Wrappers
  import opened Js
  import opened Text
  import opened Charts
  import Classifier
  import Frequency
  import Histogram
  import TopBottom

  /** What a lone selected field is summarised as. */
  datatype SingleFieldMode = FrequencyMode | HistogramMode | Top10 | Bottom10

  /** The component state the projection and the loader read and write:
      the loaded rows, their header fields, the axis selections, the chart
      type, the single-field mode and the text of the requested-fields
      input. */
  datatype DashboardState = DashboardState(
    data: seq<Record>,
    fields: seq<string>,
    xField: string,
    yField: string,
    chartType: ChartType,
    mode: SingleFieldMode,
    requestedFieldsInput: string)

  /** The initial state: no rows, no axes, a line chart, frequency mode. */
  const Initial := DashboardState([], [], "", "", Line, FrequencyMode, "")

  /** The rows handed to the chart: the loaded rows themselves or the
      entries of one of the derived views. */
  datatype DisplayData =
    | Rows(rows: seq<Record>)
    | FreqBars(freq: seq<Frequency.FreqEntry>)
    | BinBars(bins: seq<Histogram.BinEntry>)
    | RankBars(ranked: seq<TopBottom.Ranked>)

  /** `{ displayData, displayX, displayY, displayType }`. */
  datatype Projection = Projection(data: DisplayData, x: string, y: string, chartType: ChartType)

  function Size(d: DisplayData): nat {
    match d
    case Rows(rows) => |rows|
    case FreqBars(freq) => |freq|
    case BinBars(bins) => |bins|
    case RankBars(ranked) => |ranked|
  }

  /** `Boolean(xField) !== Boolean(yField)`: exactly one axis is chosen. */
  predicate SingleFieldSelected(xField: string, yField: string) {
    (xField != "") != (yField != "")
  }

  /** `xField || yField`. */
  function SelectedField(xField: string, yField: string): string {
    if xField != "" then xField else yField
  }

  /** When exactly one axis is chosen, the selected field is that axis and
      is not empty: the `if (!field)` guard of the projection never fires. */
  lemma SingleFieldIsChosenAxis(xField: string, yField: string)
    requires SingleFieldSelected(xField, yField)
    ensures SelectedField(xField, yField) != ""
    ensures SelectedField(xField, yField) == xField || SelectedField(xField, yField) == yField
    ensures xField == "" || yField == ""
  {
  }

  /** The selection and the loaded data, passed through unchanged. */
  function PassThrough(s: DashboardState): Projection {
    Projection(Rows(s.data), s.xField, s.yField, s.chartType)
  }

  function FromFrequency(a: Aggregate<Frequency.FreqEntry>): Projection {
    Projection(FreqBars(a.dataset), a.x, a.y, a.chartType)
  }

  function FromHistogram(a: Aggregate<Histogram.BinEntry>): Projection {
    Projection(BinBars(a.dataset), a.x, a.y, a.chartType)
  }

  function FromRanking(a: Aggregate<TopBottom.Ranked>): Projection {
    Projection(RankBars(a.dataset), a.x, a.y, a.chartType)
  }

  /** The display-projection `useMemo`. */
  function Project(s: DashboardState, rt: Runtime): Projection {
    if !SingleFieldSelected(s.xField, s.yField) || |s.data| == 0 then PassThrough(s)
    else
      var field := SelectedField(s.xField, s.yField);
      if field == "" then PassThrough(s)
      else if !Classifier.FieldIsNumericSpec(s.data, field, rt) then FromFrequency(Frequency.Frequency(s.data, field, rt))
      else match s.mode
        case HistogramMode => FromHistogram(Histogram.Histogram(s.data, field, Histogram.DefaultBins, rt))
        case Top10 => FromRanking(TopBottom.TopBottom(s.data, field, TopBottom.RankSize, TopBottom.Desc, rt))
        case Bottom10 => FromRanking(TopBottom.TopBottom(s.data, field, TopBottom.RankSize, TopBottom.Asc, rt))
        case FrequencyMode => FromFrequency(Frequency.Frequency(s.data, field, rt))
  }

  /** Unless exactly one axis is chosen and rows are loaded, the chart shows
      the loaded rows with the chosen axes and chart type. */
  lemma ProjectPassesThrough(s: DashboardState, rt: Runtime)
    requires !SingleFieldSelected(s.xField, s.yField) || s.data == []
    ensures Project(s, rt) == Projection(Rows(s.data), s.xField, s.yField, s.chartType)
  {
  }

  /** A lone field that the sampled majority rule does not call numeric is
      always summarised by frequency, whatever the mode. */
  lemma NonNumericFieldGetsFrequency(s: DashboardState, rt: Runtime)
    requires SingleFieldSelected(s.xField, s.yField) && s.data != []
    requires !Classifier.FieldIsNumericSpec(s.data, SelectedField(s.xField, s.yField), rt)
    ensures var p := Project(s, rt);
      && p.data == FreqBars(Frequency.Frequency(s.data, SelectedField(s.xField, s.yField), rt).dataset)
      && p.x == "value" && p.y == "count"
  {
    SingleFieldIsChosenAxis(s.xField, s.yField);
  }

  /** A lone numeric field is summarised as the mode says: a 10-bin
      histogram, the top 10 by value, the bottom 10 by value, or the value
      frequencies. */
  lemma NumericFieldFollowsMode(s: DashboardState, rt: Runtime)
    requires SingleFieldSelected(s.xField, s.yField) && s.data != []
    requires Classifier.FieldIsNumericSpec(s.data, SelectedField(s.xField, s.yField), rt)
    ensures var p := Project(s, rt);
      var f := SelectedField(s.xField, s.yField);
      && (s.mode == HistogramMode ==> p.data == BinBars(Histogram.Histogram(s.data, f, 10, rt).dataset) && p.x == "bin" && p.y == "count")
      && (s.mode == Top10 ==> p.data == RankBars(TopBottom.TopBottom(s.data, f, 10, TopBottom.Desc, rt).dataset) && p.x == "label" && p.y == "value")
      && (s.mode == Bottom10 ==> p.data == RankBars(TopBottom.TopBottom(s.data, f, 10, TopBottom.Asc, rt).dataset) && p.x == "label" && p.y == "value")
      && (s.mode == FrequencyMode ==> p.data == FreqBars(Frequency.Frequency(s.data, f, rt).dataset) && p.x == "value" && p.y == "count")
  {
    SingleFieldIsChosenAxis(s.xField, s.yField);
  }

  /** Every derived view is a bar chart of at most 20 rows: 20 frequency
      groups, 10 histogram bins, or 10 ranked rows. */
  lemma DerivedViewIsSmallBarChart(s: DashboardState, rt: Runtime)
    requires SingleFieldSelected(s.xField, s.yField) && s.data != []
    ensures Project(s, rt).chartType == Bar
    ensures Size(Project(s, rt).data) <= 20
    ensures Project(s, rt).data != Rows(s.data)
  {
    SingleFieldIsChosenAxis(s.xField, s.yField);
    var f := SelectedField(s.xField, s.yField);
    var p := Project(s, rt);
    if !Classifier.FieldIsNumericSpec(s.data, f, rt) || s.mode == FrequencyMode {
      assert p == FromFrequency(Frequency.Frequency(s.data, f, rt));
      FrequencyViewIsSmall(s.data, f, rt);
    } else if s.mode == HistogramMode {
      assert p == FromHistogram(Histogram.Histogram(s.data, f, Histogram.DefaultBins, rt));
      HistogramViewIsSmall(s.data, f, rt);
    } else {
      var order := if s.mode == Top10 then TopBottom.Desc else TopBottom.Asc;
      assert p == FromRanking(TopBottom.TopBottom(s.data, f, TopBottom.RankSize, order, rt));
      RankingViewIsSmall(s.data, f, order, rt);
    }
  }

  lemma FrequencyViewIsSmall(data: seq<Record>, f: string, rt: Runtime)
    ensures var p := FromFrequency(Frequency.Frequency(data, f, rt));
      p.chartType == Bar && Size(p.data) <= 20 && p.data.FreqBars?
  {
  }

  lemma HistogramViewIsSmall(data: seq<Record>, f: string, rt: Runtime)
    ensures var p := FromHistogram(Histogram.Histogram(data, f, Histogram.DefaultBins, rt));
      p.chartType == Bar && Size(p.data) <= 20 && p.data.BinBars?
  {
  }

  lemma RankingViewIsSmall(data: seq<Record>, f: string, order: TopBottom.SortOrder, rt: Runtime)
    ensures var p := FromRanking(TopBottom.TopBottom(data, f, TopBottom.RankSize, order, rt));
      p.chartType == Bar && Size(p.data) <= 20 && p.data.RankBars?
  {
  }

  // ---------------------------------------------------------------------
  // The fields offered for the axes

  /** `.map(f => f.trim()).filter(Boolean)`: the pieces trimmed, the empty
      ones dropped, the rest kept in order. */
  function NonBlankTrimmed(parts: seq<string>): (r: seq<string>)
    ensures |r| <= |parts|
  {
    if parts == [] then []
    else
      var t := Trim(parts[0]);
      if t == "" then NonBlankTrimmed(parts[1..]) else [t] + NonBlankTrimmed(parts[1..])
  }

  /** The fields typed into the requested-fields input, comma separated. */
  function EnteredFields(input: string): seq<string> {
    NonBlankTrimmed(Split(input, ','))
  }

  /** `availableFields`: the fields typed in when there are any, otherwise
      the headers of the loaded rows. */
  function AvailableFields(input: string, fields: seq<string>): (r: seq<string>)
    ensures EnteredFields(input) != [] ==> r == EnteredFields(input)
    ensures EnteredFields(input) == [] ==> r == fields
  {
    var entered := EnteredFields(input);
    if |entered| > 0 then entered else fields
  }

  /** A field typed in is never empty, has no comma in it and no white
      space at either end. */
  lemma EnteredFieldsAreClean(input: string)
    ensures forall f :: f in EnteredFields(input) ==>
      f != "" && !IsSpace(f[0]) && !IsSpace(f[|f| - 1]) && ',' !in f
  {
    var parts := Split(input, ',');
    forall piece | piece in parts ensures ',' !in piece {
      var i :| 0 <= i < |parts| && parts[i] == piece;
    }
    NonBlankTrimmedOfPieces(parts);
    var r := EnteredFields(input);
    forall f | f in r ensures CleanField(f) {
      var i :| 0 <= i < |r| && r[i] == f;
    }
  }

  /** Non-empty, no white space at either end, no comma. */
  predicate CleanField(f: string) {
    f != "" && !IsSpace(f[0]) && !IsSpace(f[|f| - 1]) && ',' !in f
  }

  lemma {:induction false} NonBlankTrimmedOfPieces(parts: seq<string>)
    requires forall piece :: piece in parts ==> ',' !in piece
    ensures forall i :: 0 <= i < |NonBlankTrimmed(parts)| ==> CleanField(NonBlankTrimmed(parts)[i])
  {
    if parts != [] {
      assert parts[0] in parts;
      assert forall piece :: piece in parts[1..] ==> piece in parts;
      NonBlankTrimmedOfPieces(parts[1..]);
      var rest := NonBlankTrimmed(parts[1..]);
      if Trim(parts[0]) != "" {
        TrimmedPieceIsClean(parts[0]);
        assert NonBlankTrimmed(parts) == [Trim(parts[0])] + rest;
      }
    }
  }

  /** A piece without a comma trims to a clean field unless it is blank. */
  lemma TrimmedPieceIsClean(piece: string)
    requires ',' !in piece && Trim(piece) != ""
    ensures CleanField(Trim(piece))
  {
    TrimKeepsOnly(piece, ',');
  }

  /** Typing a list of clean field names separated by commas offers exactly
      those fields, in that order. */
  lemma TypedFieldsRoundTrip(fields: seq<string>, headers: seq<string>)
    requires fields != []
    requires forall f :: f in fields ==> f != "" && Trim(f) == f && ',' !in f
    ensures AvailableFields(Join(fields, ','), headers) == fields
  {
    forall i, j | 0 <= i < |fields| && 0 <= j < |fields[i]| ensures fields[i][j] != ',' {
      assert fields[i] in fields;
    }
    SplitJoin(fields, ',');
    NonBlankTrimmedOfClean(fields);
  }

  lemma {:induction false} NonBlankTrimmedOfClean(fields: seq<string>)
    requires forall f :: f in fields ==> f != "" && Trim(f) == f
    ensures NonBlankTrimmed(fields) == fields
  {
    if fields != [] {
      assert fields[0] in fields;
      assert forall f :: f in fields[1..] ==> f in fields;
      NonBlankTrimmedOfClean(fields[1..]);
    }
  }

  /** An input of only commas and white space offers the headers. */
  lemma BlankInputOffersHeaders(input: string, fields: seq<string>)
    requires forall i :: 0 <= i < |input| ==> input[i] == ',' || IsSpace(input[i])
    ensures AvailableFields(input, fields) == fields
  {
    var parts := Split(input, ',');
    SplitPiecesOf(input, ',');
    forall i, j | 0 <= i < |parts| && 0 <= j < |parts[i]| ensures IsSpace(parts[i][j]) {
      assert parts[i][j] in parts[i];
      assert parts[i][j] in input;
    }
    NonBlankTrimmedOfBlank(parts);
  }

  lemma {:induction false} NonBlankTrimmedOfBlank(parts: seq<string>)
    requires forall i, j :: 0 <= i < |parts| && 0 <= j < |parts[i]| ==> IsSpace(parts[i][j])
    ensures NonBlankTrimmed(parts) == []
  {
    if parts != [] {
      TrimOfSpace(parts[0]);
      NonBlankTrimmedOfBlank(parts[1..]);
    }
  }

  // ---------------------------------------------------------------------
  // Loading rows

  /** `Object.keys(rows[0] || {})`: the keys of the first row. */
  function Headers(rows: seq<Record>): seq<string> {
    if rows == [] then [] else rows[0].keys
  }

  /** `rows.some(r => isNumeric(r[h]))`. */
  predicate SomeRowNumeric(rows: seq<Record>, h: string, rt: Runtime) {
    exists i :: 0 <= i < |rows| && Classifier.IsNumeric(Get(rows[i], h), rt)
  }

  /** The test a header must pass to be a numeric option. */
  function Qualifies(rows: seq<Record>, rt: Runtime): string -> bool {
    h => SomeRowNumeric(rows, h, rt)
  }

  /** `numericOptions`: the headers with a numeric value in some row, in
      header order. */
  function NumericOptions(headers: seq<string>, rows: seq<Record>, rt: Runtime): (r: seq<string>)
    ensures forall h :: h in r <==> h in headers && SomeRowNumeric(rows, h, rt)
  {
    Filter(headers, Qualifies(rows, rt))
  }

  /** `applyRows(rows)`: the rows and their headers replace the data and the
      fields; an unset X axis becomes the first header, and an unset Y axis
      the first numeric option, when there are any. */
  function ApplyRows(s: DashboardState, rows: seq<Record>, rt: Runtime): DashboardState {
    var headers := Headers(rows);
    var options := NumericOptions(headers, rows, rt);
    s.(data := rows,
       fields := headers,
       xField := if s.xField == "" && |headers| > 0 then headers[0] else s.xField,
       yField := if s.yField == "" && |options| > 0 then options[0] else s.yField)
  }

  /** `headers[i]` passes `SomeRowNumeric` and no header before it does. */
  predicate FirstQualifying(headers: seq<string>, rows: seq<Record>, rt: Runtime, i: int) {
    FirstWhere(headers, Qualifies(rows, rt), i)
  }

  /** Loading rows replaces the data and the fields by the rows and the
      first row's keys, and leaves the chart type, the mode and the typed
      fields alone. A chosen axis is kept. An unset X axis becomes the first
      header, if there is one. An unset Y axis becomes the first header for
      which some row of the whole data is numeric, and stays unset when no
      header qualifies. */
  lemma ApplyRowsDefaults(s: DashboardState, rows: seq<Record>, rt: Runtime)
    ensures var t := ApplyRows(s, rows, rt);
      var headers := Headers(rows);
      && t.data == rows && t.fields == headers
      && t.chartType == s.chartType && t.mode == s.mode && t.requestedFieldsInput == s.requestedFieldsInput
      && (s.xField != "" ==> t.xField == s.xField)
      && (s.xField == "" ==> t.xField == if headers == [] then "" else headers[0])
      && (s.yField != "" ==> t.yField == s.yField)
      && (s.yField == "" && (forall j :: 0 <= j < |headers| ==> !SomeRowNumeric(rows, headers[j], rt)) ==> t.yField == "")
      && (s.yField == "" && (exists j :: 0 <= j < |headers| && SomeRowNumeric(rows, headers[j], rt)) ==>
            exists i :: FirstQualifying(headers, rows, rt, i) && t.yField == headers[i])
  {
    var headers := Headers(rows);
    FilterEmpty(headers, Qualifies(rows, rt));
    if NumericOptions(headers, rows, rt) != [] {
      FilterFirst(headers, Qualifies(rows, rt));
    }
  }
}
