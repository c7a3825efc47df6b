/**
 * The two analyses of percentage_nations_etf.py over a loaded table:
 * `analyze_etf_country_allocation` (column choice, cleaning, normalisation,
 * aggregation and percentages) and `quick_analysis` (group-by over named
 * columns, with neither cleaning nor normalisation), and the path from the
 * lines of a file through the manual reader to the analysis.
 */
module Analysis {
  import opened Wrappers
  import opened Text
  import opened Decimal
  import opened Frame
  import opened Cleaning
  import opened Aggregation
  import opened Columns
  import opened ManualParser

  /**
   * What `analyze_etf_country_allocation` returns: the chosen columns, the
   * cleaned rows, the country weights sorted in descending order, and the
   * percentages (in the order of the weights, before rounding).
   */
  datatype Allocation = Allocation(
    weightColumn: nat,
    locationColumn: nat,
    holdings: seq<Holding>,
    weights: seq<Group>,
    percentages: seq<Share>)

  /** The analysis of a loaded table, as a definition; None where the script returns None. */
  function Analyze(table: Table, prompt: Prompt): Option<Allocation> {
    match SelectColumns(table.columns, prompt)
    case Failure(_) => None
    case Success((w, l)) =>
      var hs := CleanRows(table.rows, w, l);
      var gs := CountryWeights(hs);
      Some(Allocation(w, l, hs, gs, Percentages(gs)))
  }

  /**
   * `analyze_etf_country_allocation` after the table is loaded: the two
   * column scans, the prompt when either finds nothing, then the cleaning
   * and the aggregation.
   */
  method AnalyzeEtfCountryAllocation(table: Table, prompt: Prompt) returns (r: Option<Allocation>)
    ensures r == Analyze(table, prompt)
    ensures r.Some? ==> IsCountryAllocation(r.value.weights, r.value.holdings)
  {
    var weightCol := FindColumn(table.columns, WeightKeywords);
    var locationCol := FindColumn(table.columns, LocationKeywords);
    if weightCol.None? || locationCol.None? {
      weightCol := ResolveIndex(|table.columns|, prompt.weightAnswer);
      locationCol := ResolveIndex(|table.columns|, prompt.locationAnswer);
      if weightCol.None? || locationCol.None? {
        return None;
      }
    }
    var w, l := weightCol.value, locationCol.value;
    var hs := CleanRows(table.rows, w, l);
    var gs := CountryWeights(hs);
    r := Some(Allocation(w, l, hs, gs, Percentages(gs)));
  }

  /**
   * The analysis fails only when column selection fails. Otherwise the
   * chosen columns are those selection names, the holdings are exactly the
   * rows that clean successfully, the weights are their country allocation
   * with the grand total equal to the sum of the weights, and the
   * percentages add up to 100 when that total is not zero and are all
   * undefined when it is.
   */
  lemma AnalyzeSpec(table: Table, prompt: Prompt)
    ensures var r := Analyze(table, prompt);
      && (r.Some? <==> SelectColumns(table.columns, prompt).Success?)
      && (r.Some? ==> (r.value.weightColumn, r.value.locationColumn) == SelectColumns(table.columns, prompt).value)
      && (r.Some? ==> r.value.weightColumn < |table.columns| && r.value.locationColumn < |table.columns|)
      && (r.Some? ==> r.value.holdings == CleanRows(table.rows, r.value.weightColumn, r.value.locationColumn))
      && (r.Some? ==> IsCountryAllocation(r.value.weights, r.value.holdings))
      && (r.Some? ==> Total(r.value.weights) == SumWeights(r.value.holdings))
      && (r.Some? ==> r.value.percentages == Percentages(r.value.weights))
      && (r.Some? && SumWeights(r.value.holdings) != 0.0 ==> PctSum(r.value.percentages) == 100.0)
      && (r.Some? && SumWeights(r.value.holdings) == 0.0 ==>
            forall i :: 0 <= i < |r.value.percentages| ==> r.value.percentages[i] == NotFinite)
  {
    SelectColumnsSpec(table.columns, prompt);
    var r := Analyze(table, prompt);
    if r.Some? {
      var gs := r.value.weights;
      if Total(gs) != 0.0 {
        PercentagesSumTo100(gs);
      } else {
        PercentagesZeroTotal(gs);
      }
    }
  }

  /** The loaded table when the structured readers have all failed: the manual reader, then the DataFrame construction. */
  function LoadManual(lines: seq<string>, tok: Tokenizer): Option<Table> {
    match ManualParse(lines, tok)
    case None => None
    case Some(raw) => BuildFrame(raw)
  }

  /**
   * The analysis of a file that only the manual reader can read: None when
   * that reader finds nothing, when the rows are all narrower than the
   * header, or when column selection fails.
   */
  method AnalyzeManualFile(lines: seq<string>, tok: Tokenizer, prompt: Prompt) returns (r: Option<Allocation>)
    ensures r == match LoadManual(lines, tok)
      case None => None
      case Some(table) => Analyze(table, prompt)
  {
    var raw := ManualCsvParsing(lines, tok);
    if raw.None? {
      return None;
    }
    var table := BuildFrame(raw.value);
    if table.None? {
      return None;
    }
    r := AnalyzeEtfCountryAllocation(table.value, prompt);
  }

  /** Why `quick_analysis` raises: a named column is missing, or the weight column is not numeric. */
  datatype QuickError = MissingColumn(name: string) | NonNumericWeights

  /** `df[name]`: the position of the first column with that name. */
  function ColumnIndex(columns: seq<string>, name: string): (r: Option<nat>)
    ensures r.Some? ==> r.value < |columns| && columns[r.value] == name
    ensures r.None? ==> name !in columns
  {
    if columns == [] then None
    else if columns[0] == name then Some(0)
    else match ColumnIndex(columns[1..], name)
      case Some(i) => Some(i + 1)
      case None => None
  }

  /** The reader made the weight column numeric: every present weight cell reads as a number. */
  predicate NumericColumn(rows: seq<seq<Cell>>, col: nat) {
    forall i :: 0 <= i < |rows| ==> match CellAt(rows[i], col)
      case None => true
      case Some(text) => ParseNumber(text).Some?
  }

  /**
   * One row as `groupby(location)[weight].sum()` sees it: rows without a
   * location are left out of every group; a missing weight adds nothing.
   * The location is used as it stands, without stripping or mapping.
   */
  function QuickRow(row: seq<Cell>, weightCol: nat, locationCol: nat): Option<(string, real)> {
    match CellAt(row, locationCol)
    case None => None
    case Some(loc) =>
      var w := match CellAt(row, weightCol)
        case None => 0.0
        case Some(text) => ParseNumber(text).GetOr(0.0);
      Some((loc, w))
  }

  /** The rows that take part in the group-by, with their raw location and numeric weight. */
  function QuickHoldings(rows: seq<seq<Cell>>, weightCol: nat, locationCol: nat): seq<Holding> {
    KeepCleaned(rows, row => QuickRow(row, weightCol, locationCol))
  }

  /**
   * `quick_analysis` on a table read by `pd.read_csv`: the country
   * allocation over the raw location values and its percentages. The
   * group-by looks up the location column first, so a missing location
   * name is reported even when the weight name is missing too; text
   * weights make the division raise only when some row has a location.
   */
  function QuickAnalysis(table: Table, weightName: string, locationName: string): Result<(seq<Group>, seq<Share>), QuickError> {
    match (ColumnIndex(table.columns, weightName), ColumnIndex(table.columns, locationName))
    case (_, None) => Failure(MissingColumn(locationName))
    case (None, _) => Failure(MissingColumn(weightName))
    case (Some(w), Some(l)) =>
      var hs := QuickHoldings(table.rows, w, l);
      if hs != [] && !NumericColumn(table.rows, w) then Failure(NonNumericWeights)
      else
        var gs := CountryWeights(hs);
        Success((gs, Percentages(gs)))
  }

  /**
   * The quick analysis succeeds exactly when both names are columns and the
   * weight column is numeric; then it is the country allocation of the rows
   * that have a location, and its percentages add up to 100 unless the
   * weights sum to zero.
   */
  lemma QuickAnalysisSpec(table: Table, weightName: string, locationName: string)
    ensures var r := QuickAnalysis(table, weightName, locationName);
      && (locationName !in table.columns ==> r == Failure(MissingColumn(locationName)))
      && (locationName in table.columns && weightName !in table.columns ==> r == Failure(MissingColumn(weightName)))
      && (r.Success? <==>
            && weightName in table.columns && locationName in table.columns
            && (NumericColumn(table.rows, ColumnIndex(table.columns, weightName).value)
                || QuickHoldings(table.rows, ColumnIndex(table.columns, weightName).value, ColumnIndex(table.columns, locationName).value) == []))
      && (r.Success? ==>
            var hs := QuickHoldings(table.rows, ColumnIndex(table.columns, weightName).value, ColumnIndex(table.columns, locationName).value);
            && IsCountryAllocation(r.value.0, hs)
            && r.value.1 == Percentages(r.value.0)
            && (SumWeights(hs) != 0.0 ==> PctSum(r.value.1) == 100.0)
            && (SumWeights(hs) == 0.0 ==> forall i :: 0 <= i < |r.value.1| ==> r.value.1[i] == NotFinite))
  {
    var r := QuickAnalysis(table, weightName, locationName);
    if r.Success? {
      var gs := r.value.0;
      if Total(gs) != 0.0 {
        PercentagesSumTo100(gs);
      } else {
        PercentagesZeroTotal(gs);
      }
    }
  }

  /** A text weight in a table where no row has a location gives an empty result, not an error. */
  lemma QuickUnlocatedTextWeights(t: Table)
    requires t == Table(["W", "L"], [[Some("abc"), None]])
    ensures QuickAnalysis(t, "W", "L") == Success(([], []))
  {
    assert ColumnIndex(t.columns, "L") == Some(1);
    assert ColumnIndex(t.columns, "W") == Some(0);
    var hs := QuickHoldings(t.rows, 0, 1);
    assert QuickRow(t.rows[0], 0, 1) == None;
    assert hs == [];
    assert GroupSums(hs) == [] && SortDescending([]) == [];
    assert CountryWeights(hs) == [];
    assert |Percentages([])| == 0;
  }

  /** Every row with a location takes part in the quick group-by under its raw location, and no other row does. */
  lemma QuickRowsWithLocation(rows: seq<seq<Cell>>, weightCol: nat, locationCol: nat)
    ensures var hs := QuickHoldings(rows, weightCol, locationCol);
      && (forall k :: 0 <= k < |hs| ==> hs[k].index < |rows| && CellAt(rows[hs[k].index], locationCol) == Some(hs[k].country))
      && (forall i :: 0 <= i < |rows| && CellAt(rows[i], locationCol).Some? ==> exists k :: 0 <= k < |hs| && hs[k].index == i)
  {
    var clean := row => QuickRow(row, weightCol, locationCol);
    assert forall i :: 0 <= i < |rows| && CellAt(rows[i], locationCol).Some? ==> clean(rows[i]).Some?;
  }

  /** The normalised form of a name that is already lower case and has no surrounding whitespace. */
  lemma PlainName(name: string, lower: string)
    requires name != [] && lower == Lower(name)
    requires !IsPySpace(lower[0]) && !IsPySpace(lower[|lower| - 1])
    ensures PyStrip(Lower(name)) == lower
  {
    NoEdgeSpaceStripFixed(lower, IsPySpace);
  }

  /** With the columns Ticker, Weight and Location, the keyword scans pick Weight and Location. */
  lemma ExampleColumns(columns: seq<string>, prompt: Prompt)
    requires columns == ["Ticker", "Weight", "Location"]
    ensures SelectColumns(columns, prompt) == Success((1, 2))
  {
    ExampleKeywordHits(columns);
  }

  /** The keyword scans over Ticker, Weight and Location stop at Weight and at Location. */
  lemma ExampleKeywordHits(columns: seq<string>)
    requires columns == ["Ticker", "Weight", "Location"]
    ensures FirstMatch(columns, WeightKeywords) == Some(1)
    ensures FirstMatch(columns, LocationKeywords) == Some(2)
  {
    TickerMatchesNeither();
    WeightIsWeightOnly();
    LocationIsLocation();
    var w, l := Matcher(WeightKeywords), Matcher(LocationKeywords);
    assert !w(columns[0]) && w(columns[1]);
    assert !l(columns[0]) && !l(columns[1]) && l(columns[2]);
    SecondOfMany(columns, w);
    ThirdOfThree(columns, l);
  }

  /** The first search stops at the second name when only the first is refused. */
  lemma SecondOfMany(names: seq<string>, matches: string -> bool)
    requires |names| >= 2 && !matches(names[0]) && matches(names[1])
    ensures FirstWhere(names, matches) == Some(1)
  {
    assert names[1..][0] == names[1];
  }

  /** The first search over three names reaches the third when the first two are refused. */
  lemma ThirdOfThree(names: seq<string>, matches: string -> bool)
    requires |names| == 3 && !matches(names[0]) && !matches(names[1]) && matches(names[2])
    ensures FirstWhere(names, matches) == Some(2)
  {
    SecondOfMany(names[1..], matches);
  }

  lemma TickerMatchesNeither()
    ensures !ColumnMatches("Ticker", WeightKeywords) && !ColumnMatches("Ticker", LocationKeywords)
  {
    assert Lower("Ticker") == "ticker";
    PlainName("Ticker", "ticker");
    TickerNotWeight("ticker");
    TickerNotLocation("ticker");
  }

  /** A keyword with a character the string lacks does not occur in it. */
  lemma MissingCharNotContained(s: string, k: string, j: nat)
    requires j < |k| && k[j] !in s
    ensures !Contains(s, k)
  {
    ContainsIff(s, k);
    forall p: nat ensures !OccursAt(s, k, p) {
      if p + |k| <= |s| {
        assert s[p + j] in s;
        assert s[p..p + |k|][j] == s[p + j];
      }
    }
  }

  lemma TickerNotWeight(s: string)
    requires s == "ticker"
    ensures !ContainsAny(s, WeightKeywords)
  {
    MissingCharNotContained(s, "weight", 0);
    MissingCharNotContained(s, "peso", 0);
    MissingCharNotContained(s, "%", 0);
    MissingCharNotContained(s, "percent", 0);
    MissingCharNotContained(s, "allocation", 0);
    ContainsAnyIff(s, WeightKeywords);
  }

  lemma TickerNotLocation(s: string)
    requires s == "ticker"
    ensures !ContainsAny(s, LocationKeywords)
  {
    MissingCharNotContained(s, "location", 0);
    MissingCharNotContained(s, "country", 1);
    MissingCharNotContained(s, "paese", 0);
    MissingCharNotContained(s, "nazione", 0);
    MissingCharNotContained(s, "region", 2);
    ContainsAnyIff(s, LocationKeywords);
  }

  lemma WeightNotLocation(s: string)
    requires s == "weight"
    ensures !ContainsAny(s, LocationKeywords)
  {
    MissingCharNotContained(s, "location", 0);
    MissingCharNotContained(s, "country", 0);
    MissingCharNotContained(s, "paese", 0);
    MissingCharNotContained(s, "nazione", 0);
    MissingCharNotContained(s, "region", 0);
    ContainsAnyIff(s, LocationKeywords);
  }

  lemma WeightIsWeightOnly()
    ensures ColumnMatches("Weight", WeightKeywords) && !ColumnMatches("Weight", LocationKeywords)
  {
    assert Lower("Weight") == "weight";
    PlainName("Weight", "weight");
    assert Contains("weight", "weight");
    WeightNotLocation("weight");
  }

  lemma LocationIsLocation()
    ensures ColumnMatches("Location", LocationKeywords)
  {
    assert Lower("Location") == "location";
    PlainName("Location", "location");
    assert Contains("location", "location");
  }
}
