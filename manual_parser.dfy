/**
 * The last-resort reader `manual_csv_parsing` (lines 8-78 of
 * percentage_nations_etf.py). Lines are stripped and empty ones skipped; the
 * first line that mentions a header keyword gives the column names; every
 * later line with at least three fields becomes a data row cut to the
 * number of columns. Each line is split by the CSV reader, or, when the
 * reader raises, by a plain split on ',' with every field stripped (and, for
 * a data row, padded with empty fields up to the number of columns).
 *
 * The CSV reader itself (quoting and escaping) is a parameter: a
 * `Tokenizer` maps one stripped line to its fields, or to None when the
 * reader raises on it.
 */
module ManualParser {
  import opened Wrappers
  import opened Text
  import opened Frame

  const HeaderKeywords: seq<string> := ["ticker", "weight", "location", "name", "sector"]

  /** `next(csv.reader(StringIO(line)))`: the fields of one line, or None when the reader raises. */
  type Tokenizer = string -> Option<seq<string>>

  /** The header test, applied to a stripped line. */
  predicate IsHeaderLine(line: string) {
    ContainsAny(Lower(line), HeaderKeywords)
  }

  /** `[col.strip() for col in line.split(',')]`. */
  function SimpleSplit(line: string): (fields: seq<string>)
    ensures |fields| == Count(line, ',') + 1
  {
    var parts := Split(line, ',');
    seq(|parts|, i requires 0 <= i < |parts| => PyStrip(parts[i]))
  }

  /** `row[:n]`: the first `n` fields, or all of them when there are fewer. */
  function Take(row: seq<string>, n: nat): (r: seq<string>)
    ensures |r| == if |row| <= n then |row| else n
    ensures forall j :: 0 <= j < |r| ==> r[j] == row[j]
  {
    if |row| <= n then row else row[..n]
  }

  /** `n` empty fields. */
  function Blanks(n: nat): (r: seq<string>)
    ensures |r| == n && forall j :: 0 <= j < n ==> r[j] == ""
  {
    seq(n, _ => "")
  }

  /** `while len(row) < width: row.append('')`. */
  function Pad(row: seq<string>, width: nat): (r: seq<string>)
    ensures |r| == if |row| < width then width else |row|
    ensures forall j :: 0 <= j < |r| ==> r[j] == if j < |row| then row[j] else ""
  {
    if |row| < width then row + Blanks(width - |row|) else row
  }

  /** The column names read from a header line: the reader's fields, or the plain split when it raises. */
  function HeaderFields(line: string, tok: Tokenizer): seq<string> {
    match tok(line)
    case Some(fields) => fields
    case None => SimpleSplit(line)
  }

  function Min(a: nat, b: nat): nat {
    if a <= b then a else b
  }

  /**
   * The data row a stripped line yields under a header of `width` names:
   * lines with fewer than three fields are skipped; rows from the reader are
   * cut to `width`; rows from the plain split are padded and cut to exactly
   * `width`.
   */
  function DataRow(line: string, width: nat, tok: Tokenizer): (r: Option<seq<string>>)
    ensures r.Some? ==> Min(3, width) <= |r.value| <= width
    ensures r.Some? && tok(line).None? ==> |r.value| == width
  {
    match tok(line)
    case Some(row) => if |row| >= 3 then Some(Take(row, width)) else None
    case None =>
      var row := SimpleSplit(line);
      if |row| >= 3 then Some(Take(Pad(row, width), width)) else None
  }

  /**
   * A line yields a row exactly when it splits into at least three fields;
   * the row is the reader's fields cut to the header width, or the plain-split fields
   * followed by empty fields up to the header width.
   */
  lemma DataRowShape(line: string, width: nat, tok: Tokenizer)
    ensures var r := DataRow(line, width, tok);
      && (r.Some? <==> match tok(line)
            case Some(row) => |row| >= 3
            case None => |SimpleSplit(line)| >= 3)
      && (r.Some? && tok(line).Some? ==> |r.value| == Min(|tok(line).value|, width))
      && (r.Some? && tok(line).Some? ==>
            |r.value| <= |tok(line).value| && forall j :: 0 <= j < |r.value| ==> r.value[j] == tok(line).value[j])
      && (r.Some? && tok(line).None? ==> forall j :: 0 <= j < width ==>
            r.value[j] == if j < |SimpleSplit(line)| then SimpleSplit(line)[j] else "")
  {
  }

  /** What the loop has built so far: the header (None until one is found) and the data rows. */
  datatype ParseState = ParseState(headers: Option<seq<string>>, rows: seq<seq<string>>)

  /** The data row, if any, that one line of the file yields under a header of `width` names. */
  function LineRows(rawLine: string, width: nat, tok: Tokenizer): seq<seq<string>> {
    var line := PyStrip(rawLine);
    if line == [] then []
    else match DataRow(line, width, tok)
      case Some(row) => [row]
      case None => []
  }

  /**
   * One iteration of the loop over the lines: before the header is found a
   * non-empty line that passes the header test sets it; after that every
   * line is a candidate data row.
   */
  function Step(st: ParseState, rawLine: string, tok: Tokenizer, isHeader: string -> bool): ParseState {
    match st.headers
    case None =>
      var line := PyStrip(rawLine);
      if line != [] && isHeader(line) then st.(headers := Some(HeaderFields(line, tok))) else st
    case Some(h) => st.(rows := st.rows + LineRows(rawLine, |h|, tok))
  }

  /**
   * The state after the loop has seen every line, in order. The header test
   * is a parameter so that the structure of the loop can be reasoned about
   * apart from the keyword search; the script's test is IsHeaderLine.
   */
  function Parse(lines: seq<string>, tok: Tokenizer, isHeader: string -> bool): ParseState
    decreases |lines|
  {
    if lines == [] then ParseState(None, [])
    else Step(Parse(lines[..|lines| - 1], tok, isHeader), lines[|lines| - 1], tok, isHeader)
  }

  /** Line `i` is non-empty after stripping and mentions a header keyword. */
  predicate IsHeaderAt(lines: seq<string>, i: nat, isHeader: string -> bool)
    requires i < |lines|
  {
    PyStrip(lines[i]) != [] && isHeader(PyStrip(lines[i]))
  }

  /** The position of the header line: the first line that passes the header test. */
  function FirstHeaderIndex(lines: seq<string>, isHeader: string -> bool): (r: Option<nat>)
    ensures r.Some? ==> r.value < |lines| && IsHeaderAt(lines, r.value, isHeader)
    ensures r.Some? ==> forall j :: 0 <= j < r.value ==> !IsHeaderAt(lines, j, isHeader)
    ensures r.None? ==> forall j :: 0 <= j < |lines| ==> !IsHeaderAt(lines, j, isHeader)
    decreases |lines|
  {
    if lines == [] then None
    else
      var init := lines[..|lines| - 1];
      var prev := FirstHeaderIndex(init, isHeader);
      assert forall j :: 0 <= j < |init| ==> (IsHeaderAt(init, j, isHeader) <==> IsHeaderAt(lines, j, isHeader));
      if prev.Some? then prev
      else if IsHeaderAt(lines, |lines| - 1, isHeader) then Some(|lines| - 1)
      else None
  }

  /** The data rows the lines yield under a header of `width` names, in order. */
  function DataRows(lines: seq<string>, width: nat, tok: Tokenizer): seq<seq<string>>
    decreases |lines|
  {
    if lines == [] then []
    else DataRows(lines[..|lines| - 1], width, tok) + LineRows(lines[|lines| - 1], width, tok)
  }

  /**
   * `st` is what the lines give when read as a header line followed by data:
   * no header and no rows when no line passes the header test; otherwise
   * the header read from the first such line, and the data rows of the
   * lines after it (including later lines that mention a header keyword).
   */
  ghost predicate HeaderThenRows(lines: seq<string>, tok: Tokenizer, isHeader: string -> bool, st: ParseState) {
    match FirstHeaderIndex(lines, isHeader)
    case None => st == ParseState(None, [])
    case Some(h) =>
      var headers := HeaderFields(PyStrip(lines[h]), tok);
      st == ParseState(Some(headers), DataRows(lines[h + 1..], |headers|, tok))
  }

  /** What the loop computes, stated without the loop. */
  lemma {:induction false} ParseIsHeaderThenRows(lines: seq<string>, tok: Tokenizer, isHeader: string -> bool)
    ensures HeaderThenRows(lines, tok, isHeader, Parse(lines, tok, isHeader))
    decreases |lines|
  {
    if lines != [] {
      var init := lines[..|lines| - 1];
      ParseIsHeaderThenRows(init, tok, isHeader);
      var prev := Parse(init, tok, isHeader);
      assert Parse(lines, tok, isHeader) == Step(prev, lines[|lines| - 1], tok, isHeader);
      match FirstHeaderIndex(init, isHeader)
      case Some(h) => StepAfterHeader(lines, tok, isHeader, h, prev);
      case None => StepBeforeHeader(lines, tok, isHeader, prev);
    }
  }

  lemma StepAfterHeader(lines: seq<string>, tok: Tokenizer, isHeader: string -> bool, h: nat, prev: ParseState)
    requires lines != [] && FirstHeaderIndex(lines[..|lines| - 1], isHeader) == Some(h)
    requires HeaderThenRows(lines[..|lines| - 1], tok, isHeader, prev)
    ensures HeaderThenRows(lines, tok, isHeader, Step(prev, lines[|lines| - 1], tok, isHeader))
  {
    var init, last := lines[..|lines| - 1], lines[|lines| - 1];
    HeaderStaysFirst(lines, isHeader, h);
    var headers := HeaderFields(PyStrip(lines[h]), tok);
    RowsAfterHeaderGrow(lines, h, |headers|, tok);
    var rows := DataRows(init[h + 1..], |headers|, tok);
    assert prev == ParseState(Some(headers), rows);
  }

  /** A header found among the earlier lines is still the first one once a line is added. */
  lemma HeaderStaysFirst(lines: seq<string>, isHeader: string -> bool, h: nat)
    requires lines != [] && FirstHeaderIndex(lines[..|lines| - 1], isHeader) == Some(h)
    ensures h < |lines| - 1 && FirstHeaderIndex(lines, isHeader) == Some(h)
  {
  }

  /** The rows after the header gain exactly the rows of the added line. */
  lemma RowsAfterHeaderGrow(lines: seq<string>, h: nat, width: nat, tok: Tokenizer)
    requires h < |lines| - 1
    ensures lines[..|lines| - 1][h] == lines[h]
    ensures DataRows(lines[h + 1..], width, tok) ==
      DataRows(lines[..|lines| - 1][h + 1..], width, tok) + LineRows(lines[|lines| - 1], width, tok)
  {
    AppendAfterHeader(lines, h);
  }

  lemma StepBeforeHeader(lines: seq<string>, tok: Tokenizer, isHeader: string -> bool, prev: ParseState)
    requires lines != [] && FirstHeaderIndex(lines[..|lines| - 1], isHeader) == None
    requires HeaderThenRows(lines[..|lines| - 1], tok, isHeader, prev)
    ensures HeaderThenRows(lines, tok, isHeader, Step(prev, lines[|lines| - 1], tok, isHeader))
  {
    var n := |lines| - 1;
    if IsHeaderAt(lines, n, isHeader) {
      assert lines[n + 1..] == [];
    }
  }

  lemma AppendAfterHeader(lines: seq<string>, h: nat)
    requires h < |lines| - 1
    ensures lines[..|lines| - 1][h] == lines[h]
    ensures lines[h + 1..][..|lines| - h - 2] == lines[..|lines| - 1][h + 1..]
    ensures lines[h + 1..][|lines| - h - 2] == lines[|lines| - 1]
  {
  }

  /** The loaded rows and column names, before they become a table. */
  datatype RawFrame = RawFrame(headers: seq<string>, rows: seq<seq<string>>)

  /** `if headers and data_rows`: a result only with a non-empty header and at least one data row. */
  function ParseResult(st: ParseState): Option<RawFrame> {
    if st.headers.Some? && st.headers.value != [] && st.rows != [] then Some(RawFrame(st.headers.value, st.rows))
    else None
  }

  /** What `manual_csv_parsing` returns for the lines of a file. */
  function ManualParse(lines: seq<string>, tok: Tokenizer): Option<RawFrame> {
    ParseResult(Parse(lines, tok, IsHeaderLine))
  }

  /**
   * The parse succeeds exactly when some line passes the header test, its
   * fields are not empty, and some later line yields a data row; the result
   * holds those fields and rows, and no row is wider than the header.
   */
  lemma ParseResultSpec(lines: seq<string>, tok: Tokenizer, isHeader: string -> bool)
    ensures var r := ParseResult(Parse(lines, tok, isHeader));
      var h := FirstHeaderIndex(lines, isHeader);
      && (r.Some? <==>
            && h.Some?
            && HeaderFields(PyStrip(lines[h.value]), tok) != []
            && DataRows(lines[h.value + 1..], |HeaderFields(PyStrip(lines[h.value]), tok)|, tok) != [])
      && (r.Some? ==> r.value.headers == HeaderFields(PyStrip(lines[h.value]), tok))
      && (r.Some? ==> r.value.rows == DataRows(lines[h.value + 1..], |r.value.headers|, tok))
      && (r.Some? ==> forall i :: 0 <= i < |r.value.rows| ==> |r.value.rows[i]| <= |r.value.headers|)
  {
    var st := Parse(lines, tok, isHeader);
    ParseIsHeaderThenRows(lines, tok, isHeader);
    match FirstHeaderIndex(lines, isHeader)
    case None =>
      assert st == ParseState(None, []);
    case Some(h) =>
      var headers := HeaderFields(PyStrip(lines[h]), tok);
      assert st == ParseState(Some(headers), DataRows(lines[h + 1..], |headers|, tok));
      DataRowsWidth(lines[h + 1..], |headers|, tok);
  }

  /** Every data row has between min(3, width) and width fields. */
  lemma {:induction false} DataRowsWidth(lines: seq<string>, width: nat, tok: Tokenizer)
    ensures forall i :: 0 <= i < |DataRows(lines, width, tok)| ==>
      Min(3, width) <= |DataRows(lines, width, tok)[i]| <= width
    decreases |lines|
  {
    if lines != [] {
      DataRowsWidth(lines[..|lines| - 1], width, tok);
      var line := PyStrip(lines[|lines| - 1]);
      if line != [] && DataRow(line, width, tok).Some? {
        assert LineRows(lines[|lines| - 1], width, tok) == [DataRow(line, width, tok).value];
      }
    }
  }

  /**
   * `manual_csv_parsing` on the lines of the file: the loop over the lines
   * with its header variable and its list of data rows, and the padding
   * loop of the plain-split fallback.
   */
  method ManualCsvParsing(lines: seq<string>, tok: Tokenizer) returns (r: Option<RawFrame>)
    ensures r == ManualParse(lines, tok)
    ensures r.Some? ==> r.value.headers != [] && r.value.rows != []
  {
    var headers: Option<seq<string>> := None;
    var dataRows: seq<seq<string>> := [];
    for i := 0 to |lines|
      invariant ParseState(headers, dataRows) == Parse(lines[..i], tok, IsHeaderLine)
    {
      assert lines[..i + 1][..i] == lines[..i];
      assert Parse(lines[..i + 1], tok, IsHeaderLine) == Step(ParseState(headers, dataRows), lines[i], tok, IsHeaderLine);
      var line := PyStrip(lines[i]);
      if line == [] {
        continue;
      }
      if headers.None? && IsHeaderLine(line) {
        match tok(line) {
          case Some(fields) => headers := Some(fields);
          case None => headers := Some(SimpleSplit(line));
        }
        continue;
      }
      if headers.Some? {
        var width := |headers.value|;
        match tok(line) {
          case Some(row) =>
            if |row| >= 3 {
              dataRows := dataRows + [Take(row, width)];
            } else {
              assert LineRows(lines[i], width, tok) == [];
            }
          case None =>
            var row := SimpleSplit(line);
            if |row| >= 3 {
              var padded := row;
              while |padded| < width
                invariant |row| <= |padded| && (|padded| <= width || padded == row)
                invariant padded == row + Blanks(|padded| - |row|)
                decreases width - |padded|
              {
                padded := padded + [""];
                assert Blanks(|padded| - |row|) == Blanks(|padded| - |row| - 1) + [""];
              }
              assert padded == Pad(row, width);
              assert padded[..width] == Take(padded, width);
              assert LineRows(lines[i], width, tok) == [padded[..width]];
              dataRows := dataRows + [padded[..width]];
            }
        }
      }
    }
    assert lines[..|lines|] == lines;
    if headers.Some? && headers.value != [] && dataRows != [] {
      r := Some(RawFrame(headers.value, dataRows));
    } else {
      r := None;
    }
  }

  /** The widest row's number of fields (0 for no rows). */
  function MaxWidth(rows: seq<seq<string>>): (w: nat)
    ensures forall i :: 0 <= i < |rows| ==> |rows[i]| <= w
    ensures rows != [] ==> exists i :: 0 <= i < |rows| && |rows[i]| == w
  {
    if rows == [] then 0
    else
      var rest := MaxWidth(rows[1..]);
      assert forall i :: 1 <= i < |rows| ==> rows[i] == rows[1..][i - 1];
      if |rows[0]| >= rest then |rows[0]| else rest
  }

  /** One row of strings as table cells; positions past its end read as NaN through CellAt. */
  function LiftRow(row: seq<string>): seq<Cell> {
    seq(|row|, j requires 0 <= j < |row| => Some(row[j]))
  }

  /**
   * `pd.DataFrame(data_rows, columns=headers)`: pandas raises unless the
   * widest row has exactly as many fields as there are column names;
   * shorter rows read as NaN in their missing positions. An empty field is
   * the empty string, not NaN.
   */
  function BuildFrame(raw: RawFrame): (t: Option<Table>)
    ensures t.Some? <==> raw.rows == [] || MaxWidth(raw.rows) == |raw.headers|
    ensures t.Some? ==> t.value.columns == raw.headers && |t.value.rows| == |raw.rows|
    ensures t.Some? ==> forall i, j :: 0 <= i < |raw.rows| && 0 <= j < |raw.headers| ==>
      CellAt(t.value.rows[i], j) == if j < |raw.rows[i]| then Some(raw.rows[i][j]) else None
  {
    if raw.rows == [] || MaxWidth(raw.rows) == |raw.headers| then
      Some(Table(raw.headers, seq(|raw.rows|, i requires 0 <= i < |raw.rows| => LiftRow(raw.rows[i]))))
    else None
  }
}
