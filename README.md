# ETF geographic allocation, in Dafny

This project models the computational core of `percentage_nations_etf.py`.
That script reads an ETF's holdings file and works out how the fund's weight is
spread over countries.

- **Manual reader.** `manual_csv_parsing` is the last-resort reader. It scans the lines of the file for a header line that mentions a keyword. It then keeps every later line that splits into at least three fields, cut to the header's width. Rows from the plain-split fallback are also padded to that width.
- **Column choice.** The weight column is the first column whose lower-cased, stripped name contains a weight keyword. The location column is found the same way with location keywords. When either is missing, both columns come from the user's two answers, given as positions.
- **Cleaning.** Rows missing the weight or the location are dropped. Weight text loses every `%`, has `,` turned into `.`, and is read as a number. Rows whose weight does not read are dropped.
- **Country names.** Names are stripped and passed through the script's fixed mapping. Only "Korea (South)" changes (to "South Korea"); every other name passes through as it is.
- **Aggregation.** Weights are summed per country and sorted in descending order, and each total is divided by the grand total and multiplied by 100.
- **Quick analysis.** `quick_analysis` does the same group-by and percentages over two named columns, with neither cleaning nor normalisation.

Modules:

- `Wrappers`: `Option`, `Result`.
- `Text`: Python's `strip`, `lower` and `in` on strings, and `split`, `replace` and `count` on single characters.
- `Decimal`: the decimal literals the weight parser accepts.
- `Frame`: tables of optional cells (None is pandas' NaN), and holdings.
- `ManualParser`: the manual reader, as the imperative loop `ManualCsvParsing` proved against the fold `Parse`. The DataFrame construction is `BuildFrame`.
- `Columns`: the keyword scans, as the method `FindColumn` proved against `FirstMatch`. The prompt fallback is `ResolveIndex` and `SelectColumns`.
- `Cleaning`: row cleaning and country canonicalisation.
- `Aggregation`: group-by-sum, the descending sort and the percentages.
- `Analysis`: `analyze_etf_country_allocation` over a loaded table, the manual path from lines to result, and `quick_analysis`.

Only the plain-split fallback pads rows (lines 63-68). Rows from the CSV reader are only cut (line 59), and `pd.DataFrame` leaves their missing positions empty; `BuildFrame` models that.

## Model

| member | source | states |
|---|---|---|
| ManualParser.ManualCsvParsing | percentage_nations_etf.py:32-78 | The loop over the lines computes exactly the fold `ManualParse`: the header and data-row variables match `Parse` of the lines seen so far. The padding loop yields the padded row. A result always has a non-empty header and at least one row. |
| ManualParser.FirstHeaderIndex | percentage_nations_etf.py:35-41 | The header position is a line that is non-empty after stripping and passes the keyword test, and no earlier line does. None means no line does. |
| ManualParser.ParseIsHeaderThenRows | percentage_nations_etf.py:35-70 | The loop's final state reads the header from the first header line. Its data rows are exactly those of the lines after it, in order. Lines before the header and the header line itself never become rows. |
| ManualParser.ParseResultSpec | percentage_nations_etf.py:35-78 | The parse succeeds exactly when a header line exists, its fields are non-empty, and some later line yields a row. The result then holds those fields and rows, and no row is wider than the header. |
| ManualParser.DataRow | percentage_nations_etf.py:53-68 | An accepted row has at most the header's width and at least min(3, width) fields. A row from the plain split has exactly the header's width. |
| ManualParser.DataRowShape | percentage_nations_etf.py:55-68 | A line yields a row exactly when it splits into at least three fields. A reader row is the first min(fields, width) of the reader's fields, as `row[:len(headers)]` keeps. A plain-split row is the stripped fields followed by empty strings up to the width. |
| ManualParser.DataRowsWidth | percentage_nations_etf.py:58-68 | Every accepted data row has between min(3, width) and width fields. |
| ManualParser.SimpleSplit | percentage_nations_etf.py:63 | The plain split gives one more field than the line has commas. |
| ManualParser.Pad | percentage_nations_etf.py:66-67 | Padding keeps the row's fields and appends empty strings until the row has the header's width. |
| ManualParser.BuildFrame | percentage_nations_etf.py:73 | Construction succeeds exactly when the widest row has as many fields as there are column names. The table then has those columns and one row per data row. Positions past a row's end read as NaN. |
| Columns.FindColumn | percentage_nations_etf.py:147-158 | The `for`/`break` scan returns the first column whose normalised name contains a keyword, and no earlier column does. None means no column does. |
| Columns.FirstMatchIsFirst | percentage_nations_etf.py:147-158 | The definition of the scan picks the first matching column and reports None exactly when none matches. |
| Columns.FirstWhereIsFirst | percentage_nations_etf.py:147-151 | First-match search over any test: the found position passes, earlier ones do not, and None means none passes. |
| Columns.MatchIgnoresStrip | percentage_nations_etf.py:148-149 | No keyword contains whitespace, so stripping the lower-cased name never changes whether it matches. |
| Columns.KeywordsAreWords | percentage_nations_etf.py:149-156 | Every weight and location keyword is non-empty and free of whitespace. |
| Columns.ResolveIndex | percentage_nations_etf.py:171-178 | An answer gives a column exactly when it is an integer in -n..n-1. A negative answer counts from the end, and the result is always a valid position. |
| Columns.ResolveIndexEnds | percentage_nations_etf.py:174-175 | A non-negative answer in range names that column, and -1 names the last column. |
| Columns.SelectColumnsSpec | percentage_nations_etf.py:143-178 | Selection succeeds exactly when both scans find a column or both answers are valid. When both scans succeed their columns are used and the prompt is ignored. Chosen columns exist and, when found by the scans, match their keywords. Otherwise they are exactly the positions the two answers name. |
| Cleaning.WeightText | percentage_nations_etf.py:189 | Cleaned weight text contains no `%` and no `,`. It is shorter than the input by exactly the number of `%` signs. |
| Cleaning.WeightWithCommaAndPercent | percentage_nations_etf.py:189-190 | A weight written as digits, a decimal comma, digits and `%` reads as the same decimal number. |
| Cleaning.TwelveAndAHalf | percentage_nations_etf.py:189-190 | The weight "12,5%" reads as 12.5. |
| Cleaning.WeightWithPercent | percentage_nations_etf.py:189-190 | A whole number followed by `%` reads as that number. |
| Cleaning.TwoSeparatorsDropped | percentage_nations_etf.py:189-193 | Weight text with two or more separators (`,` or `.`) in total never reads as a number, so its row is dropped. |
| Cleaning.ThousandsSeparatorDropped | percentage_nations_etf.py:189-193 | "1,234.5" becomes "1.234.5" and is dropped. |
| Cleaning.CleanRows | percentage_nations_etf.py:184-193 | Every surviving row is the cleaned form of the input row it came from, so it has both cells and a parsed weight. Survivors keep their input order, none is invented, and every row that cleans survives. |
| Cleaning.NormalizeCountry | percentage_nations_etf.py:196-214 | The canonical name is the stripped name, except that "Korea (South)" becomes "South Korea". Every other name, listed or not, passes through unchanged. |
| Cleaning.LookupIdentity | percentage_nations_etf.py:199-214 | With a mapping whose entries all map a name to itself, lookup with fall-back returns the key. |
| Cleaning.NormalizeCountryIdempotent | percentage_nations_etf.py:196-214 | Canonicalising a canonical name changes nothing. |
| Decimal.ParseDecimalDefinedIff | percentage_nations_etf.py:190 | A stripped weight text reads as a number exactly when it is an optional sign, then digits with at most one point, with at least one digit. |
| Decimal.ParsePointed | percentage_nations_etf.py:190 | "whole.frac" reads as whole + frac / 10^len(frac). |
| Decimal.NegatedUnsigned | percentage_nations_etf.py:190 | A leading '-' negates the value the rest of the literal reads as. |
| Decimal.MinusOneAndAHalf | percentage_nations_etf.py:190 | "-1.5" reads as -1.5. |
| Decimal.ParseNatText | percentage_nations_etf.py:190 | The decimal text of every natural number reads back as that number. |
| Text.StripIdempotent | percentage_nations_etf.py:196 | Stripping twice is stripping once. |
| Text.ContainsAnyIff | percentage_nations_etf.py:149 | `any(k in s for k in keywords)` holds exactly when some keyword occurs in the name at some position. |
| Aggregation.GroupSums | percentage_nations_etf.py:217 | The groups have distinct countries, and a country has a group exactly when some row has it. Each group's total is the sum of that country's weights, and the totals add up to the sum of all weights. |
| Aggregation.SortDescending | percentage_nations_etf.py:217 | The sorted groups are in non-increasing order of total and are a permutation of the input. |
| Aggregation.SortKeepsDistinct | percentage_nations_etf.py:217 | Sorting keeps each country to one group. |
| Aggregation.CountryWeights | percentage_nations_etf.py:217 | `groupby(...).sum().sort_values(ascending=False)` is a country allocation of the holdings: one group per country present, each total the sum of that country's weights, non-increasing, and grand total equal to the sum of all weights. |
| Aggregation.PercentagesSumTo100 | percentage_nations_etf.py:220-221 | Before rounding, the percentages add up to 100 whenever the grand total is not zero. |
| Aggregation.PercentagesZeroTotal | percentage_nations_etf.py:220-221 | With a zero grand total the division is unguarded: every share is undefined, one per country. |
| Aggregation.PercentagesNonIncreasing | percentage_nations_etf.py:217-221 | With a positive grand total the percentages keep the descending order of the totals. |
| Aggregation.TwoCountryExample | percentage_nations_etf.py:217-221 | Rows United States 40, United States 30, Japan 30 give United States 70 then Japan 30, which are 70% and 30%. |
| Analysis.AnalyzeEtfCountryAllocation | percentage_nations_etf.py:143-221 | The analysis of a loaded table returns the definition `Analyze`, and its weights are a country allocation of the cleaned rows. |
| Analysis.AnalyzeSpec | percentage_nations_etf.py:143-223 | The analysis fails exactly when column selection fails. Otherwise the holdings are exactly the rows that clean, and the weights are their country allocation with grand total equal to the sum of the weights. The percentages are each weight's share of that total: they add up to 100, or are all undefined when the sum is zero. |
| Analysis.AnalyzeManualFile | percentage_nations_etf.py:122-126 | A file read by the manual reader is analysed when that reader and the DataFrame construction succeed. The result is None otherwise. |
| Analysis.ColumnIndex | percentage_nations_etf.py:276 | A named column is found at a position holding that name, and None means the name is not a column. |
| Analysis.QuickAnalysisSpec | percentage_nations_etf.py:273-277 | A missing location name is reported first, then a missing weight name. The quick analysis succeeds exactly when both names are columns and either the weight column is numeric or no row has a location. Its groups are then the country allocation of the rows that have a location. The percentages are each group's share of the total: they add up to 100, or are all undefined when the weights sum to zero. |
| Analysis.QuickRowsWithLocation | percentage_nations_etf.py:276 | The group-by takes each row with a location under its raw location value, and takes no row without one. |
| Analysis.QuickUnlocatedTextWeights | percentage_nations_etf.py:276-277 | A text weight column in a table where no row has a location gives an empty allocation and no percentages, not an error. |
| Analysis.ExampleColumns | percentage_nations_etf.py:147-158 | With the columns Ticker, Weight and Location, the scans pick Weight and Location without the prompt. |
| Analysis.ExampleKeywordHits | percentage_nations_etf.py:147-158 | Over Ticker, Weight and Location the weight scan stops at position 1 and the location scan at position 2. |
| Analysis.TickerMatchesNeither | percentage_nations_etf.py:147-158 | "Ticker" contains no weight keyword and no location keyword. |
| Analysis.WeightIsWeightOnly | percentage_nations_etf.py:147-158 | "Weight" contains a weight keyword and no location keyword. |
| Analysis.LocationIsLocation | percentage_nations_etf.py:154-158 | "Location" contains a location keyword. |
| ManualParser.HeaderFields | percentage_nations_etf.py:41-51 | The column names of the header line: the CSV reader's fields, or the stripped plain-split fields when the reader raises. Its use is stated by `ParseIsHeaderThenRows` and `ParseResultSpec`. |
| ManualParser.Step | percentage_nations_etf.py:35-70 | One pass of the loop body: before a header, a non-blank line that passes the keyword test sets it; afterwards the line's data row, if any, is appended. `ParseIsHeaderThenRows` states what the steps add up to. |
| ManualParser.Parse | percentage_nations_etf.py:35-70 | The loop's state after all lines, as a fold of `Step`. `ParseIsHeaderThenRows` states it: the header from the first header line, and the rows of the lines after it. |
| ManualParser.ManualParse | percentage_nations_etf.py:35-78 | What `manual_csv_parsing` returns: a result only with a non-empty header and at least one row. `ParseResultSpec` states when it succeeds and what it holds; `ManualCsvParsing` is proved equal to it. |
| Analysis.LoadManual | percentage_nations_etf.py:122-126 | The table from the manual reader followed by `pd.DataFrame`, or None when either fails. `AnalyzeManualFile` is proved equal to the analysis of it. |
| Analysis.Analyze | percentage_nations_etf.py:143-223 | The analysis of a loaded table: column selection, cleaning, country weights and percentages, or None when selection fails. `AnalyzeSpec` states its properties and `AnalyzeEtfCountryAllocation` is proved equal to it. |
| Analysis.QuickAnalysis | percentage_nations_etf.py:273-277 | `quick_analysis` over named columns: the country weights of the rows with a location and their percentages, or an error for a missing column (the location name checked first) or a non-numeric weight column with some located row. `QuickAnalysisSpec` states its properties. |
| Columns.SelectColumns | percentage_nations_etf.py:143-178 | The keyword scans' columns when both find one, else the two prompted positions, else the selection error. `SelectColumnsSpec` states its properties. |
| Cleaning.CleanRow | percentage_nations_etf.py:184-196 | One row after cleaning: its canonical country and parsed weight, or None when either cell is NaN or the weight does not read. `CleanRows` states which rows survive. |
| Cleaning.ParseWeight | percentage_nations_etf.py:189-190 | The weight text without `%`, with `,` read as `.`, parsed as a number. `WeightWithCommaAndPercent`, `WeightWithPercent` and `TwoSeparatorsDropped` state what it accepts. |
| Decimal.ParseNumber | percentage_nations_etf.py:190 | `pd.to_numeric` on one string: surrounding ASCII whitespace skipped, then a signed decimal literal. `ParseDecimalDefinedIff` states which strings read as numbers. |
| Aggregation.Percentages | percentage_nations_etf.py:220-221 | Each country's total divided by the grand total, times 100, before rounding. `PercentagesSumTo100`, `PercentagesZeroTotal` and `PercentagesNonIncreasing` state its properties. |

## Left out

- File opening with its UTF-8 and Latin-1 attempts, and the cascade of `pd.read_csv` calls over separators and encodings. The model starts from the lines of the file, or from a table that has already been loaded. Which reader produced the table is not modelled.
- The quoting and escaping of Python's `csv.reader`. The reader is a parameter `Tokenizer` that gives the fields of a line, or None where the reader raises.
- The full number grammar of `pd.to_numeric`: exponents, `inf` and `nan`. The model accepts an optional sign and digits with at most one point, around ASCII whitespace.
- Floating point. Weights and percentages are exact reals, and the rounding to two decimals (lines 221 and 277) is not modelled.
- The interactive prompt is a given pair of answers. A non-integer answer is None.
- Printing, `print_results`, `export_results` and the `__main__` driver are not part of this model.
- The `dtype == 'object'` test (line 187). Cells are always text in the model, so the weight text is always cleaned. For a column pandas already read as plain decimal numbers, the cleaning gives back the same numbers.
- A column chosen as both weight and location (a name that matches both keyword lists, or the same answer twice). In the script the weight conversion then also changes the location text. The model reads both from the original text.
- Duplicate column names. Columns are addressed by position, and `ColumnIndex` takes the first match.
- Text.Lower: `str.lower` is modelled on ASCII letters only.
- Aggregation.SortDescending: pandas leaves the order of equal totals unspecified. Before the sort, pandas' groups are in country-name order; the model's are in order of first appearance, and its sort is stable, so countries with equal totals keep the order in which they first appear.
- Analysis.QuickAnalysis: the error `NonNumericWeights` stands for the `TypeError` raised when a weight column that pandas did not read as numbers is summed into some group and divided; with no located row the result is empty. A missing weight adds nothing to its group.
