/**
 * Choice of the weight and location columns (lines 143-178 of
 * percentage_nations_etf.py): each is the first column whose lower-cased,
 * stripped name contains one of a fixed list of keywords; when either is
 * missing the user names both by position, and a position that is not a
 * number or is out of range ends the analysis.
 */
module Columns {
  import opened Wrappers
  import opened Text

  const WeightKeywords: seq<string> := ["weight", "peso", "%", "percent", "allocation"]
  const LocationKeywords: seq<string> := ["location", "country", "paese", "nazione", "region"]

  /** `any(keyword in str(col).lower().strip() for keyword in keywords)`. */
  predicate ColumnMatches(name: string, keywords: seq<string>) {
    ContainsAny(PyStrip(Lower(name)), keywords)
  }

  /** The column test as a value, for the generic first-match search. */
  function Matcher(keywords: seq<string>): string -> bool {
    name => ColumnMatches(name, keywords)
  }

  /** Position of the first name that `matches` accepts, as a recursive definition. */
  function FirstWhere(names: seq<string>, matches: string -> bool): Option<nat> {
    if names == [] then None
    else if matches(names[0]) then Some(0)
    else match FirstWhere(names[1..], matches)
      case Some(i) => Some(i + 1)
      case None => None
  }

  /** The definition picks the first accepted name, and None means no name is accepted. */
  lemma {:induction false} FirstWhereIsFirst(names: seq<string>, matches: string -> bool)
    ensures var r := FirstWhere(names, matches);
      && (r.Some? ==> r.value < |names| && matches(names[r.value]))
      && (r.Some? ==> forall j :: 0 <= j < r.value ==> !matches(names[j]))
      && (r.None? <==> forall j :: 0 <= j < |names| ==> !matches(names[j]))
  {
    if names != [] && !matches(names[0]) {
      var tail := names[1..];
      FirstWhereIsFirst(tail, matches);
      forall j | 1 <= j < |names| ensures names[j] == tail[j - 1] {
      }
    }
  }

  /** Position of the first column whose name matches one of the keywords. */
  function FirstMatch(columns: seq<string>, keywords: seq<string>): Option<nat> {
    FirstWhere(columns, Matcher(keywords))
  }

  /** The first matching column is found, and None means no column matches. */
  lemma FirstMatchIsFirst(columns: seq<string>, keywords: seq<string>)
    ensures var r := FirstMatch(columns, keywords);
      && (r.Some? ==> r.value < |columns| && ColumnMatches(columns[r.value], keywords))
      && (r.Some? ==> forall j :: 0 <= j < r.value ==> !ColumnMatches(columns[j], keywords))
      && (r.None? <==> forall j :: 0 <= j < |columns| ==> !ColumnMatches(columns[j], keywords))
  {
    FirstWhereIsFirst(columns, Matcher(keywords));
  }

  /**
   * The scan `for col in df.columns: ... break`: the first column whose
   * name matches one of the keywords, or None when none does.
   */
  method FindColumn(columns: seq<string>, keywords: seq<string>) returns (found: Option<nat>)
    ensures found == FirstMatch(columns, keywords)
    ensures found.Some? ==> found.value < |columns| && ColumnMatches(columns[found.value], keywords)
    ensures found.Some? ==> forall j :: 0 <= j < found.value ==> !ColumnMatches(columns[j], keywords)
    ensures found.None? ==> forall j :: 0 <= j < |columns| ==> !ColumnMatches(columns[j], keywords)
  {
    FirstMatchIsFirst(columns, keywords);
    var i := 0;
    while i < |columns|
      invariant 0 <= i <= |columns|
      invariant forall j :: 0 <= j < i ==> !ColumnMatches(columns[j], keywords)
    {
      if ColumnMatches(columns[i], keywords) {
        return Some(i);
      }
      i := i + 1;
    }
    return None;
  }

  /** Every keyword of both lists is non-empty and free of whitespace. */
  lemma KeywordsAreWords(keywords: seq<string>)
    requires keywords == WeightKeywords || keywords == LocationKeywords
    ensures forall i :: 0 <= i < |keywords| ==> keywords[i] != [] && forall k :: 0 <= k < |keywords[i]| ==> !IsPySpace(keywords[i][k])
  {
  }

  /** Since no keyword holds whitespace, the strip before the search never changes whether a name matches. */
  lemma MatchIgnoresStrip(name: string, keywords: seq<string>)
    requires keywords == WeightKeywords || keywords == LocationKeywords
    ensures ColumnMatches(name, keywords) <==> ContainsAny(Lower(name), keywords)
  {
    KeywordsAreWords(keywords);
    ContainsAnyIff(PyStrip(Lower(name)), keywords);
    ContainsAnyIff(Lower(name), keywords);
    forall i | 0 <= i < |keywords|
      ensures Contains(PyStrip(Lower(name)), keywords[i]) <==> Contains(Lower(name), keywords[i])
    {
      ContainsStripped(Lower(name), keywords[i], IsPySpace);
    }
  }

  /**
   * `df.columns[int(input(...))]`: an answer that is not an integer (None)
   * or lies outside -n..n-1 fails; a negative index counts from the end.
   */
  function ResolveIndex(n: nat, answer: Option<int>): (r: Option<nat>)
    ensures r.Some? <==> answer.Some? && -(n as int) <= answer.value < n
    ensures r.Some? ==> r.value < n
    ensures r.Some? ==> (r.value == answer.value <==> answer.value >= 0)
    ensures r.Some? ==> (r.value == answer.value + n <==> answer.value < 0)
  {
    match answer
    case None => None
    case Some(k) =>
      if 0 <= k < n then Some(k as nat)
      else if -(n as int) <= k < 0 then Some((k + n) as nat)
      else None
  }

  /** A non-negative answer in range names that very column, and the answer -1 names the last column. */
  lemma ResolveIndexEnds(n: nat, k: int)
    requires 0 <= k < n
    ensures ResolveIndex(n, Some(k)) == Some(k)
    ensures ResolveIndex(n, Some(-1)) == Some(n - 1)
  {
  }

  /** The two answers the user gives at the prompt. */
  datatype Prompt = Prompt(weightAnswer: Option<int>, locationAnswer: Option<int>)

  /** Why column selection failed: an answer was not an integer or not a valid position. */
  datatype SelectionError = InvalidColumnSelection

  /**
   * The weight and location columns by position: the keyword matches when
   * both exist; otherwise both come from the prompt, and either answer
   * failing fails the selection.
   */
  function SelectColumns(columns: seq<string>, prompt: Prompt): Result<(nat, nat), SelectionError> {
    match (FirstMatch(columns, WeightKeywords), FirstMatch(columns, LocationKeywords))
    case (Some(w), Some(l)) => Success((w, l))
    case _ =>
      match (ResolveIndex(|columns|, prompt.weightAnswer), ResolveIndex(|columns|, prompt.locationAnswer))
      case (Some(w), Some(l)) => Success((w, l))
      case _ => Failure(InvalidColumnSelection)
  }

  /**
   * Selection succeeds exactly when both keyword searches succeed or both
   * answers are valid positions, and then it names existing columns; when
   * the keyword searches succeed the prompt is never consulted; otherwise
   * the columns are those the two answers name.
   */
  lemma SelectColumnsSpec(columns: seq<string>, prompt: Prompt)
    ensures var found := FirstMatch(columns, WeightKeywords).Some? && FirstMatch(columns, LocationKeywords).Some?;
      var r := SelectColumns(columns, prompt);
      && (r.Success? <==> found || (ResolveIndex(|columns|, prompt.weightAnswer).Some? && ResolveIndex(|columns|, prompt.locationAnswer).Some?))
      && (r.Success? ==> r.value.0 < |columns| && r.value.1 < |columns|)
      && (found ==> r == Success((FirstMatch(columns, WeightKeywords).value, FirstMatch(columns, LocationKeywords).value)))
      && (found ==> ColumnMatches(columns[r.value.0], WeightKeywords) && ColumnMatches(columns[r.value.1], LocationKeywords))
      && (!found && r.Success? ==>
            r.value == (ResolveIndex(|columns|, prompt.weightAnswer).value, ResolveIndex(|columns|, prompt.locationAnswer).value))
  {
    FirstMatchIsFirst(columns, WeightKeywords);
    FirstMatchIsFirst(columns, LocationKeywords);
  }
}
