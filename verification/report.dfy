/**
 * The bulk check (app.py, lines 64-150): the inputs are validated, every keyword gets
 * exactly one result row whatever happened to its request, and the rank column is
 * coloured by tier.
 */
module Report {
  import opened Wrappers
  import opened Strings
  import opened Decimal
  import opened Rank
  import opened Keywords

  /** The value in the Rank column: an integer position or a text label. */
  datatype RankCell = Position(n: int) | Label(text: string)

  /** One row of the results table. */
  datatype Row = Row(keyword: string, location: string, rank: RankCell, foundUrl: string)

  const NotInTop100: string := "Not in Top 100"
  const NoUrl: string := "-"
  const ApiErrorPrefix: string := "API Error: "
  const ErrorLabel: string := "Error"

  /** The Rank column's text for a non-200 status, `f"API Error: {code}"`. */
  function ApiErrorText(code: int): string {
    ApiErrorPrefix + DecimalString(code)
  }

  /** The Rank cell an outcome is written as. */
  function RankCellOf(o: Outcome): RankCell {
    match o
    case Found(p, _) => Position(p)
    case NotFound => Label(NotInTop100)
    case ApiError(code) => Label(ApiErrorText(code))
    case Error(_) => Label(ErrorLabel)
  }

  /** The Found URL cell an outcome is written as. */
  function FoundUrlOf(o: Outcome): string {
    match o
    case Found(_, link) => link
    case NotFound => NoUrl
    case ApiError(_) => NoUrl
    case Error(message) => message
  }

  /**
   * Reads an outcome back from a row's two cells; None for cells no outcome produces.
   */
  function OutcomeOfCells(rank: RankCell, foundUrl: string): Option<Outcome> {
    match rank
    case Position(p) => Some(Found(p, foundUrl))
    case Label(text) =>
      if text == ErrorLabel then Some(Error(foundUrl))
      else if foundUrl != NoUrl then None
      else if text == NotInTop100 then Some(NotFound)
      else if IsPrefix(ApiErrorPrefix, text) && IsDecimalText(text[|ApiErrorPrefix|..])
              && text == ApiErrorText(ParseDecimal(text[|ApiErrorPrefix|..])) then
        Some(ApiError(ParseDecimal(text[|ApiErrorPrefix|..])))
      else None
  }

  /**
   * The two cells of a row record the outcome without loss: reading them back gives
   * the outcome, so distinct outcomes, including distinct status codes, are written
   * as distinct rows.
   */
  lemma CellsRecordOutcome(o: Outcome)
    ensures OutcomeOfCells(RankCellOf(o), FoundUrlOf(o)) == Some(o)
  {
    match o
    case ApiError(code) =>
      var text := ApiErrorText(code);
      DecimalRoundTrip(code);
      assert text[|ApiErrorPrefix|..] == DecimalString(code);
      assert text != NotInTop100 by { assert text[0] != NotInTop100[0]; }
      assert text != ErrorLabel by { assert text[1] != ErrorLabel[1]; }
    case _ =>
  }

  /**
   * Only the cells an outcome is written as read back as that outcome: a miss is
   * exactly "Not in Top 100" with URL "-", an API error exactly `API Error: <code>`
   * with URL "-", an exception exactly "Error" with its message.
   */
  lemma CellsDetermineOutcome(rank: RankCell, foundUrl: string, o: Outcome)
    ensures OutcomeOfCells(rank, foundUrl) == Some(o) <==>
            rank == RankCellOf(o) && foundUrl == FoundUrlOf(o)
  {
    if rank == RankCellOf(o) && foundUrl == FoundUrlOf(o) {
      CellsRecordOutcome(o);
    }
  }

  /** The row one keyword produces from its own response. */
  function RowFor(keyword: string, location: string, websiteUrl: string, response: Response): Row
  {
    var o := RankOutcome(websiteUrl, response);
    Row(keyword, location, RankCellOf(o), FoundUrlOf(o))
  }

  /**
   * The loop over the keywords: exactly one row per keyword, in keyword order, each
   * carrying its keyword, the target location, and the outcome of that keyword's own
   * response, whatever that outcome is.
   */
  method CheckKeywords(websiteUrl: string, location: string, keywords: seq<string>, responses: seq<Response>)
    returns (rows: seq<Row>)
    requires |responses| == |keywords|
    ensures |rows| == |keywords|
    ensures forall i :: 0 <= i < |rows| ==>
              && rows[i].keyword == keywords[i]
              && rows[i].location == location
              && OutcomeOfCells(rows[i].rank, rows[i].foundUrl) == Some(RankOutcome(websiteUrl, responses[i]))
  {
    rows := [];
    var i := 0;
    while i < |keywords|
      invariant 0 <= i <= |keywords|
      invariant |rows| == i
      invariant RowsRecord(websiteUrl, location, keywords, responses, rows)
    {
      var row := RowFor(keywords[i], location, websiteUrl, responses[i]);
      RowsRecordGrows(websiteUrl, location, keywords, responses, rows, row);
      rows := rows + [row];
      i := i + 1;
    }
  }

  /** The rows so far record, in order, the keyword, the location and the outcome of each leading keyword. */
  ghost predicate RowsRecord(websiteUrl: string, location: string, keywords: seq<string>,
                             responses: seq<Response>, rows: seq<Row>)
  {
    |rows| <= |keywords| && |rows| <= |responses| &&
    forall j :: 0 <= j < |rows| ==> RowRecords(rows[j], keywords[j], location, websiteUrl, responses[j])
  }

  /** One row records its keyword, the location and the outcome of its response. */
  ghost predicate RowRecords(row: Row, keyword: string, location: string, websiteUrl: string, response: Response)
  {
    && row.keyword == keyword
    && row.location == location
    && OutcomeOfCells(row.rank, row.foundUrl) == Some(RankOutcome(websiteUrl, response))
  }

  lemma RowForRecords(keyword: string, location: string, websiteUrl: string, response: Response)
    ensures RowRecords(RowFor(keyword, location, websiteUrl, response), keyword, location, websiteUrl, response)
  {
    CellsRecordOutcome(RankOutcome(websiteUrl, response));
  }

  lemma RowsRecordGrows(websiteUrl: string, location: string, keywords: seq<string>,
                        responses: seq<Response>, rows: seq<Row>, row: Row)
    requires RowsRecord(websiteUrl, location, keywords, responses, rows)
    requires |rows| < |keywords| && |rows| < |responses|
    requires row == RowFor(keywords[|rows|], location, websiteUrl, responses[|rows|])
    ensures RowsRecord(websiteUrl, location, keywords, responses, rows + [row])
  {
    RowForRecords(keywords[|rows|], location, websiteUrl, responses[|rows|]);
    var next := rows + [row];
    assert forall j :: 0 <= j < |rows| ==> next[j] == rows[j];
  }

  /** Why the check refused to start. */
  datatype Rejection = MissingApiKey | MissingWebsite | MissingKeywords

  /**
   * The button handler: an empty API key, then an empty URL, then keyword text that is
   * all whitespace is refused, in that order; otherwise the keywords are parsed (there
   * is at least one) and each gets its row.
   */
  method CheckRankings(apiKey: string, websiteUrl: string, keywordsText: string, location: string,
                       responses: seq<Response>)
    returns (result: Result<seq<Row>, Rejection>)
    requires |responses| == |ParseKeywords(keywordsText)|
    ensures result == Failure(MissingApiKey) <==> apiKey == []
    ensures result == Failure(MissingWebsite) <==> apiKey != [] && websiteUrl == []
    ensures result == Failure(MissingKeywords) <==> apiKey != [] && websiteUrl != [] && AllSpace(keywordsText)
    ensures result.Success? ==>
              var keywords := ParseKeywords(keywordsText);
              && 0 < |keywords| == |result.value|
              && forall i :: 0 <= i < |keywords| ==>
                   && result.value[i].keyword == keywords[i]
                   && result.value[i].location == location
                   && OutcomeOfCells(result.value[i].rank, result.value[i].foundUrl)
                      == Some(RankOutcome(websiteUrl, responses[i]))
  {
    if apiKey == [] {
      result := Failure(MissingApiKey);
    } else if websiteUrl == [] {
      result := Failure(MissingWebsite);
    } else if Strip(keywordsText) == [] {
      result := Failure(MissingKeywords);
    } else {
      var keywords := ParseKeywords(keywordsText);
      NonBlankTextHasKeyword(keywordsText);
      var rows := CheckKeywords(websiteUrl, location, keywords, responses);
      result := Success(rows);
    }
  }

  const TopThreeStyle: string := "background-color: #d4edda; color: green"
  const TopTenStyle: string := "background-color: #fff3cd; color: orange"
  const NotRankedStyle: string := "color: red"
  const NoStyle: string := ""

  /**
   * `highlight_rank`: green for an integer rank of at most 3, orange for 4 to 10, red
   * for exactly the "Not in Top 100" label, and no style for every other value.
   */
  function Highlight(val: RankCell): (style: string)
    ensures style == TopThreeStyle <==> val.Position? && val.n <= 3
    ensures style == TopTenStyle <==> val.Position? && 3 < val.n <= 10
    ensures style == NotRankedStyle <==> val == Label(NotInTop100)
    ensures style == NoStyle <==> (val.Position? && 10 < val.n) || (val.Label? && val.text != NotInTop100)
  {
    match val
    case Position(n) =>
      if n <= 3 then TopThreeStyle else if n <= 10 then TopTenStyle else NoStyle
    case Label(text) =>
      if text == NotInTop100 then NotRankedStyle else NoStyle
  }

  /**
   * The colour of a row follows from its outcome: a found rank is coloured by tier, a
   * miss is red, and API errors and exceptions are left unstyled.
   */
  lemma OutcomeStyle(o: Outcome)
    ensures o.Found? && o.position <= 3 ==> Highlight(RankCellOf(o)) == TopThreeStyle
    ensures o.Found? && 3 < o.position <= 10 ==> Highlight(RankCellOf(o)) == TopTenStyle
    ensures o.Found? && 10 < o.position ==> Highlight(RankCellOf(o)) == NoStyle
    ensures o.NotFound? ==> Highlight(RankCellOf(o)) == NotRankedStyle
    ensures o.ApiError? || o.Error? ==> Highlight(RankCellOf(o)) == NoStyle
  {
    if o.ApiError? {
      var text := ApiErrorText(o.code);
      assert text[0] != NotInTop100[0];
    }
  }
}
