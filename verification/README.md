# ranking-checker, modelled in Dafny

ranking-checker is a small Streamlit tool that checks where a website ranks in
Google for a list of keywords at one location, using the Serper search API, and a
one-off script that turns a world-cities CSV table into the list of location
strings the tool offers. This project models the logic of both and proves what it
promises:

- `Rank` (app.py, lines 102-124): the target website is reduced to a bare domain
  (lower-cased, every `https://`, `http://` and `www.` removed, cut at the first
  `/`); the organic results are scanned in API order and the first one whose
  lower-cased link contains that domain gives the rank and the found URL; a non-200
  status is an API error; an exception (including the `KeyError` of a result
  without `link` or `position`) is an error carrying its message.
- `Keywords` (app.py, line 74): the keyword text is split on newlines, each line
  stripped, blank lines dropped.
- `Report` (app.py, lines 64-150): the three input checks in order, one row per
  keyword with its keyword, location, Rank cell and Found URL cell, and the
  colouring of the Rank column (`highlight_rank`).
- `Locations` (convert_locations.py, lines 15-29): each table row becomes
  `"City, State, Country"`, or `"City, Country"` when the subcountry cell is empty.
- `Strings` and `Decimal`: the Python string operations the code relies on
  (`strip`, ASCII `lower`, `replace`, `split` and `in`) and `str(int)`, each with
  the laws the proofs use, plus `join`, which the code does not call but which
  gives the reference reading of `replace` and the inverse of `split`. `Wrappers` holds `Option` and `Result`.

Behaviour worth knowing, as the code has it:

- The canonical target is computed from the lower-cased URL and the three
  replacements remove every occurrence, not only a leading one. Canonicalising
  twice can differ from canonicalising once (`Rank.CanonicalNotIdempotent`:
  `wwww.ww.` gives `www.`, which gives the empty string); `Rank.CanonicalFixpoint`
  gives the texts that are their own target.
- A URL whose target is empty, such as `https://`, `http://` or `www.` alone,
  matches every link, so the first result wins (`Rank.EmptyTargetTakesFirstResult`,
  `Rank.BareSchemesHaveEmptyTarget`).
- The search request, the JSON decoding and the pause between requests are not
  modelled: each keyword's HTTP outcome is an input (`Rank.Response`), one per
  keyword, in keyword order.

## Model

| member | source | states |
|---|---|---|
| Strings.Strip | app.py:74 | `str.strip()`: the result has no whitespace at either end, is empty exactly when the text is all whitespace, and leaves an already-stripped text unchanged |
| Strings.StripIsMiddle | convert_locations.py:19-20 | the stripped text is the contiguous middle of the input, with only whitespace cut from both ends |
| Strings.Lower | app.py:115 | `str.lower()` on ASCII: same length, no upper-case letter left, each character lowered in place, a text without upper-case letters unchanged |
| Strings.ContainsIff | app.py:115 | the `in` test holds exactly when the needle occurs at some index of the text |
| Strings.ReplaceIsSplitJoin | app.py:115 | `s.replace(pat, rep)` equals `rep.join(s.split(pat))`, the independent reading of replace-all |
| Strings.SplitThenJoin | app.py:74 | joining the pieces of a split with the same separator gives back the text |
| Strings.JoinThenSplit | app.py:74 | splitting a join of a non-empty list of pieces on a one-character separator that none of them contains gives back the pieces |
| Strings.SplitAfterPiece | app.py:115 | `split('/')` of `p + '/' + t` with `p` free of `/` is `p` followed by the pieces of `t` |
| Decimal.DecimalRoundTrip | app.py:120 | the decimal text of a status code is a well-formed decimal that reads back as the same code |
| Rank.CanonicalTarget | app.py:115 | the target is lower-case and holds no `/` |
| Rank.CanonicalFixpoint | app.py:115 | a lower-case text with no scheme, no `www.` and no `/` is its own target |
| Rank.CanonicalNotIdempotent | app.py:115 | canonicalising `wwww.ww.` gives `www.`, and canonicalising that gives the empty string |
| Rank.CanonicalOfFullUrl | app.py:115 | `https://www.<domain>/<path>` has target `<domain>` when both parts are lower-case, neither holds a `:`, the domain holds no `/`, and no `www.` occurs after the leading one |
| Rank.Inspect | app.py:113-118 | one result: skipped exactly when it has a link that does not match; a match with a position stops with that position and link; a missing `link` stops with Error `'link'`, a match without `position` with Error `'position'` |
| Rank.ScanOrganic | app.py:112-118 | NotFound exactly when every result is skipped; otherwise the outcome of the first result that stops the scan; a Found outcome is a result of the list whose lower-cased link contains the target |
| Rank.ScanBreaks | app.py:113-118 | the `break`: results after the one that stopped the scan never change the outcome, and an all-skipped prefix leaves it to the rest |
| Rank.ScanLoop | app.py:102-118 | the `for`/`break` loop starting from "Not in Top 100" computes the same outcome as the recursive scan |
| Rank.FirstMatchWins | app.py:113-118 | for results carrying both keys, the rank is that of the first result in list order whose link matches, NotFound exactly when none does |
| Rank.RankOutcome | app.py:102-124 | an exception gives Error with its message; ApiError exactly for a non-200 reply, carrying the status; a 200 reply without `organic` is NotFound; for a 200 reply with `organic`, NotFound exactly when every result is passed over against the website's canonical target, otherwise the outcome of the first result that stops the scan; a Found outcome comes from a 200 reply and a listed result whose link contains the target |
| Rank.OkReplyFirstMatch | app.py:108-118 | for a 200 reply whose results carry both keys, the first result whose lower-cased link contains the website's canonical target gives the rank, and NotFound exactly when no link contains it |
| Rank.EmptyTargetTakesFirstResult | app.py:112-118 | for every URL whose target is empty, a 200 reply whose first result has both keys ranks that first result |
| Rank.BareSchemesHaveEmptyTarget | app.py:115 | `https://`, `http://` and `www.` alone each have the empty target |
| Keywords.ParseKeywords | app.py:74 | every keyword is non-empty and has no whitespace at either end; the keywords are the stripped non-blank lines in line order (CleanLines lemmas) |
| Keywords.ParseKeywordsMembership | app.py:74 | a text is a keyword of the input exactly when it is non-empty and the strip of some newline-separated line |
| Keywords.CleanLines | app.py:74 | no more keywords than lines, each non-empty and stripped |
| Keywords.CleanLinesAppend | app.py:74 | cleaning distributes over concatenation of line lists, so order is kept |
| Keywords.CleanLinesMembership | app.py:74 | a text is a keyword exactly when it is non-empty and the strip of some line |
| Keywords.NonBlankTextHasKeyword | app.py:70-74 | text that passes the non-blank check yields at least one keyword |
| Keywords.KeywordsOfJoinedLines | app.py:74 | parsing lines joined with newlines gives the cleaned lines back |
| Report.CellsRecordOutcome | app.py:102-124 | the Rank and Found URL cells determine the outcome: reading them back gives it, so distinct outcomes, including distinct status codes, give distinct rows |
| Report.CellsDetermineOutcome | app.py:102-124 | two cells read back as an outcome exactly when they are that outcome's cells: a miss only as "Not in Top 100" with URL "-", an API error only as the exact text `API Error: <code>` with URL "-", an exception only as "Error" with its message, a hit as its position and link |
| Report.CheckKeywords | app.py:85-132 | exactly one row per keyword, in order, each with its keyword, the location, and cells that read back as that keyword's own outcome, hence (by `Report.CellsDetermineOutcome`) exactly the cells the code writes for it |
| Report.CheckRankings | app.py:64-132 | an empty API key, then an empty URL, then all-whitespace keyword text is refused, each exactly in its case; otherwise there is at least one keyword and one faithful row per keyword |
| Report.Highlight | app.py:144-150 | green exactly for an integer rank of at most 3, orange exactly for 4 to 10, red exactly for "Not in Top 100", no style for everything else |
| Report.OutcomeStyle | app.py:102-150 | the colour of a row from its outcome: a found rank by tier, a miss red, API errors and exceptions unstyled |
| Locations.ConvertRows | convert_locations.py:15-29 | one entry per table row, in row order, each the formatted row |
| Locations.StripKeepsCommaOut | convert_locations.py:19-20 | stripping a field introduces no comma |
| Locations.FormatThenParse | convert_locations.py:18-29 | for fields without commas an entry reads back as its stripped city, stripped country and the subcountry, present exactly when it was |

## Left out

- The Streamlit page (inputs, progress bar, status text, table, CSV download button): user interface only.
- The HTTP request, its headers and JSON payload, and `response.json()`: the model takes each keyword's reply (status and `organic` list) or the exception as an input.
- `time.sleep(0.1)` and the progress fraction: timing and floating point, no effect on results.
- The text of `str(e)` for exceptions other than the two `KeyError`s: an opaque message carried through unchanged.
- JSON values of other types: positions are integers and links are strings in the model; a non-string link or a non-list `organic` is not modelled.
- Reading the CSV with pandas and writing `locations.json`: file I/O; an empty subcountry cell (NaN) is `None`.
- `str(row['name'])` of a non-string cell (for example a NaN city becoming `"nan"`): cells are strings in the model.
- Strings.Lower: lowers ASCII letters only; Python's full Unicode case mapping (including letters that change length) is not modelled.
- Rank.CanonicalNotIdempotent: disproves idempotence on one input only; the general fixpoint property is `Rank.CanonicalFixpoint`.
- Report.Highlight: a Python `bool` is also an `int` to `isinstance`; ranks are integers in the model, so this case does not arise.
