# Spreadsheet price search: the search engine core

This project models the search engine of a small Streamlit application in
Dafny. The application looks up products across Google Sheets price lists,
and all of its engine lives in `main_3.py`. The model covers six parts:

- **Normalizer** (`normalizer.dfy`): `DataProcessor.normalize_text`.
  - It lower-cases the text.
  - It applies the ordered table of literal rewrites. For example, Cyrillic `х`
    becomes `x`, and `мм2` becomes `мм²` before `м2` is looked at.
  - It deletes the whitespace between a digit and `мм²`, `см²` or `м²`.

  The loop over the table is a method, `NormalizeText`. It is proved against
  the function `Normalized`.
- **Tokenizer** (`tokenizer.dfy`, `scanning.dfy`, `chars.dfy`):
  `split_preserve_sizes`.
  - It collapses `<number> <separator> <number>` to `<number>x<number>`.
  - It canonicalises free-standing `мм 2`-style units.
  - It collects the tokens that `re.findall` returns.

  Each regular expression is a hand-written scanner over the text. The scanners
  use Python's own character classes: `\w` contains `²`, so `10мм²` is one
  token. `spellings.dfy` proves that a dimension written with any of the four
  separators, and square millimetres written `мм2`, `мм^2` or `мм²` right
  after a number (with or without whitespace), give the same tokens.
  `unit_order.dfy` covers the spelling with the `2` set apart (`10 мм 2`),
  which does not (see "## Findings").
- **Matcher** (`matcher.dfy`): `match_query`. It counts the query tokens present
  in the row's tokens. Under `require_all`, a partial count becomes 0.
- **Search pass** (`search.dfy`, `ranking.dfy`): the filter and sort of
  `perform_search`.
  - A method scores every row, as the `__match_count` column does.
  - Another method keeps the rows with a positive score and orders them by
    score, highest first.
  - Both are proved against functions and predicates over the whole column.
- **Price-column picker** (`price_columns.dfy`): `extract_price_columns` and
  `sort_price_columns`.
- **Sheet ids and links** (`sheet_ids.dfy`, `links.dfy`):
  - `extract_sheet_id` is a loop over three patterns with an early return.
  - `make_url_clickable` turns a cell into an HTML anchor.

Strings are `seq<char>`. `Wrappers.Option` models `None` and `wrappers.dfy` holds
it. A table column is a sequence of row texts, and a search result is the
sequence of the indices of the rows kept, in result order.

### Behaviour of the code that the model keeps

- A query token that occurs twice in the query is counted twice
  (`sum(... for word in query_words ...)`), and `require_all` compares the
  count with `len(query_words)`. `Matcher.CountPresentConcat` states this.
- `sort_values` uses pandas' default quicksort, which is not stable, so the
  order among rows with equal scores is left open. `Ranking.RanksDetermined`
  proves that every valid result has the same score sequence.
- The price picker has no date parsing. It selects headers containing both
  `актуальн` and `цена`, falls back to headers equal to `цена`, and keeps only
  the first one (`price_columns[:1]`).

## Model

| member | source | states |
|---|---|---|
| Chars.Lower | main_3.py:86 | lower-casing one character keeps it a digit, a space or a word character exactly when it was one |
| Chars.LowerIdempotent | main_3.py:86 | lower-casing an already lower-cased character changes nothing |
| Strings.Lowered | main_3.py:86 | `str.lower` keeps the length and lower-cases every character in place |
| Strings.ReplaceAll | main_3.py:93-94 | when the text starts with the key the result starts with the replacement; otherwise the first character is kept |
| Strings.ReplaceAllChars | main_3.py:93-94 | `str.replace` brings in no character that is in neither the text nor the replacement |
| Strings.ReplaceAllAbsent | main_3.py:93-94 | replacing a key that does not occur leaves the text unchanged |
| Strings.ReplaceAllRemoves | main_3.py:93-94 | when no suffix of the value can start the key, no occurrence of the key is left after `str.replace` |
| Normalizer.ApplyRewrites | main_3.py:87-94 | the chained `text.replace(k, v)` over the table leaves a text in which no key occurs unchanged |
| Normalizer.RewriteStep | main_3.py:87-94 | each rewrite removes its own key when later rewrites cannot bring it back, and brings back none of the keys removed before it |
| Normalizer.ApplyRewritesDone | main_3.py:87-94 | after the whole table the text holds no `х`, `–`, `—`, `ё`, `м2` or `м^2` |
| Normalizer.RewritesFixed | main_3.py:87-94 | a text already free of those keys is left unchanged by the table |
| Normalizer.ApplyRewritesChars | main_3.py:87-94 | every character after the rewrites comes from the text or from a replacement value |
| Normalizer.CloseUnitGapsClosesAll | main_3.py:95 | after the substitution no whitespace is left between a digit and `мм²`, `см²` or `м²` |
| Normalizer.CloseUnitGapsKeepsAbsent | main_3.py:95 | deleting those gaps creates no occurrence of a removed key |
| Normalizer.NoGapAfterDigit | main_3.py:95 | right after a kept digit followed by whitespace no gap remains: it was closed or not followed by a unit |
| Normalizer.CloseUnitGapsNormal | main_3.py:93-95 | the gap deletion keeps the rewrites' guarantees and adds its own |
| Normalizer.CloseUnitGapsCopies | main_3.py:95 | the substitution copies every stretch of text at which no digit-whitespace-unit gap starts |
| Normalizer.Normalized | main_3.py:85-96 | a normalised text holds no `х`, `–`, `—`, `ё`, `м2` or `м^2` and no whitespace between a digit and `мм²`, `см²` or `м²` |
| Normalizer.NormalizeText | main_3.py:85-96 | the loop returns `Normalized(text)`, and it holds no `х`, `–`, `—`, `ё`, `м2`, `м^2` and no digit-whitespace-unit gap |
| Normalizer.NormalizedIsLowered | main_3.py:85-96 | a normalised text is lower-case |
| Normalizer.NormalizedIdempotent | main_3.py:85-96 | normalising a normalised text changes nothing |
| Scanning.RunEnd | main_3.py:95 | a greedy run of a class (`\s+`, `\w+`, `[a-zA-Z0-9-_]+`) covers only class characters and stops before a non-class one |
| Scanning.NumberEnd | main_3.py:102 | `\d+(?:[.,]\d+)?` matches exactly when a digit stands there; the match is a number, no digit follows it, and it is the longest number starting there, so the fraction is taken whenever one follows |
| Tokenizer.DimensionAt | main_3.py:101-105 | a match is a number, a gap of one separator with whitespace around it, and a number; whenever such a dimension starts there it is found, with the same first number and gap and the longest second number |
| Tokenizer.CollapseFrom | main_3.py:101-105 | a text in which no dimension starts is kept; a text that is one dimension becomes its two numbers joined by a Latin `x` |
| Tokenizer.CollapseSkip | main_3.py:101-105 | `re.sub` copies any stretch of the text in which no dimension starts, then goes on from its end |
| Tokenizer.CollapseMatchedStep | main_3.py:101-105 | a dimension found at a position is replaced by its first number, a Latin `x` and its second number, and the substitution resumes where the match ends |
| Tokenizer.CollapseAround | main_3.py:101-105 | a dimension inside a longer text: the text before it is copied, the dimension collapsed, and the rest substituted in turn |
| Tokenizer.SquaredUnitAt | main_3.py:106-108 | the pattern `\b<stem>\s*[\^]?\s*2\b` is found exactly when it matches there, and the match found is the only one |
| Tokenizer.SquareUnitsFrom | main_3.py:106-108 | a unit pass keeps a text in which the pattern matches nowhere, and turns a text that is one match into the unit symbol |
| Tokenizer.SquareUnitsSkip | main_3.py:106-108 | a unit pass copies any stretch of the text where its pattern matches nowhere, then goes on from its end |
| Tokenizer.SquareUnitsStep | main_3.py:106-108 | a character where the pattern does not match is copied and the pass goes on after it |
| Tokenizer.SquareUnitsMatchedStep | main_3.py:106-108 | a match found at a position becomes the unit symbol, and the pass resumes where the match ends |
| Tokenizer.CanonicalUnits | main_3.py:106-108 | the three unit passes keep a text that has no `2` |
| Tokenizer.DimensionTokenEnd | main_3.py:109 | the first alternative of the token pattern matches a dimension starting with a digit, and whenever a dimension starts there it matches the longest one |
| Tokenizer.TokenEnd | main_3.py:109 | the alternatives are tried in order: the dimension when one starts there, else a unit symbol, else the maximal `\w` run; the token is empty exactly when no word character stands there |
| Tokenizer.TokensFrom | main_3.py:109 | `findall` returns only dimensions, units and word runs, none exactly when no word character is left, and first the token at the next word character |
| Tokenizer.TokensFromNext | main_3.py:109 | the tokens are the token at the next word character followed by the tokens found from where it ends |
| Tokenizer.Tokenize | main_3.py:99-109 | `split_preserve_sizes` returns only dimension pairs, unit symbols and word runs |
| Tokenizer.ApplyRewritesHasWord | main_3.py:87-94 | rewrites that trade word characters for word characters keep a word character present or absent |
| Tokenizer.CloseUnitGapsHasWord | main_3.py:95 | deleting gaps keeps a word character present or absent |
| Tokenizer.CollapseHasWord | main_3.py:101-105 | collapsing dimensions keeps a word character present or absent |
| Tokenizer.SquareUnitsHasWord | main_3.py:106-108 | canonicalising a unit keeps a word character present or absent |
| Tokenizer.NormalizedHasWord | main_3.py:85-96 | a normalised text has a word character exactly when the input does |
| Tokenizer.CanonicalUnitsHasWord | main_3.py:106-108 | the three unit passes keep a word character present or absent |
| Tokenizer.TokenizeEmpty | main_3.py:99-109 | `split_preserve_sizes` returns `[]` exactly when the text has no word character, so also for empty or whitespace-only text |
| Spellings.SquareMillimetreNormalized | main_3.py:85-96 | `<digits><whitespace><u>` normalises to `<digits>мм²` for `u` in `мм2`, `мм^2`, `мм²` |
| Spellings.SquareMillimetreSpelling | main_3.py:85-109 | each of those spellings tokenises to the single token `<digits>мм²` |
| Spellings.SquareMillimetreExamples | main_3.py:85-109 | `10мм2`, `10 мм^2` and `10 мм²` all give `["10мм²"]` |
| Spellings.DimensionSpelling | main_3.py:85-109 | `<digits><ws><separator><ws><digits>`, with the separator `x`, `х`, `×` or `*`, gives the single token `<digits>x<digits>` |
| Spellings.DimensionExamples | main_3.py:85-109 | `120 x 60`, `120×60`, `120*60` and `120 х 60` all give `["120x60"]` |
| UnitOrder.FreeStandingUnit | main_3.py:106 | on its own, `мм 2` or `мм ^2` (any whitespace around the caret) becomes `мм²` |
| UnitOrder.SpacedSpelling | main_3.py:85-109 | as written, `<digits><whitespace>мм<whitespace>2` gives the two tokens `<digits>` and `мм²` |
| UnitOrder.SpacedSpellingDiffers | main_3.py:85-109 | as written, that spelling gives other tokens than `<digits><whitespace>мм²` |
| UnitOrder.SpacedExample | main_3.py:85-109 | `10 мм 2` gives `["10", "мм²"]` while `10 мм²` gives `["10мм²"]` |
| UnitOrder.TokenizeUnitsClosed | main_3.py:95-109 | with the gap deletion repeated after the unit pass, the tokens are still dimensions, units and word runs |
| UnitOrder.UnitsClosedSpelling | main_3.py:85-109 | with that repetition, `мм2`, `мм^2` and `мм²` after a number still give the single token `<digits>мм²` |
| UnitOrder.UnitsClosedSpaced | main_3.py:85-109 | with that repetition, `<digits><whitespace>мм<whitespace>2` gives the single token `<digits>мм²` |
| UnitOrder.UnitsClosedAgree | main_3.py:85-109 | with that repetition, the spaced and the tight spellings give the same tokens |
| Matcher.CountPresent | main_3.py:114 | the count is at most the query length; it equals the length exactly when every query token is in the row, and is 0 exactly when none is |
| Matcher.CountPresentIsIndexCount | main_3.py:114 | the count is the number of query positions whose token the row holds |
| Matcher.CountPresentConcat | main_3.py:114 | counts add over concatenated queries, so a repeated query token counts each time |
| Matcher.CountPresentQueryOrder | main_3.py:114 | reordering the query does not change the count |
| Matcher.CountPresentRowSet | main_3.py:114 | the count depends on the row only through its set of tokens |
| Matcher.MatchQuery | main_3.py:112-115 | the result is in `0..len(query)`; under `require_all` it is 0 or `len(query)`, `len(query)` exactly when every query token is among the row's tokens; otherwise it is the raw count |
| Matcher.MatchQueryRowSet | main_3.py:112-115 | row texts with the same token set score the same |
| Ranking.InsertByScore | main_3.py:364 | inserting a row into a descending list is a permutation of the list plus that row |
| Ranking.InsertByScoreDescending | main_3.py:364 | insertion keeps the list descending by score |
| Ranking.SortByScore | main_3.py:364 | the sort is a permutation of its input and is descending by score |
| Ranking.DescendingUnique | main_3.py:364 | two non-increasing orderings of one multiset of scores are equal |
| Ranking.RankPositive | main_3.py:363-364 | the result holds each row with a positive score exactly once, no other row, highest score first |
| Ranking.RanksMembers | main_3.py:363 | a row is in the result exactly when its score is positive; with no positive score the result is empty |
| Ranking.RanksDetermined | main_3.py:363-364 | any two valid results have the same length and the same score at each position |
| Search.ScoreRows | main_3.py:359-361 | the loop computes the score column of the whole column |
| Search.ScoresAt | main_3.py:359-361 | row `k` of the score column is `match_query` of row `k` |
| Search.PerformSearch | main_3.py:344-369 | no search for an empty query or missing data; otherwise the result ranks the rows by `match_query` with `require_all = exact_match and not partial_match` |
| Search.SearchRequireAll | main_3.py:357-363 | under `require_all` a row is kept exactly when it holds every query token; an empty token list keeps no row |
| Search.SearchScoresDetermined | main_3.py:363-364 | any two valid results agree, position by position, on the rows' match counts |
| PriceColumns.Select | main_3.py:119 | the comprehension keeps the matching columns with their multiplicities, in their original order |
| PriceColumns.ExtractPriceColumns | main_3.py:117-122 | the current-price headers when there are any, otherwise the plain `цена` headers, in column order |
| PriceColumns.SortPriceColumns | main_3.py:125-126 | at most one column is kept: the first, or none for an empty list |
| PriceColumns.SelectFirst | main_3.py:119 | the first selected column is the first column that is kept |
| PriceColumns.ChosenCurrentPrice | main_3.py:117-126 | the chosen column is the first current-price header |
| PriceColumns.ChosenPlainPrice | main_3.py:117-126 | without a current-price header, the chosen column is the first `цена` header |
| PriceColumns.NoPriceColumn | main_3.py:117-126 | no column is chosen exactly when no header is a price header |
| SheetIds.FindAfter | main_3.py:57-58 | the capture is a non-empty id after the marker in the text; when a marker followed by an id character stands at `i` and none before it, the capture is the whole run of id characters after that marker |
| SheetIds.FindAfterNone | main_3.py:57-58 | the search fails exactly when no marker is followed by an id character |
| SheetIds.FindAfterFinds | main_3.py:62 | a marker followed by an id character makes `re.search` succeed |
| SheetIds.MatchWhole | main_3.py:59 | `^(...)$` matches exactly when the text is an id, optionally followed by one final newline, and the capture is the whole leading run of id characters |
| SheetIds.Search | main_3.py:62-64 | `re.search(pattern, url).group(1)` is an id: after a marker, the run after the leftmost marker followed by an id character; for the whole text, its leading run |
| SheetIds.FirstMatch | main_3.py:61-65 | the result is the capture of the first pattern that matches, an id; there is none exactly when no pattern matches |
| SheetIds.ExtractSheetId | main_3.py:55-65 | the loop returns the first pattern's capture, a non-empty `[a-zA-Z0-9-_]` string, or None when no pattern matches |
| SheetIds.BareId | main_3.py:55-65 | a bare id is returned unchanged |
| SheetIds.UrlRoundTrip | main_3.py:293 | the id is read back from the link `https://docs.google.com/spreadsheets/d/<id>` |
| SheetIds.SecondPatternSubsumed | main_3.py:56-58 | whenever the second pattern matches, the first already does |
| Strings.Strip | main_3.py:147-148 | `strip()` keeps a slice of the text with only whitespace cut off around it, leaves no whitespace at either end, and is empty exactly when the text is all whitespace |
| Strings.StripPadded | main_3.py:147-148 | whitespace added around a text does not change what `strip()` keeps |
| Links.Target | main_3.py:149-150 | the target always has a scheme; a URL with one is kept and any other gets `http://` |
| Links.TargetIdempotent | main_3.py:149-150 | adding the scheme twice adds it once |
| Links.MakeUrlClickable | main_3.py:145-151 | a missing or blank cell gives `""`; otherwise the stripped URL with a scheme becomes the anchor's target and text |
| Links.Anchor | main_3.py:151 | the anchor is `<a href="`, the target, `" target="_blank">`, the target again and `</a>` |
| Links.BlankCell | main_3.py:146 | a whitespace-only cell renders as the empty string |
| Links.AnchorInjective | main_3.py:151 | the anchor determines its target |
| Links.SurroundingSpaceIgnored | main_3.py:145-151 | whitespace around the cell text does not change the anchor |

## Left out

- The Streamlit interface is not modelled: session state, the password check, secrets, pages and widgets are UI and configuration.
- The gspread and oauth client, `openall`, `open_by_key` and `get_all_values` are not modelled; they are network calls into foreign libraries. A sheet id is a parameter of `SheetIds.UrlRoundTrip`.
- The `ThreadPoolExecutor` worksheet loading is not modelled; its point is concurrency.
- The Excel and CSV export is not modelled; it is file serialisation done by libraries.
- `str(text)` coercion of non-string cells is not modelled: rows, queries and headers are strings, and `Links.Cell` stands for a value that `pd.isna` reports missing.
- `str.lower` is modelled only for ASCII, Latin-1 and basic Cyrillic (`Chars.Lower`). `\d` is modelled as the ASCII digits. `\w` and `\s` are modelled for the characters listed in `chars.dfy`.
- Search.PerformSearch: the order among rows with equal scores is left open, because `sort_values` uses a sort that is not stable.
- Search.PerformSearch: the result is the list of kept row indices; copying the frame and dropping the `__match_count` column are not modelled.
- Search.PerformSearch: the `data_loaded` and `combined_df is None` guards are merged into one `Option` for the column. Storing the results in session state and `st.rerun()` are not modelled.
- PriceColumns.ExtractPriceColumns: a header list is taken directly, where the source reads `df.columns` of a frame.
- CloseUnitGaps: its own contract only bounds the length; what it does is stated by `CloseUnitGapsCopies`, `CloseUnitGapsClosesAll`, `NoGapAfterDigit` and `CloseUnitGapsKeepsAbsent`.
- CollapseFrom: its own contract states only the two whole-text cases; the general substitution, a copied stretch and a collapsed match at a time, is stated by `CollapseSkip`, `CollapseMatchedStep` and `CollapseAround`.
- SquareUnitsFrom: its own contract states only the two whole-text cases; the general substitution is stated by `SquareUnitsSkip`, `SquareUnitsStep` and `SquareUnitsMatchedStep`.
- Scores: its own contract only fixes the length, to keep the per-row `match_query` terms out of quantified contracts; `ScoresAt` states each entry.

## Findings

| source | as written | input that shows it | evidently intended | confidence | as-written member | corrected member |
|---|---|---|---|---|---|---|
| main_3.py:95-108 | the gap between a number and a unit is deleted at line 95, before the unit pass at line 106 makes `мм²` out of a free-standing `мм 2`, so that unit stays apart from its number | `10 мм 2` gives `["10", "мм²"]`, while `10 мм²`, `10мм2` and `10 мм^2` give `["10мм²"]` | every spelling of a number of square millimetres gives the same tokens | medium, not executed | UnitOrder.SpacedSpellingDiffers | UnitOrder.UnitsClosedAgree |

The corrected tokeniser, `UnitOrder.TokenizeUnitsClosed`, deletes the
number-unit gaps once more after the unit pass. `Matcher` and `Search` keep
the tokeniser as written, because they model what the program does.
