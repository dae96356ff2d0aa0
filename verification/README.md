# Scandinavian battle results and the tab-line reformatter, modelled in Dafny

The repository holds two small Python scripts.

`battle_win_tally_scandinavia.py` collects battles from Wikipedia. For each configured
country (Sweden, Norway, Denmark) and each of its categories, it reads the category's
member titles page by page. A page may carry a `continue` cursor. For every battle it then
fetches the page's wikitext and picks the `result` of the first infobox that has one. It
classifies that text as `win`, `loss`, `draw`, `other` or `unknown` and appends one record
holding the battle, the country, the result and the page address. Finally it counts the wins
per country.

`reformatertext.py` turns every line `first<TAB>second` of a text file into
`{ image: '<second>', answer: '<first lower-cased>' },` and drops every other line.

The model keeps the scripts' logic and abstracts away the network and the parsing library:

| module | file | models |
|---|---|---|
| `Wrappers` | `wrappers.dfy` | `None` (`Option`) and raised exceptions (`Result`) |
| `Text` | `text.dfy` | the Python string built-ins used: `lower`, `strip`, `split`, `in`, `replace` |
| `Classifier` | `classifier.dfy` | `normalize_result` |
| `Infobox` | `infobox.dfy` | `parse_infobox_result`, over the templates the wikitext parser yields |
| `Crawler` | `crawler.dfy` | `get_category_members`, over the sequence of responses to its page requests |
| `Pipeline` | `pipeline.dfy` | `main`: the record loops, the per-title failure handling, the win count |
| `Reformat` | `reformat.dfy` | `reformatertext.py`: the per-line transform and the loop over lines |

External calls become parameters:

- A category's page responses are `crawl(category)`. Each response is a page of titles with
  an optional cursor, or a failed request.
- A battle's page is `fetch(title)`. It is either the list of templates, each a name and a
  map of parameters, or a failure.
- The country configuration is a parameter of the run; the script's own configuration is
  the constant `Pipeline.CountryCategories`.
- `main`'s nested loops are the method `Pipeline.Run`, which appends to a local `records`
  sequence as the script does. It is proved equal to the specification function
  `Pipeline.RunSpec`, and the lemmas state that function's properties.

Behaviours of the code that the model keeps as written:

- **Fall-through to later infoboxes.** An infobox without `result` does not stop the
  search; the first infobox that has one decides (battle_win_tally_scandinavia.py:45-49,
  `Infobox.SkipsInfoboxWithoutResult`).
- **Any victory counts as a win.** Every text containing `victory`, `win` or `triumph` is a
  win, whichever side won (line 56, `Classifier.RussianVictoryIsWin`).
- **A crawl failure ends the run.** `get_category_members` is called outside the `try`
  (line 70), so a failed page request escapes `main` and neither table is written
  (`Pipeline.Run` returns `Failure`).
- **Countries without wins are left out.** The `groupby` of line 97 only sees winning rows,
  so a country without a win has no row (`Pipeline.WinCounts`).
- **An empty record table has no win table.** With no records, the data frame of line 88
  has no `result` column; line 97 raises, the error is caught at line 102 and no win table
  is written (`Pipeline.WinTable` is `None`).

## Model

| member | source | states |
|---|---|---|
| `Text.Lower` | battle_win_tally_scandinavia.py:55 | the result has the input's length; each character is the input's character with ASCII capitals lower-cased |
| `Text.LowerIdempotent` | battle_win_tally_scandinavia.py:55 | lower-casing an already lower-cased text changes nothing |
| `Text.Strip` | reformatertext.py:3 | the stripped text neither starts nor ends with whitespace |
| `Text.StripSurrounded` | reformatertext.py:3 | the stripped text is a piece of the input with only whitespace before and after it |
| `Text.StripUnique` | reformatertext.py:3 | any piece with non-space ends and only whitespace around it is the stripped text |
| `Text.TrimStartDropsSpace` | battle_win_tally_scandinavia.py:46 | stripping the start removes only leading whitespace and keeps the rest of the text |
| `Text.TrimEndDropsSpace` | battle_win_tally_scandinavia.py:49 | stripping the end removes only trailing whitespace and keeps the start of the text |
| `Text.Split` | reformatertext.py:3 | there is at least one field; no field contains the separator; joining the fields with it gives back the text |
| `Text.SplitJoin` | reformatertext.py:3 | splitting the join of separator-free fields gives back exactly those fields |
| `Text.Contains` | battle_win_tally_scandinavia.py:47 | true exactly when the substring occurs at some position of the text |
| `Text.AbsentChar` | battle_win_tally_scandinavia.py:56 | a substring holding a character the text lacks does not occur in it |
| `Text.ReplaceChar` | battle_win_tally_scandinavia.py:85 | same length; every occurrence of the old character becomes the new one, and nothing else changes |
| `Classifier.NormalizeResult` | battle_win_tally_scandinavia.py:52-62 | `Unknown` exactly for `None` and the empty text; its other outcomes are stated by the lemmas `WinHasPriority`, `LossOnlyWithoutWin`, `DrawOnlyWithoutWinOrLoss`, `OtherWithoutKeywords` and `CaseInsensitive` |
| `Classifier.UnknownIffNoText` | battle_win_tally_scandinavia.py:52-62 | `Unknown` exactly for `None` and the empty text; any other text gets win, loss, draw or other |
| `Classifier.WinHasPriority` | battle_win_tally_scandinavia.py:55-57 | a text is a win exactly when its lower-cased form contains `victory`, `win` or `triumph`, whatever else it contains |
| `Classifier.LossOnlyWithoutWin` | battle_win_tally_scandinavia.py:58-59 | a loss exactly when there is no win keyword and `defeat`, `loss` or `retreat` occurs |
| `Classifier.DrawOnlyWithoutWinOrLoss` | battle_win_tally_scandinavia.py:60-61 | a draw exactly when there is no win or loss keyword and `draw` or `stalemate` occurs |
| `Classifier.OtherWithoutKeywords` | battle_win_tally_scandinavia.py:56-62 | `Other` exactly when the text contains no keyword at all |
| `Classifier.CaseInsensitive` | battle_win_tally_scandinavia.py:55 | a text and its lower-cased form are classified alike |
| `Classifier.WinKeywordAt` | battle_win_tally_scandinavia.py:55-57 | a win keyword in any letter case, anywhere in a text, makes it a win |
| `Classifier.CapitalisedVictoryIsWin` | battle_win_tally_scandinavia.py:55-57 | "Victory" is a win, as an instance of `WinKeywordAt` |
| `Classifier.VictoryBeforeDefeat` | battle_win_tally_scandinavia.py:56-58 | "decisive victory, enemy routed in defeat" is a win, not a loss |
| `Classifier.SubstringNotWord` | battle_win_tally_scandinavia.py:56 | "Edwin defeated" is a win, because `win` is matched as a substring |
| `Classifier.RussianVictoryIsWin` | battle_win_tally_scandinavia.py:56-57 | "Russian victory" is a win, whoever the victor is |
| `Classifier.NoWinWord` | battle_win_tally_scandinavia.py:56 | every win keyword contains an `i`, so a text without one is not a win; a helper for `DrawExample` and `TruceIsOther`, not a promise of the script |
| `Classifier.NoLossWord` | battle_win_tally_scandinavia.py:58 | every loss keyword contains an `l`, or both an `a` and an `e`; a helper for `DrawExample` and `TruceIsOther`, not a promise of the script |
| `Classifier.NoDrawWord` | battle_win_tally_scandinavia.py:60 | every draw keyword contains an `a`; a helper for `DrawExample` and `TruceIsOther`, not a promise of the script |
| `Classifier.DrawExample` | battle_win_tally_scandinavia.py:60-61 | "Draw", in any letter case, is a draw |
| `Classifier.TruceIsOther` | battle_win_tally_scandinavia.py:56-62 | "Truce", in any letter case, mentions no keyword and is `Other` |
| `Infobox.IsInfobox` | battle_win_tally_scandinavia.py:46-47 | a template is an infobox when its lower-cased, stripped name contains `infobox`; `InfoboxNameLength` bounds the name's length and `NamedInfobox` gives one family of names that qualify |
| `Infobox.InfoboxNameLength` | battle_win_tally_scandinavia.py:46-47 | a template that is an infobox has a name at least as long as `infobox` |
| `Infobox.FirstInfoboxResult` | battle_win_tally_scandinavia.py:45-50 | a result is the stripped `result` value of some infobox of the page; `FirstInfoboxResultIsFirst` and `FirstInfoboxResultNone` say which one, and when there is none |
| `Infobox.ParseInfoboxResult` | battle_win_tally_scandinavia.py:45-50 | the loop with its early return computes the selection `FirstInfoboxResult` |
| `Infobox.FirstInfoboxResultIsFirst` | battle_win_tally_scandinavia.py:45-49 | the result is the stripped `result` value of the first template that is an infobox and has `result`; earlier templates are skipped |
| `Infobox.FirstInfoboxResultNone` | battle_win_tally_scandinavia.py:45-50 | the result is `None` exactly when no template is an infobox with a `result` parameter |
| `Infobox.SkipsInfoboxWithoutResult` | battle_win_tally_scandinavia.py:47-48 | an infobox without `result` does not end the search; the later templates decide |
| `Infobox.FirstInfoboxWins` | battle_win_tally_scandinavia.py:48-49 | an infobox with `result` at the front decides the result, whatever follows |
| `Infobox.NoTemplatesNoResult` | battle_win_tally_scandinavia.py:50 | a page without templates has no result |
| `Infobox.NamedInfobox` | battle_win_tally_scandinavia.py:46-47 | a template whose name starts with "Infobox" is an infobox, whatever follows it, trailing whitespace and line breaks included |
| `Crawler.CategoryMembers` | battle_win_tally_scandinavia.py:20-34 | a failed crawl names its own category; its titles are stated by `CollectsUpToLastPage` and `SucceedsOnlyAtLastPage`, its error by `FailureNamesRequest` |
| `Crawler.CollectsUpToLastPage` | battle_win_tally_scandinavia.py:31-34 | when page k is the first without a cursor, the crawl returns the titles of pages 0..k in page order, as many as those pages list; later pages are ignored |
| `Crawler.SucceedsOnlyAtLastPage` | battle_win_tally_scandinavia.py:32-34 | a crawl succeeds only if some page without a cursor ends it |
| `Crawler.FailureNamesRequest` | battle_win_tally_scandinavia.py:28-30 | a failed crawl reports its category and the cursor of the first failed or missing page request |
| `Crawler.AllTitlesLength` | battle_win_tally_scandinavia.py:31-33 | the concatenated titles number the sum of the page sizes |
| `Pipeline.SourceUrl` | battle_win_tally_scandinavia.py:85 | the address is the fixed prefix followed by the title with every space made `_`; it contains no space |
| `Pipeline.TitleRecord` | battle_win_tally_scandinavia.py:74-86 | the record holds the battle's title, its country and its address; a failed fetch is recorded as `Unknown` |
| `Pipeline.VisitsOfEach` | battle_win_tally_scandinavia.py:72 | each title of a category becomes one visit with its country, in title order |
| `Pipeline.RecordsForEach` | battle_win_tally_scandinavia.py:72-86 | exactly one record per visited title, in visiting order |
| `Pipeline.OneRecordPerBattle` | battle_win_tally_scandinavia.py:67-86 | a run's records match the visited titles one to one and in order; each holds its title, country and address; a failed fetch gives `Unknown` and the record is kept |
| `Pipeline.WinCounts` | battle_win_tally_scandinavia.py:97 | a country appears exactly when it has a winning record, with its number of winning records |
| `Pipeline.WinTable` | battle_win_tally_scandinavia.py:96-103 | there is no win table exactly when there are no records; otherwise it lists exactly the countries with a winning record |
| `Pipeline.GroupSucceedsIff` | battle_win_tally_scandinavia.py:68-70 | a country's categories crawl successfully exactly when each of them does |
| `Pipeline.CrawlSucceedsIff` | battle_win_tally_scandinavia.py:67-70 | a run gets past crawling exactly when every category of every country crawls successfully |
| `Pipeline.GroupFailurePersists` | battle_win_tally_scandinavia.py:68-70 | once a category fails, its country's crawl fails with that error |
| `Pipeline.CrawlFailurePersists` | battle_win_tally_scandinavia.py:67-70 | once a country's crawl fails, the whole run fails with that error |
| `Pipeline.CategoryFailureEndsRun` | battle_win_tally_scandinavia.py:70 | a failing category ends the run with its own crawl error |
| `Pipeline.GroupVisitsCountry` | battle_win_tally_scandinavia.py:67-72 | every title crawled for a country is visited under that country |
| `Pipeline.CrawlAllCountries` | battle_win_tally_scandinavia.py:67-72 | every visit of a run belongs to one of the configured countries |
| `Pipeline.RecordCountriesConfigured` | battle_win_tally_scandinavia.py:67-86 | every record of a successful run carries one of the configured countries |
| `Pipeline.ScandinavianRecordsOnly` | battle_win_tally_scandinavia.py:8-18 | with the script's configuration, every record is of Sweden, Norway or Denmark |
| `Pipeline.RunSpec` | battle_win_tally_scandinavia.py:66-103 | `main` completes exactly when crawling does, with one record per visited title and a win table exactly when there are records; `CrawlSucceedsIff`, `CategoryFailureEndsRun`, `OneRecordPerBattle` and `RecordCountriesConfigured` state the rest |
| `Pipeline.ProcessTitle` | battle_win_tally_scandinavia.py:74-86 | the `try` block yields the record `TitleRecord`: the classified infobox result, or `Unknown` when the fetch fails |
| `Pipeline.Run` | battle_win_tally_scandinavia.py:66-97 | the nested loops that append to `records` compute `RunSpec`: a crawl failure, or the records of all visits with their win table |
| `Reformat.ReformatLine` | reformatertext.py:3-6 | an output line is the entry of two tab-free fields that make up the stripped line, the second as image and the first lower-cased as answer; `OutputIffTwoFields` gives the converse |
| `Reformat.TwoFieldsFormatted` | reformatertext.py:3-6 | a stripped line `first<TAB>second` with tab-free fields gives the image `second` unchanged and the answer `first` lower-cased |
| `Reformat.OutputIffTwoFields` | reformatertext.py:3-4 | a line gives output exactly when, once stripped, it is two tab-free fields joined by one tab |
| `Reformat.FieldsAreTrimmed` | reformatertext.py:3 | in a line that gives output, both fields are non-empty, the first does not start and the second does not end with whitespace, so a line break never reaches a field |
| `Reformat.Emitted` | reformatertext.py:2-6 | the loop emits at most one line per input line |
| `Reformat.EmittedAppend` | reformatertext.py:2-6 | the output of two stretches of lines is the output of the first followed by that of the second, so input order is kept |
| `Reformat.ReformatLines` | reformatertext.py:2-6 | the loop over lines computes `Emitted` |

## Left out

- HTTP requests, JSON decoding and the request parameters (`cmlimit` 500, the cursor echoed
  as `cmcontinue`) are left out. A category's pages are the sequence of its responses, and a
  battle's page is a fetch result that may fail. The `if cmcontinue:` test, which skips an
  empty cursor, has no counterpart, because the model does not build requests.
- Wikitext parsing by `mwparserfromhell` is left out. Its output is a sequence of templates,
  each a name and a map of parameters.
- The CSV files and `pandas` are left out. Only the content of the two tables is modelled. The
  row order of the win table is not: `groupby` sorts it by country, and the model uses a
  map. A failure while writing the raw table is not modelled either.
- `print`, `os.getcwd` and reading `output.txt` are left out. The reformatter's input is the
  sequence of lines as `for line in file` yields them, with their line breaks. Its output
  is the sequence of printed lines.
- A battle's page and a category's responses are functions of the title and the category,
  so a title that is visited twice gets the same fetch outcome both times. The script
  fetches it again, and the second fetch can fail where the first did not.
- `Crawler.CrawlError` is the model's own record of the failed request, its category and
  cursor. The script raises whatever the request, the JSON decoding or the `KeyError` of
  lines 30-31 raised, and that exception carries neither. `Crawler.CategoryMembers` and
  `Crawler.FailureNamesRequest` state the error's contents only in this sense.
- A sequence of responses that runs out while a cursor is pending counts as a failed
  request (`Crawler.CategoryMembers`). The script would send another request.
- A template's parameters are a map from the names that `has` and `get` compare to the
  value the parser reports for that name. Which value a repeated name keeps is the
  parser's choice and is not modelled.
- Text.Lower: lower-cases ASCII letters only, while Python's `str.lower` also lower-cases
  other scripts. Its contract is therefore weaker than the source's for non-ASCII text.
- Duplicate titles, within a country or across countries, are not removed. Each one is
  recorded and counted again, as in the source.
