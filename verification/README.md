# NCAA box-score pipeline — a verified Dafny model

`Main.py` scrapes the individual-statistics box score of three NCAA baseball
games, combines the batting lines into one table, gives each player a
`playerId` by joining on the normalised player name against a player lookup,
and writes the result to a spreadsheet. This project models the logic the
script owns, with the network, HTML and spreadsheet layers reduced to plain
values:

- **Game id** (`GameId`, `game_id.dfy`): `re.search(r'contests/(\d+)/individual_stats', url).group(1)`
  as a leftmost search with a greedy digit run. A url without a match is an
  `Err`; in the script, calling `.group` on `None` raises.
- **Box-score scraping** (`BoxScore`, `box_score.dfy`): a page is its url and
  its tables, and a table is its text plus its rows of stripped cell texts.
  `ScrapeGameBoxScore` is the script's nested loop, written as a method over a
  growing `seq`, and is proved equal to the functional specification
  `ScrapePage`:
  - keep tables whose text contains `"AB"`;
  - drop each kept table's first and last row;
  - keep rows with at least 11 cells;
  - read cells 1, 4, 3, 5, 9 and 10.
- **Combining** (`Aggregate`, `aggregate.dfy`): the list comprehension over
  the urls, with failure of any url failing the run, followed by
  `pd.concat(..., ignore_index=True)`.
- **Normalisation and merge** (`Text`, `text.dfy`; `Merge`, `merge.dfy`):
  `str.lower().str.strip()` on both keys, then `pd.merge(how="left")`:
  - every stats row is kept, in order;
  - a row is repeated once per matching lookup entry, in lookup order;
  - a row is kept once, with no name and no id, when nothing matches.
  - Duplicate normalised names in the lookup fan out into several rows, as
    pandas does. The model does not take the first match.
- **Sheet payload** (`Publish`, `publish.dfy`):
  - select `Game_ID, Player, playerId, R, AB, H, HR, RBI`;
  - write the header row, then one row per merged row;
  - `Run` is the whole pipeline from fetched pages and a fetched lookup.

`Wrappers` (`wrappers.dfy`) holds the `Option` and `Result` types.

## Model

| member | source | states |
|---|---|---|
| GameId.DigitRun | Main.py:76 | the greedy `\d+` run starting at an offset: all digits, and maximal (followed by a non-digit or the end) |
| GameId.MatchAt | Main.py:76 | the computed match at one offset; `MatchAtSpec` proves it returns `id` exactly when the reference `IsMatchAt` holds |
| GameId.SearchFrom | Main.py:76 | `re.search` from an offset; `SearchFromSpec` proves it returns the group of the least matching offset, or nothing when no offset matches |
| GameId.Extract | Main.py:76 | the game id of a url; `ExtractIsLeftmostMatch` and `ExtractFailsIffNoMatch` prove it is the leftmost match's group, and an error exactly when nothing matches |
| GameId.MatchAtSpec | Main.py:76 | the pattern matches at offset p with group `id` exactly when the url reads `contests/<id>/individual_stats` there and `id` is a non-empty digit string (both directions) |
| GameId.NoMatchAtSpec | Main.py:76 | no match at p exactly when no digit string matches there |
| GameId.SearchFromSpec | Main.py:76 | the search from p fails exactly when nothing matches at or after p, and otherwise returns the group of the least matching offset |
| GameId.ExtractIsLeftmostMatch | Main.py:76 | the game id is `id` exactly when the leftmost match in the url has group `id` |
| GameId.ExtractFailsIffNoMatch | Main.py:76 | extraction is an error exactly when the pattern matches nowhere in the url |
| GameId.ExtractFromContestPath | Main.py:76 | a url starting with `contests/<id>/individual_stats` yields `id`, whatever follows |
| GameId.SkipAt | Main.py:76 | no match can start at an offset that does not begin "co" |
| GameId.SkipStretch | Main.py:76 | the search passes over a stretch free of "co" without a result |
| GameId.MatchAfter | Main.py:76 | the contest path matches at the offset where it starts, whatever precedes it |
| GameId.NcaaHostNoCo | Main.py:59-61 | "co" does not occur in the host `https://stats.ncaa.org/` |
| GameId.HostSkipped | Main.py:76 | no match starts inside a host free of "co" |
| GameId.HostThenContestPath | Main.py:76 | a url made of a host free of "co" and the contest path of `id` yields `id` |
| GameId.NcaaUrlGameId | Main.py:59-61 | every url `https://stats.ncaa.org/contests/<id>/individual_stats` with a digit id yields that id |
| GameId.PipelineGameIds | Main.py:58-62 | the script's three urls yield 5336663, 5336814 and 5336815 |
| BoxScore.BodyRows | Main.py:80 | `rows[1:-1]`: empty for at most two rows, otherwise every row but the first and last, in order |
| BoxScore.ExtractRow | Main.py:84-101 | a row yields a record exactly when it has at least 11 cells; Player, AB, R, H, HR, RBI are cells 1, 4, 3, 5, 9, 10 and Game_ID is the page's id |
| BoxScore.RowRecords | Main.py:84-101 | a row contributes its record when it has at least 11 cells and nothing otherwise; `RowsRecordsSnoc` proves appending a row appends exactly its records, which is the loop's append step |
| BoxScore.RowsRecords | Main.py:82-101 | the records of a run of rows; `RowsRecordsAppend`, `RowsRecordsCount` and `RowsRecordsProvenance` prove row order, one record per row of at least 11 cells, and that each record comes from such a row |
| BoxScore.TableRecords | Main.py:78-80 | a table whose text lacks "AB", or that has at most two rows, contributes nothing |
| BoxScore.IsBattingTable | Main.py:78 | the `'AB' in table.text` test; `TableRecords` and `NonBattingTableIgnored` prove a table failing it contributes nothing, wherever it stands |
| BoxScore.PageRecords | Main.py:77-101 | the records of a page's tables; `PageRecordsAppend`, `NonBattingTableIgnored` and `PageRecordsProvenance` prove table order, that tables without "AB" add nothing, and that each record comes from a body row of a batting table |
| BoxScore.ScrapePage | Main.py:68-103 | one page's scrape: the game id's failure, or the page's records under that id; `ScrapeGameBoxScore` computes it with the nested loops, and `PageRecordsProvenance` proves every record carries the id |
| BoxScore.ScrapeGameBoxScore | Main.py:68-103 | the nested loops compute the page's records: the game id's failure, or the records of every batting table in table then row order |
| BoxScore.RowsRecordsAppend | Main.py:82-101 | records of consecutive runs of rows come in row order, with nothing added or removed |
| BoxScore.PageRecordsAppend | Main.py:77-101 | records of consecutive runs of tables come in table order |
| BoxScore.NonBattingTableIgnored | Main.py:78 | removing a table without "AB" from anywhere in the page changes nothing |
| BoxScore.ShortRowIgnored | Main.py:84 | removing a row of fewer than 11 cells from anywhere changes nothing |
| BoxScore.RowsRecordsCount | Main.py:82-101 | a run of rows yields as many records as it has rows of at least 11 cells (no dedup) |
| BoxScore.AllPlayerRows | Main.py:82-101 | when every row is a player row, the k-th record is read from the k-th row |
| BoxScore.BattingTableRecords | Main.py:78-101 | a batting table of a header, N player rows and a totals row yields exactly N records, the k-th from the k-th player row |
| BoxScore.OnePlayerTable | Main.py:78-101 | a batting table with one player row between header and totals yields exactly that row's record |
| BoxScore.RowsRecordsProvenance | Main.py:82-101 | every record of a run of rows is read from one of its player rows |
| BoxScore.PageRecordsProvenance | Main.py:76-101 | every record of a page carries the page's game id and comes from a row strictly between the first and last row of a batting table |
| Aggregate.ScrapeAll | Main.py:106 | the comprehension succeeds exactly when every page scrapes, giving each page's records in url order; otherwise it fails with the first failing page's error |
| Aggregate.Flatten | Main.py:106 | `pd.concat`; `FlattenAppend`, `FlattenLength` and `FlattenIndex` prove game order, the total row count and the offset of every row |
| Aggregate.AllGames | Main.py:106 | the combined table, or the first failing page's error; `OnePage` proves a single url gives that page's scrape |
| Aggregate.FlattenAppend | Main.py:106 | concatenating runs of games is concatenating their records |
| Aggregate.FlattenLength | Main.py:106 | the combined table has as many rows as all games together |
| Aggregate.FlattenIndex | Main.py:106 | row k of game i sits at offset (rows of the games before i) + k |
| Aggregate.ThreeGames | Main.py:106 | three games of sizes a, b, c combine to a + b + c rows, game by game |
| Aggregate.OnePage | Main.py:106 | a run of one url is that page's scrape |
| Text.LowerChar | Main.py:135 | lower-casing maps A–Z to a–z (32 code points up) and leaves every other character alone |
| Text.Lower | Main.py:135 | `str.lower()`; `LowerIdempotent` and `LowerOfLower` prove it is idempotent and fixes strings without upper-case letters |
| Text.StripStart | Main.py:135 | drops exactly the leading whitespace |
| Text.StripEnd | Main.py:135 | drops exactly the trailing whitespace |
| Text.Strip | Main.py:135 | the result sits inside the input with only whitespace around it, and neither starts nor ends with whitespace |
| Text.Normalize | Main.py:135-136 | lower-casing then stripping; `NormalizedHasNoUpper` and `NormalizeIdempotent` prove a key has no upper-case letter and normalising it again changes nothing |
| Text.Contains | Main.py:78 | Python's `in` on strings; `ContainsIffOccurs` proves it holds exactly when the pattern occurs at some offset |
| Text.ContainsIffOccurs | Main.py:78 | `pat in s` holds exactly when `pat` occurs at some offset of `s` |
| Text.LowerIdempotent | Main.py:135 | lower-casing twice is lower-casing once |
| Text.LowerOfLower | Main.py:135 | a string without upper-case letters is unchanged by lower-casing |
| Text.StripOfStripped | Main.py:135 | a string with no whitespace at either end is unchanged by stripping |
| Text.NormalizedHasNoUpper | Main.py:135 | a normalised key has no upper-case letter |
| Text.NormalizeIdempotent | Main.py:135-136 | normalising a normalised key changes nothing |
| Text.NormalizeJaneDoe | Main.py:135-136 | "Jane Doe" normalises to "jane doe" |
| Text.StripPadded | Main.py:135 | one space on each side of a string that neither starts nor ends with whitespace is stripped away |
| Text.NormalizePaddedJaneDoe | Main.py:135-136 | " jane doe " normalises to "jane doe" |
| Text.NormalizeJohnSmith | Main.py:135-136 | "John Smith" and "john smith" both normalise to "john smith" |
| Merge.NormalizePlayers | Main.py:135 | the player column normalised row by row; the row count is unchanged, and `NormalizedPlayers` gives each row's contents |
| Merge.NormalizedPlayers | Main.py:135 | each normalised row carries the normalised player name and every other field unchanged |
| Merge.NormalizeNames | Main.py:136 | the name column is normalised entry by entry; the entry count is unchanged |
| Merge.NormalizedNames | Main.py:136 | each normalised entry has the normalised name and keeps its id |
| Merge.NormalizePlayersIdempotent | Main.py:135 | normalising the player column twice is normalising it once |
| Merge.Matches | Main.py:139-145 | the matches of a name are lookup entries carrying that name, never more than the lookup holds |
| Merge.MatchesCount | Main.py:139-145 | a name has as many matches as it has occurrences in the lookup's name column |
| Merge.MatchesHas | Main.py:139-145 | every entry carrying the name is among its matches |
| Merge.MatchesFromLookup | Main.py:139-145 | every match is an entry of the lookup |
| Merge.MatchesAppend | Main.py:139-145 | matches keep lookup order: the matches in two runs of entries are the first run's, then the second's |
| Merge.JoinRow | Main.py:139-145 | one stats row becomes one row per match, carrying the match's name and id in lookup order, or a single row with neither when nothing matches |
| Merge.Multiplicity | Main.py:139-145 | how many rows the left join makes from one stats row: its match count, or 1 when nothing matches; `LeftJoinMultiplicity` proves a row occurring c times occurs c times this many in the output |
| Merge.JoinRowKeepsStats | Main.py:139-145 | every output row of a stats row carries that stats row unchanged |
| Merge.JoinRowStats | Main.py:139-145 | the stats of one row's output are that row repeated by its multiplicity |
| Merge.JoinRowCount | Main.py:139-145 | one row's output holds that row its multiplicity times and no other row |
| Merge.LeftJoin | Main.py:139-145 | `pd.merge(how="left")`; `LeftJoinOrder`, `LeftJoinMultiplicity`, `LeftJoinIds` and `LeftJoinLength` prove its order, multiplicities, ids and that no row is lost |
| Merge.LeftJoinLength | Main.py:139-145 | the join never has fewer rows than the stats table |
| Merge.LeftJoinAppend | Main.py:139-145 | joining consecutive runs of stats rows is joining each, in order |
| Merge.LeftJoinOrder | Main.py:139-145 | the output's stats column is every input row, in input order, repeated once per match (once when unmatched) |
| Merge.LeftJoinMultiplicity | Main.py:139-145 | a row occurring c times in the input occurs c·k times in the output when it matches k ≥ 1 entries, and c times when it matches none |
| Merge.EveryStatsRowKept | Main.py:139-145 | no stats row is dropped |
| Merge.LeftJoinIds | Main.py:139-145 | an output row's id is null exactly when its name matches no entry, and otherwise is the id of a lookup entry carrying that name |
| Merge.NoMatchWhenAbsent | Main.py:139-145 | a name carried by no entry has no match |
| Merge.UniqueNameAtMostOneMatch | Main.py:139-145 | with distinct lookup names, each name has at most one match |
| Merge.SingleJoinRow | Main.py:139-145 | a stats row with at most one match becomes exactly one output row |
| Merge.UniqueNamesRowForRow | Main.py:139-145 | with distinct lookup names, the join is row for row: same length, and the stats column is the input |
| Merge.UniqueMatch | Main.py:139-145 | with distinct lookup names, the name of entry i matches entry i alone |
| Merge.MergeSingle | Main.py:135-145 | merging one stats row joins its normalised form against the normalised lookup |
| Merge.MergeStats | Main.py:135-145 | normalise both keys, then left-join; `MergeSingle`, `MergeStatsLength` and `MatchIgnoresCaseAndSpace` state what it yields |
| Merge.MergeStatsLength | Main.py:135-145 | the merged table has at least one row per stats row, and exactly one when the normalised lookup names are distinct |
| Merge.MergeOneUnique | Main.py:135-145 | with distinct normalised lookup names, a row whose normalised name is entry i's merges into one row with the normalised name and entry i's id |
| Merge.MergeOneUnmatched | Main.py:135-145 | a row whose normalised name is no entry's is kept once, with no name and no id |
| Merge.JoinRowHasEntry | Main.py:139-145 | an entry carrying the row's name contributes an output row with that entry's id |
| Merge.MatchIgnoresCaseAndSpace | Main.py:135-145 | a row whose player normalises to an entry's normalised name is merged with that entry's id |
| Merge.JohnSmithMerge | Main.py:135-145 | with lookup `[{"fullName": "john smith", "playerId": 42}]`, the scraped "John Smith" merges as "john smith" with id 42 and unchanged statistics |
| Merge.Repeat | Main.py:139-145 | n copies of a row: length n, every element that row |
| Publish.Select | Main.py:171 | selecting columns keeps one row per merged row, each with one cell per selected column |
| Publish.ColumnOf | Main.py:171 | one cell of the selected table, blank for a lookup column of an unmatched row; `SelectSheetColumns` and `SheetRowId` state its values for the sheet's columns |
| Publish.Name | Main.py:177 | the label of a column in the header row; `SheetHeader` proves the labels of the sheet's columns |
| Publish.SheetColumns | Main.py:171 | the eight columns written to the sheet, in order; `SheetHeader` proves they read Game_ID, Player, playerId, R, AB, H, HR, RBI |
| Publish.Header | Main.py:177 | the header row has one cell per column |
| Publish.Payload | Main.py:177 | the payload is one header row followed by the data rows in order: 1 + (data rows) rows, row 0 the header |
| Publish.SheetRow | Main.py:171 | a written row has exactly the sheet's eight columns |
| Publish.SheetHeader | Main.py:171 | the header row reads Game_ID, Player, playerId, R, AB, H, HR, RBI |
| Publish.SelectSheetColumns | Main.py:171 | selecting the sheet's columns yields each merged row's game id, player, id (blank when unmatched), R, AB, H, HR, RBI |
| Publish.SheetData | Main.py:171-177 | the written data has 1 + (merged rows) rows: the header, then each merged row's selected values in order |
| Publish.SheetRowId | Main.py:171 | the id cell of a written row is blank exactly when the row found no lookup entry, and otherwise holds the entry's id |
| Publish.OneRowSheet | Main.py:171-177 | a sheet of one merged row is the header and that row |
| Publish.Run | Main.py:106-177 | the pipeline fails exactly when combining the scraped games fails; otherwise the payload starts with the sheet's header, has at least 1 + (scraped rows) rows, and exactly that many when the normalised lookup names are distinct |
| Publish.OnePlayerRun | Main.py:68-177 | end to end: one NCAA url with a batting table of one player row, plus a lookup with distinct normalised names one of which is the player's, gives the header and one row of the url's game id, the normalised name, that entry's id and the row's R, AB, H, HR, RBI |

## Left out

- Dependency bootstrap (`check_and_install_libraries`, Main.py:8-47): it is pip and subprocess plumbing.
- HTTP requests for the box-score pages and both API calls (Main.py:69, 117-128). These are network I/O. Pages and the lookup are parameters: a page is its url and tables, and the lookup is a sequence of (fullName, playerId) entries.
- JSON decoding of the token and the lookup (Main.py:122, 130): not modelled, because the lookup is given already decoded.
- HTML parsing with BeautifulSoup and `get_text(strip=True)` (Main.py:70-72, 83-90): each table's text and each row's cell texts are inputs.
- Environment variables, gspread authorisation, `sheet.clear()` and `sheet.update` as side effects (Main.py:110-112, 151-177). These are configuration and a foreign service; only the payload list is modelled.
- `print` calls (Main.py:107, 146): output only.
- Text.LowerChar: models ASCII lower-casing only (A–Z). Python's `str.lower` also maps non-ASCII letters.
- Text.Strip: the whitespace set is ASCII only: code points 9–13, 28–32. Python's `str.strip` also removes non-ASCII whitespace such as U+00A0 and U+2028.
- Text.ContainsIffOccurs: `'AB' in table.text` is modelled on the given text. How BeautifulSoup builds that text is not part of this model.
- GameId.DigitRun: `\d` is modelled as the ASCII digits 0–9. Python's `re` with a `str` pattern also accepts other Unicode decimal digits.
- Merge.LookupEntry: `playerId` is an integer. pandas turns the merged column into floats with NaN when any row is unmatched (42 becomes 42.0); the model keeps integers and marks a missing id as absent.
- Publish.Cell: writing a blank cell for an unmatched id is a choice of this model, standing for a null or empty playerId. The script itself puts a float NaN in that row of `final_df.values.tolist()` (Main.py:171-177). What the sheet update then does with NaN (it may refuse to encode it as JSON) depends on library behaviour outside this code and is not part of this model.
- The empty case, where no url yields a record (Main.py:103, 135): `pd.DataFrame([])` has no `Player` column, so the script raises a `KeyError`. The model returns an empty table instead.
- Merge.MergeStats: an empty lookup response (Main.py:130-132) is a table with no columns, so selecting `fullName` and `playerId` raises a `KeyError`. The model instead joins against an empty lookup and keeps every stats row unmatched, with no name and no id.
- Publish.Select: columns are an enumeration, so the `KeyError` that `merged_df[...]` raises for an unknown column name cannot arise. All eight selected columns exist in the merged table.
