# teaqlite, modelled in Dafny

teaqlite is a terminal browser for SQLite databases built on the Bubble Tea
framework. One dispatcher `Model` shows one of five screens at a time:

- the table list;
- the rows of a table, one page of 20 at a time;
- the columns of one row;
- a one-line editor for one cell;
- a free-form SQL query screen.

All five screens share one cache of what was loaded last (`SharedData`): the
table names, the page of rows, its columns and primary keys, and whether the
rows came from a query. Keys are handled by the screen on show. The screen
then asks the dispatcher, through a message, to switch screens, load a page or
write a cell.

The repository holds two variants of this program, and both are modelled as
they are written:

- **The current variant**, under `internal/app/`. It has fuzzy search with
  scoring and sorting, `gg`/`G` jumps, paging that crosses page boundaries, a
  query screen that adds primary-key columns to the queries it runs, and a
  cursor that blinks.
- **The earlier variant**, the `*.go` files at the root of the repository. It
  has substring search, simpler paging, extra editing keys (delete, ctrl+k,
  ctrl+u) and a query screen that guesses the source table from the text of
  the query.

## Layout

| module (file) | what it models |
|---|---|
| `Options` (options.dfy) | optional values |
| `Messages` (messages.dfy) | the messages the screens exchange, and the commands `Update` returns |
| `Util` (util.dfy) | `Min`, `Max`, Go's truncating `/`, `TruncateString`, `WrapText` |
| `GoText` (go_text.dfy) | the `strings` functions the core uses, on ASCII text |
| `Caret` (caret.dfy) | the one-line editors: word motion, and the editing keys as functions on a text and its caret |
| `Fuzzy` (fuzzy.dfy) | `fuzzyScore`, in its table-name and row-cell versions |
| `Ranking` (ranking.dfy) | `sort.Slice` by descending score, as a rearrangement of the candidates |
| `Session` (session.dfy) | `SharedData`: a page of rows, loading, source-table inference, cell update. The rows live in a heap that screens reference by index, so that Go's slice aliasing is kept |
| `TableList`, `TableData`, `RowDetail`, `EditCell`, `Query`, `QueryRewrite`, `App` | the screens and the dispatcher of the current variant |
| `LegacyTableList`, `LegacyTableData`, `LegacyRowDetail`, `LegacyEditCell`, `LegacyQuery`, `LegacyApp` | the screens and the dispatcher of the earlier variant |

The database is a value of type `Session.Store`. It holds:

- the catalog of table names;
- for each table, its columns, the columns whose `PRAGMA table_info` entry has `pk` equal to 1, and its rows in storage order;
- whether a write succeeds;
- whether each kind of query fails.

Every screen whose fields Go updates in place is a Dafny `class` with the same
fields. Each method's `modifies` clause names the fields it may change. What a
key handler does to them is a two-state predicate of the old and the new
fields (`NavigationEffect`, `SearchInputEffect`, `MoveEffect`, ...), and each
screen's `Update` states what any message does as its `UpdateEffect`, built
from those. The dispatcher passes on the `UpdateEffect` of the screen on show
for every message it forwards (`ViewEffect`), and states what its own messages
do as `SwitchEffect` and `CacheEffect`. The dispatcher
holds one of the five screens at a time (`currentView`), and Go's panics
(index out of range, nil dereference) are modelled as the dispatcher halting
with `Crash`.

The earlier variant's `sharedData` (main.go:88-412) does what the current
variant's does (internal/app/app.go:69-393), step for step. Both variants
therefore share `Session`, and the `Session` rows below cite the current
variant.

## Model

| member | source | states |
|---|---|---|
| Util.Min | internal/app/app.go:467-472 | the result is one of the two arguments and no greater than either |
| Util.Max | internal/app/app.go:474-479 | the result is one of the two arguments and no less than either |
| Util.Quo | internal/app/table_data.go:236-243 | Go's integer division: the quotient truncated toward zero, with the remainder taking the sign of the dividend |
| Util.QuoOfMultiple | internal/app/table_data.go:236-243 | dividing an exact multiple of the divisor gives back the factor |
| Util.TruncateString | internal/app/app.go:420-425 | the text itself when it fits; otherwise exactly `maxLen` bytes, the text's first `maxLen - 3` bytes followed by "..." |
| Util.TruncateIdempotent | internal/app/app.go:420-425 | truncating twice to the same length is truncating once |
| Util.Chunks | internal/app/app.go:445-449 | every piece a long word is cut into is exactly `width` bytes long |
| Util.ChunksAndRest | internal/app/app.go:445-449 | the pieces and the remainder, concatenated in order, give back the word |
| Util.Wrap | internal/app/app.go:427-465 | the text as its only line when the width is not positive or the text has no words |
| Util.WrapText | internal/app/app.go:427-465 | the loop over the words computes `Wrap` |
| Util.WrapLinesWellWrapped | internal/app/app.go:427-465 | every line is non-empty, with single spaces between words and none at either end, and a line longer than the width is one word that was never cut |
| Util.WrapKeepsNonSpace | internal/app/app.go:427-465 | wrapping keeps every non-space byte of the text, in order |
| Util.LongWordExamples | internal/app/app.go:439-458 | a long word after another word goes to a line of its own uncut, while a long first word is cut into pieces of the width |
| GoText.ToLower | internal/app/query.go:166 | `strings.ToLower` on ASCII: same length, each byte case-folded |
| GoText.Index | internal/app/query.go:198-199 | the first offset at which the pattern occurs, or -1 exactly when it occurs nowhere |
| GoText.IndexFrom | internal/app/query.go:198-199 | the first occurrence at or after an offset, or -1 exactly when there is none |
| GoText.TrimSpace | internal/app/query.go:166 | `strings.TrimSpace`: the slice of the text from its first non-space byte, with no white space at either end and only white space after it; empty exactly when the text is all white space |
| GoText.Fields | internal/app/query.go:233 | `strings.Fields`: every field is non-empty and holds no white space; there are none exactly when the text is all white space |
| GoText.FirstRun | internal/app/query.go:233-242 | the first run of non-space bytes: the slice starting at the first non-space byte and ending before the next white space or at the end; empty exactly when the text is all white space |
| GoText.FieldsHead | internal/app/query.go:233-238 | the first field is the first run of non-space bytes |
| GoText.FieldsSplitAtSpace | internal/app/query.go:233 | one white-space byte splits the fields: the fields of `a + [c] + b` are those of `a` followed by those of `b` |
| GoText.FirstRunOfTrimmed | internal/app/query.go:232-233 | trimming the ends first does not change the first run |
| GoText.FirstFieldOfTrimmed | internal/app/query.go:232-238 | the trimmed text has no field exactly when the first run is empty, and otherwise its first field is that run |
| GoText.FieldsKeepNonSpace | internal/app/query.go:233 | the fields, glued together, are exactly the non-space bytes of the text |
| GoText.TrimChars | internal/app/query.go:242 | `strings.Trim` with a cutset: the slice of the text from its first byte outside the cutset, with only cutset bytes after it and ends outside the cutset; empty exactly when every byte is in the cutset |
| GoText.IndexAfter | internal/app/query.go:198-199 | a pattern whose first byte does not occur before it is found where it starts |
| Caret.WordLeftPos | internal/app/edit_cell.go:154-170 | ctrl+left: the start of the nearest word beginning before the caret, or 0 |
| Caret.WordRightPos | internal/app/edit_cell.go:173-189 | ctrl+right: the start of the next word after the caret, or the end of the text |
| Caret.WordLeft | internal/app/edit_cell.go:154-170 | the loop computes `WordLeftPos`, never moves right, and stops at a word start or at 0 |
| Caret.WordRight | internal/app/edit_cell.go:173-189 | the loop computes `WordRightPos`, never moves left, and stops at a word start or at the end |
| Caret.HelloWorld | internal/app/edit_cell.go:154-189 | on "hello world", ctrl+left and ctrl+right move between offsets 0, 6 and 11 |
| Caret.InsertKey | internal/app/edit_cell.go:99-103 | a one-byte key is inserted at the caret, which steps past it; a longer key name changes nothing |
| Caret.Backspace | internal/app/edit_cell.go:68-72 | removes the byte before the caret and steps back; nothing at the start |
| Caret.DeleteForward | edit_cell.go:94-97 | removes the byte under the caret, which stays; nothing at the end |
| Caret.KillToEnd | edit_cell.go:105-107 | keeps only the text before the caret |
| Caret.KillToStart | edit_cell.go:109-112 | keeps only the text from the caret on, with the caret at 0 |
| Caret.DeleteWordLeft | internal/app/edit_cell.go:192-200 | removes the bytes from the ctrl+left position up to the caret, which moves there |
| Caret.EditKey | internal/app/edit_cell.go:74-103 | the caret stays inside the text; the motion keys keep the text; only backspace, ctrl+w and a one-byte key change the text, a one-byte key as `InsertKey`; any other key changes nothing |
| Caret.EditKeyWithKills | edit_cell.go:64-120 | the earlier variant's editing keys: the same keys with its own white space, plus delete, ctrl+k and ctrl+u |
| Caret.TypeThenBackspace | internal/app/edit_cell.go:68-103 | in both variants' editors, typing a byte and then pressing backspace leaves the line as it was |
| Caret.KillsSplitAtCaret | edit_cell.go:105-112 | what ctrl+k keeps and what ctrl+u keeps, put together, are the whole text |
| Caret.BackspaceUndoesInsert | internal/app/edit_cell.go:68-103 | backspace undoes the insertion of a one-byte key |
| Caret.InsertUndoesBackspace | internal/app/edit_cell.go:68-103 | typing the byte that backspace removed restores the line |
| Caret.InsertUndoesDelete | edit_cell.go:94-119 | typing the byte that delete removed, then moving left, restores the line |
| Caret.DeleteWordLeftRemovesOneSpan | internal/app/edit_cell.go:192-200 | the bytes ctrl+w removes, put back, restore the text |
| Fuzzy.Greedy | internal/app/table_list.go:315-341 | the offsets the left-to-right scan matches are strictly increasing, and each holds the pattern byte it matched |
| Fuzzy.MatchPoints | internal/app/table_list.go:321-335 | one match earns 10 points, plus 5 per byte of its run when the run is longer than one, plus 20 at the start of the text or after a boundary byte |
| Fuzzy.FuzzyScore | internal/app/table_list.go:288-352 | the scorer computes `Score`: 1 for an empty pattern, 0 for a pattern longer than the text, 1000 for an exact match, 900 for a prefix, 800 for a substring; otherwise the scan's points plus 100 minus the text's length, or 0 when some pattern byte did not match |
| Fuzzy.GreedyIffSubsequence | internal/app/table_list.go:315-346 | the scan matches every pattern byte exactly when the pattern is a subsequence of the text |
| Fuzzy.NotSubsequenceScoresZero | internal/app/table_list.go:343-346 | a non-empty pattern that is not a subsequence of the text scores 0 |
| Fuzzy.SubsequenceScoreBounds | internal/app/table_list.go:315-349 | a non-empty subsequence that is not a substring scores at least 10 per pattern byte and at most `|p| * (30 + 5 * |p|)`, plus 100 minus the text's length |
| Fuzzy.ShortTextMatchesIffSubsequence | internal/app/table_list.go:288-352 | for texts of at most 100 bytes, the score is positive exactly when the pattern is a subsequence |
| Fuzzy.RowScoreDominatesTableScore | internal/app/table_data.go:345 | the row scorer, which also counts a space as a word boundary, never scores below the table scorer, and the two agree on texts without spaces |
| Ranking.Insert | internal/app/table_list.go:268-271 | inserting into a list ordered by descending score keeps it ordered, makes it one longer, and adds nothing but the new candidate |
| Ranking.SortByScore | internal/app/table_list.go:268-271 | the result is ordered by descending score and is a permutation of the candidates |
| Ranking.SortedItemsByKey | internal/app/table_list.go:268-277 | when each score is a function of its item, the sorted items are in descending order of that function |
| Ranking.ItemsOf | internal/app/table_list.go:273-277 | the loop copies the items out of the candidates, in order |
| Session.MaxPage | internal/app/table_data.go:236-243 | the last page index, `(total - 1) / 20` truncated: 0 for an empty table, and the page of the last row otherwise |
| Session.PageSlice | internal/app/app.go:139-140 | `LIMIT 20 OFFSET page*20`: at most 20 rows, starting at row `page*20` of the table |
| Session.RowOnItsPage | internal/app/app.go:139-140 | row `k` of a table is row `k % 20` of page `k / 20` |
| Session.LastPage | internal/app/app.go:133-140 | the last page of a non-empty table holds at least one row, and every page after it is empty |
| TableData.PageSizes | internal/app/app.go:139-140 | every page before the last is full, and the last page of a non-empty table holds the rows left over, at least one |
| Session.LoadResult | internal/app/app.go:100-179 | the cache stays well formed, and the load reports an invalid table selection exactly when the selected index is past the filtered list |
| Session.LoadShowsPage | internal/app/app.go:139-176 | a successful load shows the current page in storage order, in `TableData` and `FilteredData` alike, on rows that are new; the query context is cleared |
| Session.LoadFailureKeepsRows | internal/app/app.go:100-138 | a load that fails or panics leaves every row, every row list and the query context as they were |
| Session.FirstSuperset | internal/app/app.go:367-393 | the first table, in catalog order, whose columns include every result column; tables whose lookup fails are skipped, and none is found exactly when no table fits |
| Session.HasAllColumns | internal/app/app.go:376-383 | the loop answers whether every result column is among the table's columns |
| Session.WhereClause | internal/app/app.go:213-248 | the WHERE clause is empty exactly when there are no key columns |
| Session.WherePlaceholders | internal/app/app.go:213-248 | the WHERE clause has one `?` per key column when no key name contains one |
| Session.LocalValue | internal/app/app.go:313-317 | the cell under the first column of that name that the row reaches, or none |
| Session.KeyValues | internal/app/app.go:219-247 | the value of every key column, in order, or the failure of the first key without one |
| Session.KeyValuesFailureSticks | internal/app/app.go:219-247 | once a prefix of the keys has a key without a value, the whole list fails the same way |
| Session.FirstAgreeing | internal/app/app.go:262-276 | the first `TableData` row that is long enough and agrees with the edited row outside the edited column, or -1 exactly when there is none |
| Session.Reconciled | internal/app/app.go:259-276 | the heap keeps its number of rows, and every row its length |
| Session.ReconciledFrame | internal/app/app.go:259-276 | at most two rows change, each only in the edited column, which then holds the new value |
| Session.AliasedRowIsFound | internal/app/app.go:259-276 | when the edited row is itself a `TableData` row, as after a load, some `TableData` row takes the edit |
| Session.DuplicateRowsBothChange | internal/app/app.go:259-276 | of two identical rows on a page, editing the second also rewrites the first |
| Session.RowMatches | internal/app/app.go:264-270 | the inner loop answers whether the row agrees with the edited row outside the edited column |
| Session.Target | internal/app/app.go:186-203 | only the remembered source table may change; a failure is a missing source table and leaves the cache as it was |
| Session.UpdateResult | internal/app/app.go:181-279 | the cache stays well formed, and an out-of-range row or column is refused with nothing changed; below zero only the upper bounds are checked, so a negative column panics once the target is known and a negative row goes through `NoRowValues` |
| Session.NoRowValue | internal/app/app.go:311-361 | `findColumnValue` on a negative row: it panics exactly when the name is a result column, or the result is a query result and one of its primary keys is a result column, since either reads the row; otherwise it fails with the missing key, or gives the fallback lookup's value exactly when `ColumnValue` of an empty row would |
| Session.NoRowValues | internal/app/app.go:217-248 | the key values on a negative row: all of them, in order, exactly when every lookup succeeds; otherwise the panic or the failure of the first key whose lookup does not, every key before it succeeding |
| Session.NegativeColumnPanics | internal/app/app.go:182-205 | a negative column passes the bounds check and panics where its name is read, after the target table is chosen and before any table lookup |
| Session.NegativeRowNeverWrites | internal/app/app.go:181-260 | a negative row never succeeds: it fails with the error Go returns first or panics, and at most the inferred source table is remembered |
| Session.UpdateSucceeded | internal/app/app.go:181-279 | a successful update targets the remembered or inferred source table, or the selected one, and sets the edited column where every key column equals a bound value; only the source table and the heap change |
| Session.UpdateKeyArguments | internal/app/app.go:213-252 | the values bound after the new one are, in order, the edited row's values for the key columns |
| Session.UpdateShowsValue | internal/app/app.go:259-260 | after a successful edit the edited row shows the new value in the edited column and is otherwise as it was |
| Session.UpdateUnfolds | internal/app/app.go:181-257 | a successful update found a target table, its columns, a value for every key column, and an edited column inside the row |
| Session.UpdatePlaceholders | internal/app/app.go:213-252 | the statement has one argument per placeholder when no key or column name contains `?` |
| Session.StatementPlaceholders | internal/app/app.go:251-252 | the UPDATE has one placeholder for the new value and one per key column |
| Session.UpdateFailureKeepsRows | internal/app/app.go:181-257 | an update that fails or panics changes no cell; at most it remembers the inferred source table |
| Session.UpdateNeedsSourceTable | internal/app/app.go:189-199 | an edit of a query result whose source table is neither remembered nor inferable is refused |
| Session.SharedData.constructor | internal/app/app.go:69-77 | nothing loaded, no query context, an 80x24 window |
| Session.SharedData.LoadTables | internal/app/app.go:79-98 | on success the catalog becomes both the table list and the filtered list, with nothing else changed; on failure nothing changes |
| Session.SharedData.LoadTableData | internal/app/app.go:100-179 | the new state and the outcome are those of `LoadResult`, with the page stored in fresh rows |
| Session.SharedData.ShowRows | internal/app/app.go:139-176 | the current page becomes both `TableData` and `FilteredData`, and the query context is cleared |
| Session.SharedData.AddRows | internal/app/query.go:322-339 | the rows are appended to the heap, and the references returned read them back in order |
| Session.SharedData.InferTable | internal/app/app.go:367-393 | returns `FirstSuperset` and remembers it as the source table when there is one; nothing else changes |
| Session.SharedData.FindColumnValue | internal/app/app.go:311-364 | the row's cell under the first column of that name, else the database fallback for a query result with primary keys, else none |
| Session.SharedData.ResolveTarget | internal/app/app.go:186-203 | the target and the new state are those of `Target` |
| Session.SharedData.KeyArguments | internal/app/app.go:213-248 | the loop builds `WhereClause` over the keys and `KeyValues` as the arguments |
| Session.SharedData.NoRowColumnValue | internal/app/app.go:311-361 | the loops of `findColumnValue` on a negative row compute `NoRowValue` |
| Session.SharedData.NoRowArguments | internal/app/app.go:213-248 | the WHERE loop on a negative row computes `NoRowValues`, and `WhereClause` of the keys when every value is found |
| Session.SharedData.ShowQueryRows | internal/app/query.go:331-334 | the result rows become the cache's shown rows, read back in order through new slots of the row heap, as a query result with the result's columns; the rest of the cache is kept |
| Session.SharedData.WriteBack | internal/app/app.go:259-276 | the heap becomes `Reconciled`, with nothing else changed |
| Session.SharedData.UpdateCell | internal/app/app.go:181-279 | the new state and the outcome are those of `UpdateResult` |
| TableList.Matching | internal/app/table_list.go:258-266 | the tables that score above zero, in catalog order |
| TableList.Candidates | internal/app/table_list.go:258-266 | the scored candidates: each matching table with its score, in catalog order |
| TableList.FilteredMembership | internal/app/table_list.go:246-284 | a table is listed exactly when it is in the catalog and matches the search |
| TableList.ShortNamesMatchBySubsequence | internal/app/table_list.go:246-284 | for names of at most 100 bytes, a table is listed exactly when the lower-cased search is a subsequence of its lower-cased name |
| TableList.VisibleCount | internal/app/table_list.go:354-360 | the height less 8 reserved lines, or less 10 while searching, and 1 when that leaves none; never more while searching than otherwise |
| TableList.RankTables | internal/app/table_list.go:252-278 | the matching tables, as a permutation ordered by descending score |
| TableList.ScoreTables | internal/app/table_list.go:258-266 | the loop computes `Candidates` |
| TableList.TableListModel.constructor | internal/app/table_list.go:38-61 | `Initial`: focused, no search and the box closed, the first name selected on the first page, no `g` pending and the short help |
| TableList.TableListModel.AdjustPage | internal/app/table_list.go:362-365 | the page becomes the one holding the selection |
| TableList.TableListModel.FilterTables | internal/app/table_list.go:246-284 | the filtered list becomes what `Filtered` describes; a selection that fell off the end returns to the first name on the first page |
| TableList.TableListModel.HandleSearchInput | internal/app/table_list.go:124-145 | esc clears a non-empty search and leaves the box, enter leaves it, and any other key takes the typed text; the list is refiltered each time |
| TableList.TableListModel.HandleNavigation | internal/app/table_list.go:147-244 | `NavigationEffect`: r reloads the catalog and refilters, esc, `/`, enter and `s` do what `Command` states, and the moving keys do what `Move`'s `MoveEffect` states, with the search and the cache kept; the selection stays on the list and its page stays shown |
| TableList.TableListModel.Command | internal/app/table_list.go:149-199 | esc, `/`, enter and `s`: clear the search, open it, open the selected table, or open the query screen |
| TableList.TableListModel.ClearSearch | internal/app/table_list.go:149-159 | a non-empty search is cleared and the list refiltered; otherwise nothing changes |
| TableList.TableListModel.Refresh | internal/app/table_list.go:201-205 | the catalog is reloaded and, when that worked, the list is refiltered |
| TableList.TableListModel.Move | internal/app/table_list.go:168-237 | `MoveEffect`: the first `g` arms `gg` and moves nothing; `gg` to the first name on the first page; `G` to the last name, or nothing on an empty list; up and down one name, with the page following the selection, or nothing at either end; left and right as `PageLeft` and `PageRight`, or nothing on the first or last page; other keys move nothing |
| TableList.TableListModel.PageLeft | internal/app/table_list.go:221-226 | one page back, selecting its first name; nothing on the first page |
| TableList.TableListModel.PageRight | internal/app/table_list.go:228-237 | one page on, selecting its first name; nothing on the last page |
| TableList.TableListModel.Update | internal/app/table_list.go:91-122 | `UpdateEffect`: nothing while unfocused; the help toggle flips the help and changes nothing else; a key has the `SearchInputEffect` of `HandleSearchInput` while the search box is open and the `NavigationEffect` of `HandleNavigation` otherwise; any other message while the box is open takes the typed text and refilters, keeping the focus, the pending `g` and the help, and otherwise changes nothing |
| TableList.TableListModel.HandleKey | internal/app/table_list.go:103-107 | a key has `SearchInputEffect` while the search box is open and `NavigationEffect` (with `MoveEffect` for the moving keys) otherwise, and the window size is kept |
| TableList.TableListModel.TakeTyped | internal/app/table_list.go:110-119 | the search becomes the typed text and the list is refiltered, with the rest of the cache kept |
| TableData.CellScore | internal/app/table_data.go:269-276 | the score of one lower-cased cell against the lower-cased search |
| TableData.RowScore | internal/app/table_data.go:267-278 | the best score of the row's cells, and never below zero |
| TableData.RowMatchesIffSomeCellMatches | internal/app/table_data.go:267-280 | a row is listed exactly when one of its cells scores above zero |
| TableData.ShortCellsMatchBySubsequence | internal/app/table_data.go:252-297 | for cells of at most 100 bytes, a row is listed exactly when the search is a subsequence of one of its cells |
| TableData.MatchingRows | internal/app/table_data.go:267-280 | the rows that score above zero, in page order |
| TableData.RowCandidates | internal/app/table_data.go:267-280 | each matching row with its score, in page order |
| TableData.BestScore | internal/app/table_data.go:269-276 | the loop over the cells computes `RowScore` |
| TableData.ScoreRows | internal/app/table_data.go:267-280 | the loop over the rows computes `RowCandidates` |
| TableData.RankRows | internal/app/table_data.go:255-292 | the matching rows, as a permutation ordered by descending score |
| TableData.Window | internal/app/table_data.go:407-418 | the rows on screen: a window of exactly `Min(count, Max(1, height - 10))` rows inside the list that contains the selection; it starts at the top while the selection fits on the first screen, and once scrolled it ends just after the selection or at the end of the list |
| TableData.TableDataModel.constructor | internal/app/table_data.go:36-58 | `Initial`: focused, on the first row, with no search, the box closed and no `g` pending |
| TableData.TableDataModel.FilterData | internal/app/table_data.go:252-297 | `FilteredData` becomes what `DataFiltered` describes; a selection that fell off the end returns to the first row |
| TableData.TableDataModel.Reload | internal/app/table_data.go:152-243 | moves to the page and loads it: the cache becomes `LoadResult` of the old cache on that page, refiltered as `DataFiltered` when asked with the selection reset as `FilterData` does; a failed load turns into the error message |
| TableData.TableDataModel.GoToStart | internal/app/table_data.go:152-164 | the first `g` arms `gg` and changes nothing else; the second goes to the first row of page 0, where the cache is `LoadResult` of the old cache on page 0 and the rows are refiltered as `DataFiltered` |
| TableData.TableDataModel.GoToEnd | internal/app/table_data.go:166-174 | the last row of the last page, where the cache is `LoadResult` of the old cache on that page and the rows are refiltered as `DataFiltered` |
| TableData.TableDataModel.RowUp | internal/app/table_data.go:201-211 | the row above with the cache unchanged; from a page's first row the last row of the page before, loaded as `LoadResult` on that page and refiltered as `DataFiltered`; nothing on the first row of page 0 |
| TableData.TableDataModel.BackToLastRow | internal/app/table_data.go:204-209 | the page before, with the cache `LoadResult` of the old cache on that page, refiltered as `DataFiltered`, on its last row; when the cache agreed with the database, that page is full |
| TableData.TableDataModel.RowDown | internal/app/table_data.go:213-226 | the row below with the cache unchanged; from a page's last row the first row of the page after, loaded as `LoadResult` on that page and refiltered as `DataFiltered`; nothing on the last row of the last page |
| TableData.TableDataModel.OnToFirstRow | internal/app/table_data.go:216-224 | the page after, with the cache `LoadResult` of the old cache on that page, refiltered as `DataFiltered`, on its first row; when the cache agreed with the database, that page holds at least one row, and when the page left was on screen unfiltered it was full |
| TableData.TableDataModel.PageLeft | internal/app/table_data.go:228-234 | the page before, reloaded but not refiltered, on its first row; nothing on the first page |
| TableData.TableDataModel.PageRight | internal/app/table_data.go:236-243 | the next page, reloaded but not refiltered, on its first row; nothing on the last page |
| TableData.TableDataModel.Refresh | internal/app/table_data.go:195-199 | reloads the page, and refilters only when the load worked |
| TableData.TableDataModel.HandleSearchInput | internal/app/table_data.go:117-134 | esc and enter leave the search box and keep its text; other keys take the typed text and refilter |
| TableData.TableDataModel.HandleNavigation | internal/app/table_data.go:136-250 | `NavigationEffect`: `q`, esc, enter, `/` and `s` do what `Command` states and the moving keys do what `Move` states, including the page each loads, with the filtered rows kept; the selection stays on the shown rows |
| TableData.TableDataModel.Command | internal/app/table_data.go:138-193 | `q`, esc, enter, `/` and `s`: back, clear the search, open the row, open the search, or open the query screen |
| TableData.TableDataModel.Move | internal/app/table_data.go:152-243 | `MoveEffect`: `g`, `G`, refresh and the four arrows each have the effect their own method states (`GoToStart`, `GoToEnd`, `Refresh`, `RowUp`, `RowDown`, `PageLeft`, `PageRight`), including the cache each page load leaves; other keys change nothing |
| TableData.TableDataModel.Update | internal/app/table_data.go:88-115 | `UpdateEffect`: nothing while unfocused; a key has the `SearchInputEffect` of `HandleSearchInput` while the search box is open and the `NavigationEffect` of `HandleNavigation` otherwise; any other message while the box is open takes the typed text and refilters, changing only `FilteredData` in the cache and keeping the focus and the pending `g`, and otherwise changes nothing |
| RowDetail.BackTarget | internal/app/row_detail.go:92-97 | back to the query results when the row came from them, else to the selected table's rows |
| RowDetail.RowDetailModel.constructor | internal/app/row_detail.go:34-52 | focused on the first column, not from a query |
| RowDetail.RowDetailModel.Update | internal/app/row_detail.go:78-88 | `UpdateEffect`: nothing while unfocused; a key has the `NavigationEffect` of `HandleNavigation`; other messages change nothing; the cache, the focus and where the row came from are never changed |
| RowDetail.RowDetailModel.HandleNavigation | internal/app/row_detail.go:90-141 | `NavigationEffect`: esc or q goes back, `gg` and `G` go to the first and last column, enter opens the editor on the selected row and column, whether or not they exist, up and down step within the columns |
| EditCell.StartText | internal/app/edit_cell.go:28-42 | the cell's value when the cell exists, else "" |
| EditCell.EditCellModel.constructor | internal/app/edit_cell.go:28-42 | the cell's text, with the caret after it |
| EditCell.EditCellModel.Update | internal/app/edit_cell.go:48-107 | `UpdateEffect`: esc goes back to the row, enter asks to save the edited value, any other key edits as `EditKey`; other messages change nothing; the cache is never changed |
| EditCell.EditCellModel.Edit | internal/app/edit_cell.go:68-103 | the text and caret become `EditKey` of the old ones |
| EditCell.EditCellModel.DeleteWordLeft | internal/app/edit_cell.go:192-200 | the text and caret become `DeleteWordLeft` of the old ones |
| QueryRewrite.TableNameAfterFrom | internal/app/query.go:220-245 | "" when no "from" occurs in any case; otherwise the first run of non-space bytes after the first "from", with its quotes stripped from both ends |
| QueryRewrite.FirstWord | internal/app/query.go:230-242 | the first run of non-space bytes of the text, with its quotes stripped from both ends |
| QueryRewrite.QuotesOnlyFirstWord | internal/app/query.go:233-242 | only the first field counts: when that field is quotes alone the table name is empty, even with a word after it |
| QueryRewrite.TableNameOccursAfterFrom | internal/app/query.go:220-245 | when "from" occurs, the table name is text of the query after it, with only white space and quotes in between |
| QueryRewrite.TableNameAt | internal/app/query.go:220-245 | when the first "from" is followed by one blank and a plain word, the table name is that word |
| QueryRewrite.PrimaryKeysOf | internal/app/query.go:247-271 | the table's primary-key columns, or none when the table cannot be looked up |
| QueryRewrite.RewritePlan | internal/app/query.go:164-203 | there is a plan exactly when the query is rewritten: a SELECT with a known table that has keys, names none of them, is not `select *`, and has "from" after "select" |
| QueryRewrite.Spliced | internal/app/query.go:206-217 | "SELECT ", the keys joined by ", ", ", ", the column list and the rest of the query from FROM on |
| QueryRewrite.SplicedKeepsColumns | internal/app/query.go:206-217 | the rewritten query still contains the column list and the FROM clause |
| QueryRewrite.WithIdColumnsAsWritten | internal/app/query.go:164-218 | the rewrite as the code does it: positions found in the trimmed query cut the untrimmed one; a rewritten query starts with "SELECT ", names every key and ends with the typed query from the FROM position on; otherwise the query is unchanged |
| QueryRewrite.WithIdColumns | internal/app/query.go:164-218 | the rewrite as intended: every key named in front of the query's own columns, or the query unchanged |
| QueryRewrite.AsWrittenAgreesWhenTrimmed | internal/app/query.go:164-218 | for a query typed without surrounding white space, the code does what was intended |
| QueryRewrite.NamedKeyBlocks | internal/app/query.go:185-190 | a query that already names one of its table's keys is left alone |
| QueryRewrite.SplicedNamesFirstKey | internal/app/query.go:185-217 | the rewritten query, trimmed and lower-cased, names the first key |
| QueryRewrite.SecondPassKeeps | internal/app/query.go:164-218 | rewriting is done once: a second pass leaves a rewritten query alone |
| QueryRewrite.NamesKey | internal/app/query.go:186-190 | the loop answers whether some key is already named in the query |
| QueryRewrite.EnsureIdColumns | internal/app/query.go:164-218 | the method with its loop computes the rewrite as the code does it, `WithIdColumnsAsWritten` |
| QueryRewrite.AddKeys | internal/app/query.go:192-217 | once the query is a SELECT whose table has keys, the rest of the method computes `WithIdColumnsAsWritten` |
| QueryRewrite.AddsIdToSimpleSelect | internal/app/query.go:164-218 | "SELECT name FROM users" on a table keyed by `id` becomes "SELECT id, name FROM users" |
| QueryRewrite.LeadingSpaceGarblesColumns | internal/app/query.go:198-217 | with one space before SELECT, the code as written garbles the column list, while the intended rewrite does not |
| QueryRewrite.LeadingSpaceAsWritten | internal/app/query.go:198-217 | " SELECT name FROM users" becomes "SELECT id, T name  FROM users" |
| QueryRewrite.LeadingSpaceCorrected | internal/app/query.go:198-217 | " SELECT name FROM users" becomes "SELECT id, name FROM users" when the trimmed query is cut |
| Query.Completion | internal/app/query.go:273-320 | the query's result and its columns, run after the rewrite as the code does it, or the error it gave |
| Query.CompletionNamesKeys | internal/app/query.go:273-320 | a successful query that the rewrite applies to shows the rows of a statement that starts with "SELECT ", names every primary key of its table and ends with the typed query from the FROM position on |
| Query.QueryModel.constructor | internal/app/query.go:25-32 | `Initial`: an empty query with the caret at 0 and the focus on it, no results, no columns, the first row selected, no failure and no `g` pending |
| Query.QueryModel.Update | internal/app/query.go:40-55 | `UpdateEffect`: while the editor has the focus a key asks for `InputCmd`, and keys other than esc and enter edit the text as `EditKey`; otherwise the text is kept and the key has the `ResultsEffect` of `HandleResultsNavigation`; other messages change nothing; the cache, the results, the columns and the failure flag are never changed |
| Query.QueryModel.InputCmd | internal/app/query.go:57-105 | esc leaves for the table list, enter runs a non-blank query, and other keys ask for nothing |
| Query.QueryModel.ResultsCmd | internal/app/query.go:107-162 | esc or q leaves for the table list, enter opens the selected result, and other keys ask for nothing |
| Query.QueryModel.HandleQueryInput | internal/app/query.go:57-105 | the command is `InputCmd`; esc and enter leave the text alone, and any other key edits it as `EditKey` |
| Query.QueryModel.Edit | internal/app/query.go:67-103 | the query and caret become `EditKey` of the old ones |
| Query.QueryModel.DeleteWordLeft | internal/app/query.go:380-388 | the query and caret become `DeleteWordLeft` of the old ones |
| Query.QueryModel.HandleResultsNavigation | internal/app/query.go:107-162 | `ResultsEffect`: the command is `ResultsCmd`; `i` gives the focus back to the editor, and `gg`, `G`, up and down move the selection within the results |
| Query.QueryModel.HandleCompletion | internal/app/query.go:322-339 | `CompletionEffect`: the query text, its caret and the pending `g` stay; a failure is remembered and changes nothing else; a result replaces the results and columns, clears the failure, moves the focus to the first result row, and becomes the cache's rows as a query result on new rows of the heap, the rest of the cache kept |
| App.Model.constructor | internal/app/app.go:481-493 | the table list of the catalog in an 80x24 window, or a failed start with no screen when the catalog cannot be read |
| App.Model.GetShared | internal/app/app.go:612-629 | the screen's own cache, or a fresh empty one when there is no screen |
| App.Model.Update | internal/app/app.go:499-599 | ctrl+c quits and ctrl+z suspends; a kept error blocks forwarding; a forwarded message has the `UpdateEffect` of the screen on show (`ViewEffect`), which keeps the cache and the fields each screen's message leaves alone, except a window size on the table list; the switch messages have `SwitchEffect` and the cache messages `CacheEffect`; Go panics turn into `Crash` |
| App.Model.Pass | internal/app/app.go:501-517 | ctrl+c quits and ctrl+z suspends with nothing changed; the window size is recorded; any other message has the `UpdateEffect` of the screen on show (`ViewEffect`, frames included), except a window size on the table list |
| App.Model.Deliver | internal/app/app.go:592-598 | nothing while an error shows; the window size is recorded; otherwise the message has the `UpdateEffect` of the screen on show (`ViewEffect`, frames included), except a window size on the table list |
| App.Model.Resize | internal/app/app.go:501-509 | the dispatcher records the size, and so does the table list's cache when the table list is on show; another screen then has its own `UpdateEffect` of the message (`ViewEffect`, frames included) |
| App.Model.SwitchView | internal/app/app.go:519-568 | `SwitchEffect`: the table list, row detail, editor or query screen that the message names replaces the screen, on the same cache, with its constructor's fields (`Initial` for the table list and the query screen, focus and no `g` for the row detail, the caret after the text for the editor); the editor crashes exactly where `EditCell.Opens` fails; a query screen already on show only hands the focus to its results, keeping the cache and its other fields |
| App.Model.CacheMessage | internal/app/app.go:531-589 | `CacheEffect`: loading a table's page as `LoadResult` onto a fresh table-data screen in its `Initial` state; reloading as `LoadResult` and saving a cell as `UpdateResult` and returning to the row detail, the shown screen's own fields kept; a completed query has the `CompletionEffect` of `HandleCompletion` on the query screen; a failure shows as the error and keeps the screen |
| App.Model.ForwardUnlessFailed | internal/app/app.go:592-598 | nothing while an error shows; otherwise the `UpdateEffect` of the screen on show (`ViewEffect`, frames included), and a Go panic there halts |
| App.Model.ShowTableList | internal/app/app.go:519-529 | a fresh table list in its `Initial` state on the same cache, with the filter cleared for the clearing message |
| App.Model.ShowTableData | internal/app/app.go:531-539 | the table is selected and its page loaded as `LoadResult` onto a fresh table-data screen in its `Initial` state; a failure shows as the error, keeping the old screen and its fields |
| App.Model.Refresh | internal/app/app.go:570-575 | the current page reloaded as `LoadResult`, the shown screen's own fields kept; a failure shows as the error |
| App.Model.ShowRowDetail | internal/app/app.go:541-549 | a fresh row detail on the row, first column, remembering whether the row came from a query |
| App.Model.ShowEditCell | internal/app/app.go:551-553 | the editor on the cell; a row past the end opens it on ""; a crash only for a negative row, or a negative column of an existing row |
| App.Model.ShowQuery | internal/app/app.go:555-557 | a fresh query screen in its `Initial` state on the same cache |
| App.Model.SaveCell | internal/app/app.go:577-582 | the cell is written as `UpdateResult`, negative indices included; a failure shows as the error, a panic halts, and otherwise the row detail returns, the shown screen's own fields kept |
| LegacyTableList.Containing | table_list.go:114-131 | the tables whose lower-cased name contains the lower-cased search, in catalog order |
| LegacyTableList.ContainingAppend | table_list.go:114-131 | the filter of two lists, one after the other, is the two filters one after the other |
| LegacyTableList.EmptySearchKeepsAll | table_list.go:114-131 | every name contains the empty search, so the copy made for it is what the filter would give |
| LegacyTableList.KeepContaining | table_list.go:119-129 | the loop computes `Containing` |
| LegacyTableList.TableListModel.constructor | table_list.go:19-25 | `Initial`: the first name selected, on the first page, no search and the box closed |
| LegacyTableList.TableListModel.Update | table_list.go:31-40 | `UpdateEffect`: a key has the `SearchInputEffect` of `HandleSearchInput` while searching, with no command, and the `NavigationEffect` of `HandleNavigation` otherwise; other messages change nothing; only the names and the filtered list of the cache change, and the selection stays on the list |
| LegacyTableList.TableListModel.HandleSearchInput | table_list.go:42-59 | `SearchInputEffect`: esc and enter leave the search and keep its text; backspace drops the last byte and a one-byte key is appended; the list is refiltered as `Refiltered` states: a selection that fell off the end returns to the first name on the first page, and otherwise the selection and the page stay |
| LegacyTableList.TableListModel.HandleNavigation | table_list.go:61-112 | `NavigationEffect`: `/` opens an empty search, enter opens the selected table, `s` opens the query screen, all three keeping the selection and the page; r reloads the catalog and refilters as `Refiltered`, or changes nothing when the catalog cannot be read; every other key has `Move`'s `MoveEffect`; the selection stays on the list and its page stays shown |
| LegacyTableList.TableListModel.Reload | table_list.go:78-82 | the catalog is reloaded and, when that worked, the list refiltered as `Refiltered`; otherwise the names, the list, the selection and the page stay |
| LegacyTableList.TableListModel.Move | table_list.go:83-110 | `MoveEffect`: up and down one name, with the page following the selection, or nothing at either end; left and right one page, selecting its first name, or nothing on the first or last page; other keys move nothing |
| LegacyTableList.TableListModel.AdjustPage | table_list.go:142-145 | the page becomes the one holding the selection |
| LegacyTableList.TableListModel.PageLeft | table_list.go:95-100 | one page back, selecting its first name; nothing on the first page |
| LegacyTableList.TableListModel.PageRight | table_list.go:101-110 | one page on, selecting its first name; nothing on the last page |
| LegacyTableList.TableListModel.FilterTables | table_list.go:114-131 | `Refiltered`: the filtered list becomes what `Filtered` describes; a selection that fell off the end returns to the first name on the first page, and otherwise the selection and the page stay |
| LegacyTableData.ContainingRows | table_data.go:107-131 | the rows with a cell containing the search, both lower-cased, in page order |
| LegacyTableData.EmptySearchKeepsRowsWithCells | table_data.go:107-131 | the empty search keeps every row that has a cell, so the page copied for it differs only in rows without cells |
| LegacyTableData.AnyCellContains | table_data.go:116-124 | the inner loop answers whether some cell contains the search |
| LegacyTableData.KeepRows | table_data.go:112-127 | the outer loop computes `ContainingRows` |
| LegacyTableData.VisibleRowCount | table_data.go:133-139 | the height less 9 reserved lines, or less 11 while searching, and 1 when that leaves none; never more while searching than otherwise |
| LegacyTableData.TableDataModel.constructor | table_data.go:18-23 | `Initial`: the first row, no search and the box closed |
| LegacyTableData.TableDataModel.Update | table_data.go:29-38 | `UpdateEffect`: a key has the `SearchInputEffect` of `HandleSearchInput` while searching and the `NavigationEffect` of `HandleNavigation` otherwise; other messages change nothing; the selection and the page stay in range |
| LegacyTableData.TableDataModel.HandleSearchInput | table_data.go:40-57 | `SearchInputEffect`: esc and enter leave the search and keep its text; backspace and one-byte keys edit it, and the rows are refiltered as `DataFiltered` on the same page, a selection that fell off the end returning to the first row; only `FilteredData` changes in the cache |
| LegacyTableData.TableDataModel.HandleNavigation | table_data.go:59-105 | `NavigationEffect`: esc back, enter opens a shown row, r reloads, up and down stay on the page, left and right step the page and ask for a reload; only the page number changes in the cache |
| LegacyTableData.TableDataModel.FilterData | table_data.go:107-131 | `FilteredData` becomes what `DataFiltered` describes; a selection that fell off the end returns to the first row |
| LegacyRowDetail.VisibleRowCount | row_detail.go:68-71 | the height less 9 reserved lines, and 1 when that leaves none |
| LegacyRowDetail.ColWidth | row_detail.go:86 | a third of the width, and at least 15 |
| LegacyRowDetail.ValueWidth | row_detail.go:87 | what the name column and the separator leave, and at least 20 |
| LegacyRowDetail.DisplayRows | row_detail.go:100-101 | all the columns when they fit, else as many as the view shows |
| LegacyRowDetail.LineWidth | row_detail.go:86-95 | a line of the layout is two bytes narrower than the terminal once that is 40 wide, and 38 wide below that |
| LegacyRowDetail.RowDetailModel.constructor | row_detail.go:17-23 | the first column selected |
| LegacyRowDetail.RowDetailModel.Update | row_detail.go:29-35 | `UpdateEffect`: a key has the `NavigationEffect` of `HandleNavigation`; other messages change nothing; the cache is never changed and the selection stays in range |
| LegacyRowDetail.RowDetailModel.NavigationCmd | row_detail.go:37-66 | esc goes back to the rows, enter opens the editor exactly when the row and the column exist, r reloads, and nothing else asks for anything |
| LegacyRowDetail.RowDetailModel.HandleNavigation | row_detail.go:37-66 | `NavigationEffect`: the command is `NavigationCmd`, and up and down step the column within the columns |
| LegacyEditCell.EditCellModel.constructor | edit_cell.go:20-34 | the cell's text as both the original and the edited value, with the caret at its end |
| LegacyEditCell.EditCellModel.Update | edit_cell.go:40-62 | `UpdateEffect`: esc goes back to the row, enter asks to save the edited value, any other key edits as `EditKeyWithKills`; other messages change nothing; the cache is never changed |
| LegacyEditCell.EditCellModel.Edit | edit_cell.go:64-120 | the text and caret become `EditKeyWithKills` of the old ones |
| LegacyEditCell.EditCellModel.Move | edit_cell.go:64-103 | the text and caret become `EditKey` of the old ones, with the earlier variant's white space |
| LegacyQuery.FromWord | query.go:382-417 | none when " from " does not occur in the lower-cased, trimmed query; otherwise the first run of non-space bytes after it, and none exactly when that run is empty |
| LegacyQuery.FirstNamed | query.go:382-417 | the first table whose lower-cased name is the word, in its own case, or "" |
| LegacyQuery.SourceTable | query.go:382-417 | `detectSourceTable` as a function of the query and the table names |
| LegacyQuery.SourceTableIgnoresCase | query.go:382-417 | the guess does not depend on the letter case the query is typed in |
| LegacyQuery.FromWordIgnoresCase | query.go:382-417 | the word after " from " is the same for a query and for its lower-cased form |
| LegacyQuery.TrimSpaceOfLower | query.go:382-417 | trimming and lower-casing commute |
| LegacyQuery.ResultsMove | query.go:151-179 | the selection stays within the results; up moves one row up unless on the first row, down one row down unless on the last; page up goes ten rows up but not above 0, page down ten rows down but not past the last row; home goes to the first row and end to the last; other keys keep it |
| LegacyQuery.FindNamed | query.go:382-417 | the loop over the table names computes `FirstNamed` |
| LegacyQuery.QueryModel.constructor | query.go:22-28 | `Initial`: an empty query with the caret at 0 and the focus on it, no results, no columns and the first row selected |
| LegacyQuery.QueryModel.Update | query.go:34-40 | `UpdateEffect`: a key has the `InputEffect` of `HandleInput`; other messages change nothing |
| LegacyQuery.QueryModel.HandleInput | query.go:42-87 | `InputEffect`: esc asks for the table list and changes nothing; tab moves the focus to results that exist; enter runs the query as `Execute` states (`ExecuteEffect`) while the input has the focus, and opens the selected result as `OpenSelected` states (`OpenEffect`) otherwise; other keys edit as `EditKeyWithKills` or move as `ResultsMove` |
| LegacyQuery.QueryModel.Execute | query.go:223-271 | a blank query does nothing, and neither does one the database refuses; otherwise the results and columns are replaced and the first row selected |
| LegacyQuery.QueryModel.OpenSelected | query.go:64-77 | when the selected row is a result, the results become the cache's rows as a query result with the guessed source table, and the row detail opens |
| LegacyQuery.QueryModel.DetectSourceTable | query.go:382-417 | returns `SourceTable` of the query and the table names |
| LegacyQuery.QueryModel.Navigate | query.go:151-179 | the selection becomes `ResultsMove` of the old one |
| LegacyQuery.QueryModel.Edit | query.go:89-149 | the query and caret become `EditKeyWithKills` of the old ones |
| LegacyQuery.QueryModel.Move | query.go:89-130 | the query and caret become `EditKey` of the old ones, with the earlier variant's white space |
| LegacyApp.Model.constructor | main.go:500-517 | the table list of the catalog in an 80x24 window, or a failed start when the catalog cannot be read |
| LegacyApp.Model.GetShared | main.go:614-631 | the screen's own cache, or a fresh empty one when there is no screen |
| LegacyApp.Model.Update | main.go:523-605 | q and ctrl+c quit from every screen, even while searching; a kept error blocks forwarding; a forwarded message has the `UpdateEffect` of the screen on show (`ViewEffect`), which keeps the cache and the fields each screen's message leaves alone, except a window size on the table list; the switch messages have `SwitchEffect` and the cache messages `CacheEffect` |
| LegacyApp.Model.Pass | main.go:525-538 | q and ctrl+c quit with nothing changed; the window size is recorded; any other message has the `UpdateEffect` of the screen on show (`ViewEffect`, frames included), except a window size on the table list |
| LegacyApp.Model.Deliver | main.go:598-604 | nothing while an error shows; the window size is recorded; otherwise the message has the `UpdateEffect` of the screen on show (`ViewEffect`, frames included), except a window size on the table list |
| LegacyApp.Model.Resize | main.go:525-533 | the dispatcher records the size, and so does the table list's cache when the table list is on show; another screen then has its own `UpdateEffect` of the message (`ViewEffect`, frames included) |
| LegacyApp.Model.SwitchView | main.go:540-581 | `SwitchEffect`: the table list, row detail, editor or query screen that the message names replaces the screen, on the same cache, with its constructor's fields (`Initial` for the table list and the query screen, the caret after the text for the editor); the editor crashes exactly where `EditCell.Opens` fails; a query screen already on show only hands the focus to its results, keeping the cache, the text, the caret, the selection and the columns |
| LegacyApp.Model.CacheMessage | main.go:544-595 | `CacheEffect`: loading a table's page as `LoadResult` onto a fresh table-data screen in its `Initial` state; reloading as `LoadResult` and saving a cell as `UpdateResult` and returning to the row detail, the shown screen's own fields kept; a failure shows as the error and keeps the screen |
| LegacyApp.Model.ForwardUnlessFailed | main.go:598-604 | nothing while an error shows; otherwise the `UpdateEffect` of the screen on show (`ViewEffect`, frames included), and a Go panic there halts |
| LegacyApp.Model.ShowTableList | main.go:540-542 | a fresh table list in its `Initial` state on the same cache |
| LegacyApp.Model.ShowTableData | main.go:544-552 | the table is selected and its page loaded as `LoadResult` onto a fresh table-data screen in its `Initial` state; a failure shows as the error, keeping the old screen and its fields |
| LegacyApp.Model.Refresh | main.go:583-588 | the current page reloaded as `LoadResult`, the shown screen's own fields kept; a failure shows as the error |
| LegacyApp.Model.ShowRowDetail | main.go:554-562 | both row-detail messages open a fresh row detail on the row |
| LegacyApp.Model.ShowEditCell | main.go:564-566 | the editor on the cell; a row past the end opens it on ""; a crash only for a negative row, or a negative column of an existing row |
| LegacyApp.Model.ShowQuery | main.go:568-570 | a fresh query screen in its `Initial` state on the same cache |
| LegacyApp.Model.SaveCell | main.go:590-595 | the cell is written as `UpdateResult`, negative indices included; a failure shows as the error, a panic halts, and otherwise the row detail returns, the shown screen's own fields kept |

## Left out

- Database I/O. The SQLite database is the value `Session.Store`, and every query is a lookup in it. The PRAGMA, COUNT and paged SELECT queries are all read from the table's stored `contents`. SQL semantics beyond that are not modelled: the UPDATE is produced as a statement and never run against rows of the store.
- Scan errors, `fmt` formatting of values (`%v`) and `NULL` handling: cells are strings as stored.
- The database fallback of `findColumnValue` (internal/app/app.go:321-361) is the opaque `store.fallback`. The model only says when it is consulted.
- The Bubble Tea `textinput`, `help` and `key` libraries are not modelled. A search box's new text after a key is given as the parameter `typed`, and key bindings are the key names the keymaps in the `*_keys.go` files assign by default.
- Rendering (`View`) is not modelled, except the layout widths of the earlier row detail and the window of rows the current row browser shows.
- The cursor blink timer, and the `Focus`, `Blur` and `ID` plumbing, are not modelled. Each screen's focus flag is modelled, because `Update` reads it.
- The root `model` refers to a `fromQuery` field that its declaration lacks (main.go:558-562). The model treats both row-detail messages alike.
- Case folding is ASCII only (`GoText.ToLower`). Go's `strings.ToLower` also folds non-ASCII letters.
- White space is ASCII only (`GoText.IsAsciiSpace`: space, tab, newline, vertical tab, form feed, carriage return). Go's `strings.TrimSpace` and `strings.Fields` also treat Unicode white space such as U+0085 and U+00A0 as white space, so for text holding those the trimming, the fields and the table names found here differ from Go's.
- Query.Completion: the background command `executeQuery` returns is run at once, and its result is handed to the screen as a `QueryCompletedMsg`.
- Go panics (indexing out of range, a nil screen) are modelled as the dispatcher halting with `Crash`; the runtime's recovery and printing are not modelled.
- App.Model.Pass: the window size is written into the cache only when the table list is on show, as internal/app/app.go:505-508 does; the other screens keep the size they had.
- App.Model.Update, App.Model.Pass, App.Model.Deliver, App.Model.Resize: for a window size while the table list is on show, the contract does not restate the table list's own `UpdateEffect` of the message, because the new size is written into its cache before the message reaches it. The message is still forwarded.
- LegacyApp.Model.Update, LegacyApp.Model.Pass, LegacyApp.Model.Deliver, LegacyApp.Model.Resize: likewise for main.go:529-532.
- Commands are modelled as the message they deliver, built from the screen's fields when the key is handled. In Go the command is a closure that reads those fields through the screen it was made by, only when the runtime runs it, so a key handled in between (enter and then down, say, which opens the next row) changes the message. This affects internal/app/table_list.go:192-194, internal/app/table_data.go:179-181, internal/app/edit_cell.go:60-66, internal/app/query.go:139-142, internal/app/row_detail.go:97 and 119-122, table_list.go:70-72, table_data.go:71-73, row_detail.go:40-49, edit_cell.go:51-62 and query.go:73-75.
- TableList.TableListModel.HandleNavigation promises that the selection stays on its page only while the page size is unchanged. A resize can change the page size between keys, after which the selection and the page can disagree until the next key that adjusts the page.
- LegacyApp.Model.Update does not keep the query screen's invariant that the results have the focus only when there are some: the return to the query screen moves the focus to the results even when there are none, so that invariant is stated for `LegacyQuery.QueryModel.Update` alone.
- Query.QueryModel.HandleCompletion: the results go to fresh rows of the heap and the screen keeps its own copy. In Go the screen's `results` and the cache's `FilteredData` are the same slice (internal/app/query.go:328-332), so a cell saved from a query result also shows in the query screen's results; in the model it does not.
- LegacyQuery.QueryModel.Execute: a scan error part-way through the results of the earlier variant is not modelled, and the results are stored in fresh rows, so the screen and the cache do not alias.
- Util.TruncateString requires a `maxLen` of at least 3 for text that does not fit: below that, Go's slice `s[:maxLen-3]` panics there, and that panic is left out rather than modelled; the callers are the views, which are not modelled.
- Composite primary keys: Go keeps only the columns whose `pk` is 1 (internal/app/app.go:126 and 302, internal/app/query.go:265, main.go:145 and 321), which is the first column of a composite key. The model does the same, so for such a table the UPDATE's WHERE clause (`Session.UpdateKeyArguments`) matches every row that shares the value of that first column, and the database writes all of them. The model does not track the stored rows the UPDATE changes.
- `cmd/root.go`, `main()` and the opening of the database file are not modelled.

## Findings

| source | as written | input that shows it | evidently intended | confidence | as-written member | corrected member |
|---|---|---|---|---|---|---|
| internal/app/query.go:198-217 | the positions of SELECT and FROM are found in the trimmed, lower-cased query but used to cut the untrimmed query | " SELECT name FROM users" on a table `users` keyed by `id` becomes "SELECT id, T name  FROM users" | "SELECT id, name FROM users" | not executed | QueryRewrite.WithIdColumnsAsWritten | QueryRewrite.WithIdColumns |

The query screen runs the query as the code rewrites it (`QueryRewrite.EnsureIdColumns`, `Query.Completion`), so the model keeps the behaviour the row describes. `QueryRewrite.WithIdColumns` is the intended rewrite, and `QueryRewrite.AsWrittenAgreesWhenTrimmed` proves that the two agree on every query typed without white space around it.
