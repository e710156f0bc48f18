# book_keeper: the book-log table logic

book_keeper keeps a reading log. The user's data is one table of
snapshots: one row per book (`slug`) per calendar day (`log_created_at`,
in the older revision `current_date`). A row holds the book's metadata,
its current page, an optional finish date, and the `started` and
`deleted` flags. This project models the in-memory operations on that
table and proves what they promise. It covers both revisions of the
code: the `src/utils/` package (`BookKeeperDataOps`, `BookKeeperIO`) and
the older monolithic `src/utils.py`.

Modules, one concept each:

- `Tables` holds the shared types: `Row`, `Table = seq<Row>`, the `Option`, `Result` and `Error` datatypes, and `Where`. `Where` is a boolean-mask query that keeps row order.
- `Strings` gives Python's ordering of `str` and the sorted distinct values that `unique()` returns after a sort.
- `Classifier` is `add_books_state`: an in-place array algorithm plus the copying version.
- `Backdate` is `backdate_books`.
- `Timeline`, `TimelineFacts` and `DenseFacts` are `fill_up_dataframe`. `Timeline` holds the specification functions and the step-by-step methods. `TimelineFacts` and `DenseFacts` hold what the dense timeline promises.
- `BookFill` is `fill_up_book_df`: a loop proved against a functional definition of the loop state.
- `Lookup` is `get_closest_date_pagecount_for_book`.
- `Query` holds the property filter, `filter_books`, the per-book log selection and the earliest log of a set of books.
- `Slug` is the newer `_create_slug`.
- `BookIO` is the newer `BookKeeperIO`: the latest version per book, soft deletion, the day's batch, and add, update, delete and revert.
- `Store` is the `ON CONFLICT` upsert that `save_books` sends for each row, modelled as an update of a map keyed by (slug, date).
- `ExampleData` is the fixture table.
- `Legacy` covers what the older revision does differently: its slug rule, its in-place `add_books_state` and `backdate_books`, its copying `fill_up_dataframe`, and its IO class.
- The rest of the older revision is the same code under another column name and is modelled once. That covers `filter_book_by_property`, `filter_books`, `get_logs_for_book`, `fill_up_book_df`, `get_earliest_log_for_books`, `get_latest_book_version`, `get_deleted_books`, `remove_deleted_books`, `update_book`, `delete_book` and `revert_deletion_book` (src/utils.py:98, 125-135, 149, 165-180, 279-280, 482-553, 587-588, 649-654).

Conventions:

- Dates are day numbers, with 1970-01-01 as day 0.
- A null finish date or state is `None`.
- "Today" is a parameter.
- A stored table is passed in as an `Option<Table>`: `None` means the user has no table yet.
- Python exceptions on the modelled paths become `Result.Err`:
  - `EmptyDateRange` is `pd.date_range` over the NaT bounds of an empty frame.
  - `IndexOutOfBounds` is `iloc` or `[0]` past the end.
  - `UnboundLocal` is a local read before it was assigned.
  - `UnknownColumn` is a query on a column the frame lacks.
  - `MalformedQuery` is a value pasted into query text that does not read back as itself.

Behaviour of the code worth knowing (the model follows the code in each case):

- `fill_up_dataframe` on an empty table raises. `pd.date_range` over NaT bounds fails, so the model returns `Err(EmptyDateRange)` instead of an empty timeline.
- `filter_books` compares author and publisher with `==`. It is not a membership test.
- `get_logs_for_book` pastes the slug between quotes into the query text, unlike `filter_book_by_property`, which binds its value with `@`. The query text is split into lines as `str.splitlines` does, so a slug with a quote, a backslash or a line break (`\n`, `\r`, `\x0b`, `\x0c`, `\x1c`-`\x1e`, `\x85`, `\u2028`, `\u2029`) breaks that query. So does a NUL character, which Python's parser refuses in source text. Slugs of the newer rule never hold a quote, a backslash or a NUL, but they keep line breaks, which `\s` lets through. The older rule keeps apostrophes and NUL too, so "Ender's Game" gives such a slug.
- The closest-date lookup takes the left insertion point, which is the first log on or after the date, not the last one before it. Past the last log it raises.
- The newer revision's fixture table still has the older `current_date` column. So `get_updated_tables` without a stored table fails on its `log_created_at` query (`Err(UnknownColumn)`). The older `update_tables` works on the same fixture.
- The fixture's "unfinished" rows carry the finish date 1990-01-01, which is not null. So every fixture row classifies as finished.
- An upsert that inserts stores `started` as given. One that overwrites recomputes it from `page_current`.

## Model

| member | source | states |
|---|---|---|
| `Classifier.StateOf` | src/utils/bk_data_ops.py:265-269 | finished iff a finish date is present; in progress iff no finish date and a positive page; not started otherwise |
| `Classifier.ClassifiedOnlyWritesState` | src/utils/bk_data_ops.py:263-271 | classification keeps row count, order and every column but `state`, and sets `state` to the row's class |
| `Classifier.ClassifyIdempotent` | src/utils/bk_data_ops.py:265-269 | classifying a classified table changes nothing |
| `Classifier.ClassifyInPlace` | src/utils.py:292-299 | the three masked writes in order leave the array equal to the classified table |
| `Classifier.MarkNotStarted` | src/utils.py:292 | every row's state becomes not started, nothing else changes |
| `Classifier.MarkInProgress` | src/utils.py:293-295 | exactly the rows with a positive page become in progress |
| `Classifier.MarkFinished` | src/utils.py:296-298 | exactly the rows with a finish date become finished |
| `Classifier.AddBooksState` | src/utils/bk_data_ops.py:263-271 | returns a fresh classified copy and leaves the caller's frame as it was |
| `Backdate.Redate` | src/utils/bk_data_ops.py:168 | same length and slugs; each row differs from its source row only in the log date, which is now its finish date |
| `Backdate.BackdateBooks` | src/utils/bk_data_ops.py:163-169 | every returned row is finished and dated on its finish date; no more rows than the input |
| `Backdate.BackdateExactly` | src/utils/bk_data_ops.py:163-169 | a row is in the correction set iff it is the corrected copy of an input row logged after its finish date |
| `Backdate.BackdateSound` | src/utils/bk_data_ops.py:164-168 | each correction comes from an input row logged after it was finished |
| `Backdate.BackdateComplete` | src/utils/bk_data_ops.py:164-168 | each input row logged after its finish date yields its correction |
| `Timeline.Augmented` | src/utils/bk_data_ops.py:185-186 | the original rows come first and unchanged; the result is empty iff the input is |
| `Timeline.UniqueSlugs` | src/utils/bk_data_ops.py:189-197 | the distinct slugs, strictly ascending in Python string order |
| `Timeline.Matches` | src/utils/bk_data_ops.py:204-206 | the rows the left merge joins onto the key (slug, day), and exactly those |
| `Timeline.FillUpDataframe` | src/utils/bk_data_ops.py:185-220 | the returned timeline is the dense timeline of the log |
| `Timeline.FillUpAugmented` | src/utils/bk_data_ops.py:189-220 | the successive steps compute the specified grid, fill and zero fill |
| `Timeline.DateRange` | src/utils/bk_data_ops.py:192-194 | the global minimum and maximum log date |
| `Timeline.MatchRows` | src/utils/bk_data_ops.py:204-206 | the scan finds exactly the joined rows of one key |
| `Timeline.MergeColumn` | src/utils/bk_data_ops.py:197-206 | one slug's merged rows over the date range |
| `Timeline.CrossMerge` | src/utils/bk_data_ops.py:197-210 | the cross join of slugs and days, left-merged, in (slug, day) order |
| `Timeline.FillForward` | src/utils/bk_data_ops.py:213-215 | the per-slug forward fill of the page column |
| `Timeline.FillNullPages` | src/utils/bk_data_ops.py:218 | remaining null pages become 0 |
| `TimelineFacts.AugmentedRows` | src/utils/bk_data_ops.py:185-186 | the concatenation holds the originals and the corrections, nothing else |
| `TimelineFacts.AugmentedSlugs` | src/utils/bk_data_ops.py:185-186 | backdating adds no book |
| `TimelineFacts.MatchesAtMostOne` | src/utils/bk_data_ops.py:204-206 | without repeated keys a grid key joins at most one row |
| `TimelineFacts.GridGapCarry` | src/utils/bk_data_ops.py:213-215 | the value carried into a gap comes from the same book's earlier days only |
| `TimelineFacts.ColumnLastKnown` | src/utils/bk_data_ops.py:222-224 | the fill carries nothing iff the book has no log in range, else the page of its latest logged day |
| `DenseFacts.FilledAt` | src/utils/bk_data_ops.py:206-218 | row i is grid cell i with its page filled from the earlier cells of its book |
| `DenseFacts.FilledKey` | src/utils/bk_data_ops.py:213-218 | filling keeps the key and the log columns of every row |
| `DenseFacts.DenseTimelineFails` | src/utils/bk_data_ops.py:192-194 | the timeline fails iff the log is empty, with the date-range error |
| `DenseFacts.DenseRowsMerged` | src/utils/bk_data_ops.py:192-206 | each row is of a known book, inside the global range, and a joined row carries its log's key and page |
| `DenseFacts.DenseCoverage` | src/utils/bk_data_ops.py:192-201 | every book appears on every day of the global range |
| `DenseFacts.DenseKeepsLogs` | src/utils/bk_data_ops.py:204-206 | every log row and every correction survives the merge with its page |
| `DenseFacts.DenseOrdered` | src/utils/bk_data_ops.py:209-210 | the rows are in (slug, day) order |
| `DenseFacts.DenseUniqueKeys` | src/utils/bk_data_ops.py:197-210 | without repeated keys there is exactly one row per (slug, day), strictly ascending |
| `DenseFacts.DenseRepeatedKey` | src/utils/bk_data_ops.py:204-206 | a key repeats in the timeline iff two rows of the augmented log carry it |
| `DenseFacts.BackdatedOntoLog` | src/utils/bk_data_ops.py:185-186 | a book logged on its finish day and later again gets that day twice |
| `DenseFacts.DenseGapPage` | src/utils/bk_data_ops.py:213-218 | a gap shows 0 before the book's first log, else the page of its latest earlier log |
| `BookFill.RowsOn` | src/utils/bk_data_ops.py:138 | the rows of one day, exactly; `get_updated_tables` takes the day's batch with the same filter |
| `BookFill.FillUpBookDf` | src/utils/bk_data_ops.py:133-148 | the loop computes the functional fill, including its error |
| `BookFill.RunStaysErr` | src/utils/bk_data_ops.py:136-146 | once the loop has raised, later dates change nothing |
| `BookFill.LoggedIsEligible` | src/utils/bk_data_ops.py:135-136 | a date with rows passes the first-log filter |
| `BookFill.LatestLoggedIsLast` | src/utils/bk_data_ops.py:140-141 | `latest_log` is unbound iff no date so far has rows, else the first row of the last such date |
| `BookFill.RunState` | src/utils/bk_data_ops.py:136-146 | the loop state is the latest logged row and one copy per gap so far, in date order |
| `BookFill.RunFails` | src/utils/bk_data_ops.py:143-144 | the loop raises iff some gap precedes every logged date |
| `BookFill.FillUpBookFails` | src/utils/bk_data_ops.py:133-148 | the function raises (unbound `latest_log`) iff a date without rows comes before any date with rows |
| `BookFill.Added` | src/utils/bk_data_ops.py:148 | the result is the added copies followed by the book's rows |
| `BookFill.FillUpBookKeeps` | src/utils/bk_data_ops.py:148 | the original rows come last, unchanged, after exactly one row per gap |
| `BookFill.FillUpBookCopies` | src/utils/bk_data_ops.py:143-145 | each added row is the first row of the latest logged date before its gap, re-dated |
| `BookFill.FillUpBookCovers` | src/utils/bk_data_ops.py:136-146 | every eligible date has a row in the result |
| `BookFill.FillUpBookOnlyGaps` | src/utils/bk_data_ops.py:136-146 | every row is original or sits on a given gap date |
| `BookFill.FillUpEmptyBook` | src/utils/bk_data_ops.py:135-136 | an empty book comes back empty for any dates |
| `Lookup.InsertByDate` | src/utils/bk_data_ops.py:116 | insertion keeps ascending date order and adds exactly one row |
| `Lookup.SortByDate` | src/utils/bk_data_ops.py:116 | the sort is ascending by date and a permutation |
| `Lookup.SearchSorted` | src/utils/bk_data_ops.py:117 | the left insertion point: every earlier row is before the date, the row at it is not |
| `Lookup.SearchSortedCounts` | src/utils/bk_data_ops.py:117 | on a sorted table the insertion point counts the rows before the date |
| `Lookup.ClosestIndexCounts` | src/utils/bk_data_ops.py:115-117 | the index used is the number of the book's logs dated before the target |
| `Lookup.ClosestIsFirstAtOrAfter` | src/utils/bk_data_ops.py:115-117 | a result means the slug was literal-safe; it is a log of the book, on or after the target, and no log of the book lies between |
| `Lookup.ClosestFails` | src/utils/bk_data_ops.py:115-117 | the lookup raises iff the slug breaks the query text (a quote, backslash, NUL or line break) or every log of the book is dated before the target, with the matching error |
| `Query.BookRows` | src/utils/bk_io.py:242-244 | the mask selection of one book: exactly its rows |
| `Query.LogsForBook` | src/utils/bk_data_ops.py:99 | an error iff the slug holds a quote, a backslash, a NUL or a line break; otherwise exactly the rows of the slug |
| `Query.FilterBookByProperty` | src/utils/bk_data_ops.py:49 | exactly the rows whose cell equals the value; a null cell matches nothing |
| `Query.LogsForBookIsPropertyFilter` | src/utils/bk_data_ops.py:99 | the log selection equals the property filter on the slug column exactly for literal-safe slugs (no quote, backslash, NUL or line break), and is an error otherwise |
| `Query.FilterBooksConjunctive` | src/utils/bk_data_ops.py:76-85 | the chained queries are one query on the conjunction of the supplied criteria, in table order |
| `Query.FilterBooksMembers` | src/utils/bk_data_ops.py:76-85 | a row survives iff it meets every supplied criterion |
| `Query.FilterBooksNoCriteria` | src/utils/bk_data_ops.py:77-84 | with every field falsy the table comes back unchanged |
| `Query.EarliestLogForBooks` | src/utils/bk_data_ops.py:250-251 | none iff no row of the books exists, else the least of their dates, and attained |
| `Slug.Keep` | src/utils/bk_io.py:453 | exactly the characters of `[a-zA-Z0-9\s-]` are kept, in order |
| `Slug.DashSpaces` | src/utils/bk_io.py:453 | same length, no space left, text without spaces unchanged, and every character other than space and dash survives exactly when present |
| `Slug.DashSpacesAppend` | src/utils/bk_io.py:453 | the replacement distributes over concatenation |
| `Slug.SlugCharsOnly` | src/utils/bk_io.py:452-456 | a slug has no space, no upper-case letter, only slug characters |
| `Slug.KeepAllKept` | src/utils/bk_io.py:453 | text of kept characters passes the substitution unchanged |
| `Slug.KeepAppend` | src/utils/bk_io.py:453 | the substitution distributes over concatenation |
| `Slug.PartIdempotent` | src/utils/bk_io.py:452-455 | slugifying a slugified part changes nothing |
| `BookIO.LatestDay` | src/utils/bk_io.py:306-308 | none iff the book has no row, else the largest of its dates, and attained |
| `BookIO.LatestBookVersion` | src/utils/bk_io.py:306-311 | the inner merge keeps a subset of the rows |
| `BookIO.LatestMembers` | src/utils/bk_io.py:306-311 | a row is kept iff no row of its book is later; ties are all kept |
| `BookIO.LatestKeepsEverySlug` | src/utils/bk_io.py:306-311 | every book of the input is in the output, and no other |
| `BookIO.LatestOneDatePerBook` | src/utils/bk_io.py:306-311 | the kept rows of a book share one date |
| `BookIO.LatestIdempotent` | src/utils/bk_io.py:306-311 | taking the latest version twice changes nothing |
| `BookIO.RemoveDeletedMembers` | src/utils/bk_io.py:260-261 | a row is kept iff no row of its book is marked deleted |
| `BookIO.RemoveDeletedIdempotent` | src/utils/bk_io.py:439 | no deleted book remains, so removing twice is removing once |
| `BookIO.AppendBookToDf` | src/utils/bk_io.py:374-388 | earlier rows unchanged, then one row dated today with the flag, `started` from the page and no finish date unless finished |
| `BookIO.AddChecked` | src/utils/bk_io.py:127-133 | added iff the slug is neither in the batch nor stored; a refusal returns the frame unchanged |
| `BookIO.AddAppendsOnce` | src/utils/bk_io.py:130-133 | after an add, the book has exactly one row, the new one, at the end |
| `BookIO.UpdateChecked` | src/utils/bk_io.py:159 | an update always reports success |
| `BookIO.UpdateReplaces` | src/utils/bk_io.py:152-159 | after an update the book has exactly one row, the new one, last; the other books' rows are unchanged and in order |
| `BookIO.SetDeletedOnlyFlag` | src/utils/bk_io.py:239 | only the deletion flag of the book's rows changes |
| `BookIO.MarkDeleted` | src/utils/bk_io.py:239 | the masked write in place sets the flag of exactly the book's rows |
| `BookIO.RevertUndoesDelete` | src/utils/bk_io.py:177-179 | revert after delete clears the book's flags, restoring a batch where none was set |
| `BookIO.DeleteHidesBook` | src/utils/bk_io.py:238-261 | after deletion the book's rows are filtered out and all others are kept |
| `BookIO.DeleteBook` | src/utils/bk_io.py:238-248 | a batch book is flagged in place; otherwise its first latest row is appended flagged, or the lookup raises when it has none |
| `BookIO.RevertDeletionBook` | src/utils/bk_io.py:177-181 | reverted iff the book is in the batch, whose flags it then clears in place |
| `BookIO.BookKeeperIO.constructor` | src/utils/bk_io.py:60 | no slugs are known yet |
| `BookIO.BookKeeperIO.GetAllBooks` | src/utils/bk_io.py:274-282 | the stored table refreshes the known slugs; without one the fixture table is returned |
| `BookIO.NewSlugsQueryable` | src/utils/bk_io.py:451-455 | when author and title hold no line break, the newer slug is literal-safe, so its log query selects exactly its rows |
| `BookIO.LineBreakBreaksLogQuery` | src/utils/bk_io.py:451-455 | a line break in author or title survives into the newer slug, and the log query on it is an error |
| `BookIO.LineSeparatorLogsFail` | src/utils/bk_io.py:451-455 | a book whose author holds a line separator (U+2028) gets a slug whose log query fails |
| `Slug.PartCharOrigin` | src/utils/bk_io.py:451-454 | every character of a cleaned part is an ASCII letter or digit, a dash, or a character of the input |
| `Slug.PartKeepsSpace` | src/utils/bk_io.py:451-454 | a whitespace character other than the plain space is kept by the cleaning, at some index of the part |
| `BookIO.BookKeeperIO.GetUpdatedTables` | src/utils/bk_io.py:70-79 | all books, today's batch and the latest version; errors for an empty table and for the fixture; the known slugs are refreshed exactly when a table is stored |
| `BookIO.BookKeeperIO.AddBook` | src/utils/bk_io.py:125-133 | the slug-checked add with the slug computed from author and title |
| `BookIO.BookKeeperIO.UpdateBook` | src/utils/bk_io.py:152-159 | the update checked against the batch and the known slugs |
| `Store.Overwrite` | src/utils/bk_io.py:406-425 | the key and state are kept; the listed columns come from the new row; `started` is recomputed |
| `Store.Upsert` | src/utils/bk_io.py:403-427 | the key is added; a new key stores the row as given; an overwritten key gets the new listed columns, `started` recomputed from the current page and the stored `state` kept; other keys are untouched; key consistency is kept |
| `Store.UpsertAllKeys` | src/utils/bk_io.py:100-102 | the keys after saving are the old keys and the frame's keys |
| `Store.UpsertAllKeyConsistent` | src/utils/bk_io.py:100-102 | every stored row stays under its own key |
| `Store.UpsertAllOthers` | src/utils/bk_io.py:100-102 | a key the frame does not carry keeps its row |
| `Store.LastWriteWins` | src/utils/bk_io.py:100-102 | a key's listed columns come from the frame's last row with that key |
| `Store.SaveStoresEveryRow` | src/utils/bk_io.py:95-107 | a frame with one row per key has every row's listed columns stored |
| `Store.Database.SaveBooks` | src/utils/bk_io.py:98-105 | the loop applies one upsert per row in frame order and reports success |
| `ExampleData.ExampleAllFinished` | src/utils/example_data.py:28-32 | the three fixture rows classify as finished |
| `Legacy.RemoveDots` | src/utils.py:396-397 | exactly the characters other than dots are kept, and text without dots is unchanged |
| `Legacy.RemoveDotsAppend` | src/utils.py:396-397 | the replacement distributes over concatenation, so order and multiplicity are kept |
| `Legacy.LegacySlugShape` | src/utils.py:394-399 | the older slug has no dot, space or upper-case letter, and keeps every other non-upper-case character of author and title |
| `Legacy.ApostropheBreaksLogQuery` | src/utils.py:394-399 | an apostrophe in author or title survives into the older slug, and the log query on it is an error |
| `Legacy.NulBreaksLogQuery` | src/utils.py:394-399 | a NUL in author or title survives into the older slug, and the log query on it is an error |
| `Legacy.EndersGameLogsFail` | src/utils.py:394-399 | the log query for "Orson Scott Card", "Ender's Game" under the older slug rule is an error |
| `Legacy.KeepIsRemoveDots` | src/utils.py:396-397 | on letters, digits, spaces, dashes and dots the two character filters agree |
| `Legacy.SlugRevisionsAgree` | src/utils.py:394-399 | on such text the two revisions give a book the same slug |
| `Legacy.AddBooksStateInPlace` | src/utils.py:292-300 | the argument is classified in place and returned |
| `Legacy.BackdateBooksInPlace` | src/utils.py:194-199 | the caller's frame is classified in place; the result is the correction set |
| `Legacy.FillUpDataframe` | src/utils.py:215-249 | the caller's frame is not modified; the result is the dense timeline |
| `Legacy.LegacyBookKeeperIO.constructor` | src/utils.py:328-359 | no slugs are known yet |
| `Legacy.LegacyBookKeeperIO.GetAllBooks` | src/utils.py:565-575 | the stored table, refreshing the known slugs, or the fixture table |
| `Legacy.LegacyBookKeeperIO.GetBooks` | src/utils.py:599-601 | all books without the deleted ones |
| `Legacy.LegacyBookKeeperIO.UpdateTables` | src/utils.py:663-670 | all books, today's batch and the latest version, from the fixture when nothing is stored; an error for an empty table; the known slugs are refreshed exactly when a table is stored |
| `Legacy.LegacyBookKeeperIO.AddBook` | src/utils.py:455-463 | the slug-checked add with the older slug rule |

## Left out

- Database, Athena, S3, catalog and awswrangler calls are left out; they are foreign I/O. Reading the stored table becomes an `Option<Table>` parameter, and the database becomes a map. Failures (`ProgrammingError`, any exception of the older `save_books`) are not modelled. So `Store.Database.SaveBooks` always reports success.
- The older `save_books` writes parquet partitions to S3 and is not modelled (I/O).
- `_create_user_table` and the table schema are left out, since they are DDL. The unique (slug, date) key is the map key.
- Authentication, the Streamlit UI, `show_books_overview` (a column rename for display) and the lottie HTTP loader are left out; none of them touches the log table.
- `get_earliest_log_per_book` is left out: in both revisions it lacks `self`, so as a method it cannot be called as written.
- The wall clock is not read; "today" is a parameter.
- Mutation of the `book` dictionary argument by `add_book` and `_append_book_to_df` is not modelled; no caller reads the dictionary afterwards. The model works on a copy of the row.
- pandas dtype details are left out: NaN versus None, `page_current` becoming float after the forward fill, and `pd.to_datetime` coercion of finish dates and log dates. Dates are whole days and a null is `None`.
- `Legacy.LegacyCreateSlug`: `str.lower()` is modelled on ASCII letters only, so the case mapping of other letters is not modelled.
- The order of rows that tie on date in the closest-date lookup is not modelled. pandas' single-column sort is not stable; the model uses a stable insertion sort, so which of equal-dated rows is returned is fixed here but unspecified there.
- `Query.LogsForBook`: for a slug with a quote, a backslash, a NUL or a line break the model gives `Err(MalformedQuery)` and does not model pandas' parse of the resulting text, so neither the exception raised nor the other rows an altered query (such as `x' or slug!='`) would select is modelled. `Lookup.ClosestDateLog`, `Lookup.ClosestFails` and `Query.LogsForBookIsPropertyFilter` inherit this.
- The model assumes pandas 2.2 without Copy-on-Write. Two behaviours depend on that. First, the older `fill_up_dataframe` fills `page_current` with a chained `fillna(0, inplace=True)` (src/utils.py:247); under Copy-on-Write this leaves the nulls, but `Legacy.FillUpDataframe` always fills them. Second, the inner merge in `_get_latest_book_version` keeps left row order; before 2.2 it grouped rows that share a key. `BookIO.LatestBookVersion` assumes table order.
- `print(s_author)` in the older `filter_books` is left out (output only).
- The fixture's slugs are not proved to equal the slug rule applied to its authors and titles; evaluating the character filter on those literals is beyond the verifier's budget.
