# JumpList MCP server core, modelled in Dafny

This project models the logic of the JumpList forensic server (`jumplist_mcp_server.py`), which
turns the CSV output of JLECmd into a timeline of normalised JumpList events. The model covers
five parts of the server:

- **The event record.** `JumpListEvent` and its projection `to_dict`, which drops `None`
  fields, together with the rebuilding `JumpListEvent(**e)`. These are in module `Events`.
- **The row normaliser of `JLECmdParser`.** It covers `_parse_timestamp`, `_parse_int`,
  `_parse_csv_row` and `csv_to_events`. These are in modules `Normalizer` and `Timestamps`.
- **The SQLite directory cache `JumpListCache`.** The model's class has the two tables and
  their AUTOINCREMENT counters as fields. Its methods are `_is_file_cached`,
  `get_cached_events`, `save_events` (with commit and rollback), `get_statistics` and
  `clear_cache`. The directory fingerprint is a digest of the sorted (name, mtime) pairs. This
  is in module `Cache`, with the path arithmetic of the cache key in `Paths`.
- **The query pipeline.** It covers `filter_events_by_time`, then `parse_jumplists` (the cache
  or a fresh parse, then filter, sort and limit), then `search_jumplists`. This is in module
  `Query`.
- **The statistics of `get_jumplist_statistics`.** They are the dictionary counters and their
  top ten, the date range, the extensions, the recent files and the application list. This is
  in modules `Counter` and `Statistics`.

Python's stable sort, also with `reverse=True`, is the stable insertion sort
`Sorting.InsertionSort` over a strict total order. Every in-place `sort()` is
`Sorting.SortInPlace` on an array, proved equal to that function. Python's `<` on `str` is
`Text.LexLt`. The program's stable-sort tie rule is stated and proved: equal keys keep their
input order.

Three places where the code and its documentation disagree follow the code:

- A time that no format reads is kept as written (`Normalizer.UnreadTimeKept`). It does not
  drop the row.
- The first non-empty modified, accessed or created cell is chosen by Python `or`. So a
  modified cell of white space only drops the row, even when the accessed cell holds a valid
  time (`Normalizer.BlankModifiedDropsRow`).
- A row whose `AppId` cell is missing is stored with a `None` application. That event cannot
  be saved to the cache, because its insert violates `NOT NULL` and the save rolls back. It
  also cannot be rebuilt by `get_jumplist_statistics`, which raises `TypeError`
  (`Statistics.RebuildProjections`).

Inputs the program reads from its environment are parameters:

- the CSV rows JLECmd writes for a directory (`rows`);
- the file system as a map from a directory to its listed files with their mtimes (`fs`);
- the clock (`now`);
- the MD5 digest, an uninterpreted function (`digest`) held by the cache object.

## Model

| member | source | states |
|---|---|---|
| Events.RoundTrip | jumplist_mcp_server.py:44-66 | rebuilding an event from its `to_dict` projection gives the event back exactly when its `app_id` is not `None`, and raises otherwise |
| Events.RebuiltProjects | jumplist_mcp_server.py:60-66 | a dictionary that rebuilds into an event is exactly that event's projection |
| Events.MinimalProjection | jumplist_mcp_server.py:60-66 | an event whose optional fields are all `None` projects to exactly its five required fields |
| Events.FromDict | jumplist_mcp_server.py:44-58 | `JumpListEvent(**d)` succeeds only when every required field is present |
| Timestamps.FirstMatch | jumplist_mcp_server.py:455-468 | the first of the formats that matches wins; no result exactly when no format matches; a result is a valid date-time |
| Timestamps.MatchIsValid | jumplist_mcp_server.py:465 | whatever `strptime` accepts is a valid calendar date and time |
| Timestamps.RenderMatches | jumplist_mcp_server.py:455-466 | the canonical `%Y-%m-%dT%H:%M:%SZ` text of a date-time is read back by the format list as that same date-time |
| Timestamps.ParseTimestamp | jumplist_mcp_server.py:450-471 | `None` exactly for a missing, empty or blank cell; otherwise a non-empty string |
| Timestamps.ParseTimestampOutcome | jumplist_mcp_server.py:463-471 | for non-blank text, when a format matches, the result is canonical and reads back as the date-time of the first match; when nothing matches, the result is the unstripped input |
| Timestamps.ParseTimestampIdempotent | jumplist_mcp_server.py:450-471 | normalising a time twice gives what normalising it once gives |
| Timestamps.ReplaceZ | jumplist_mcp_server.py:493 | `replace('Z', '+00:00')` leaves no `Z` |
| Timestamps.ParseIsoOfRender | jumplist_mcp_server.py:493-498 | the canonical form written by `_parse_timestamp` reads back through `fromisoformat` as the same UTC-aware instant |
| Timestamps.ParseIsoOfRenderIso | jumplist_mcp_server.py:676-677 | `isoformat()` output reads back through `fromisoformat` unchanged |
| Normalizer.Get | jumplist_mcp_server.py:423 | `row.get(k)` is present exactly when the column exists and its cell is not missing |
| Normalizer.GetOr | jumplist_mcp_server.py:437 | `row.get(k, default)` gives the default only for an absent column |
| Normalizer.Or | jumplist_mcp_server.py:427 | `a or b` is `a` when `a` is truthy, else `b` |
| Normalizer.ParseInt | jumplist_mcp_server.py:473-476 | `_parse_int` gives `None` for a missing, empty or blank cell |
| Normalizer.ParseIntOfString | jumplist_mcp_server.py:473-480 | the decimal text of every integer reads back as that integer |
| Normalizer.ParseIntRejects | jumplist_mcp_server.py:477-480 | text with a character that is not a digit, a sign or an underscore gives `None` |
| Normalizer.ParseCsvRow | jumplist_mcp_server.py:421-448 | an accepted row yields source `jumplist`, artifact `recent_item`, the row's path and a non-empty time |
| Normalizer.RowKept | jumplist_mcp_server.py:421-448 | a row is kept exactly when it has a path and the first non-empty of modified, accessed and created is not blank; the event's time is the first present of the three normalised times |
| Normalizer.BlankModifiedDropsRow | jumplist_mcp_server.py:426-431 | a white-space-only modified cell drops the row whatever the other two cells hold |
| Normalizer.UnreadTimeKept | jumplist_mcp_server.py:463-471 | a modified time that no format reads becomes the event's time exactly as written |
| Normalizer.MissingAppIdColumn | jumplist_mcp_server.py:437 | without an `AppId` column the event's application is `unknown` |
| Normalizer.NormalizeRows | jumplist_mcp_server.py:403-419 | no more events than rows |
| Normalizer.NormalizedFromRows | jumplist_mcp_server.py:403-419 | every event returned is the event of one of the rows |
| Normalizer.RowsNormalized | jumplist_mcp_server.py:403-419 | every row that yields an event contributes it |
| Normalizer.NormalizeRowsAppend | jumplist_mcp_server.py:408-417 | normalising a concatenation of rows normalises each part in order |
| Normalizer.CsvToEvents | jumplist_mcp_server.py:403-419 | the loop returns exactly the events of the accepted rows, in row order |
| Paths.DirNameOfCacheKey | jumplist_mcp_server.py:211-215 | `dirname` of the cache key `join(dir, marker)` names the directory, however many separators end it |
| Paths.CacheKey | jumplist_mcp_server.py:141 | the cache key ends with `_combined_cache.marker` |
| Paths.SuffixShape | jumplist_mcp_server.py:684 | a non-empty suffix is a dot and at least one more character, without further dots, ending the name without being all of it |
| Paths.SuffixOfDottedName | jumplist_mcp_server.py:684 | a name `stem.ext` has `.ext` as its suffix |
| Paths.NoSuffixWithoutInnerDot | jumplist_mcp_server.py:684-685 | a name without an inner dot has no suffix and is not counted |
| Paths.ExtensionShape | jumplist_mcp_server.py:684 | the extension is lower case and is empty exactly when the suffix is |
| Cache.Glob | jumplist_mcp_server.py:147-148 | an entry is globbed exactly when it is listed and its name ends in the suffix, ignoring case; no more entries than listed |
| Cache.GlobAppend | jumplist_mcp_server.py:147-148 | the glob works entry by entry in listing order: it distributes over concatenation |
| Cache.JumpListFilesMembers | jumplist_mcp_server.py:145-148 | a JumpList file is a file listed in an existing directory whose name ends in `.automaticDestinations-ms` or `.customDestinations-ms` |
| Cache.FingerprintInput | jumplist_mcp_server.py:157-159 | the digest input is a permutation of the JumpList files' (name, mtime) pairs |
| Cache.FingerprintInputSorted | jumplist_mcp_server.py:157-159 | the digest input is sorted by name, then by mtime |
| Cache.FingerprintOrderFree | jumplist_mcp_server.py:157-159 | the digest input does not depend on the order the glob lists the files in |
| Cache.FingerprintSeesChange | jumplist_mcp_server.py:157-159 | any new, removed, renamed or touched file changes the digest input |
| Cache.LatestMtime | jumplist_mcp_server.py:226 | `max` of the mtimes is one of them and no smaller than any |
| Cache.IsCached | jumplist_mcp_server.py:138-169 | a directory is cached only when it has JumpList files and an entry under its key |
| Cache.CachedEvents | jumplist_mcp_server.py:171-209 | `get_cached_events` answers a non-empty list and only for a key that has a `source_files` row |
| Cache.Save | jumplist_mcp_server.py:211-264 | without JumpList files, or when an insert raises (a NULL `app_id`, or a latest mtime, `file_size` or `entry_number` outside signed 64 bits, which `sqlite3` refuses with `OverflowError`), the transaction rolls back and the tables are unchanged |
| Cache.Clear | jumplist_mcp_server.py:292-297 | both tables are empty and the AUTOINCREMENT counters are kept |
| Cache.Stats | jumplist_mcp_server.py:271-290 | the distinct applications never outnumber the event rows |
| Cache.SavePreservesWellFormed | jumplist_mcp_server.py:211-264 | a save keeps one row per key, distinct source ids below the counter, increasing event ids and no NULL `app_id` |
| Cache.SaveThenGet | jumplist_mcp_server.py:171-264 | after a committed save of a non-empty list, reading the key back gives exactly that list |
| Cache.SaveEmptyIsMiss | jumplist_mcp_server.py:171-264 | a committed save of no events files the key yet reads back as a miss |
| Cache.SaveKeepsOtherKeys | jumplist_mcp_server.py:171-264 | a save under one key leaves what every other key reads back unchanged |
| Cache.SaveCounts | jumplist_mcp_server.py:233-279 | a save adds its events to the event count, orphaned rows of the replaced entry included, and a row only for a new key |
| Cache.SaveThenIsCached | jumplist_mcp_server.py:138-264 | after a committed save under a directory's cache key the cache check for that directory succeeds |
| Cache.ChangedFilesNotCached | jumplist_mcp_server.py:138-169 | with a collision-free digest, a cached directory stays cached exactly when its JumpList files are the same multiset |
| Cache.ClearForgetsAll | jumplist_mcp_server.py:292-297 | after clearing, no key reads back, no directory is cached and every count is zero |
| Cache.JumpListCache.constructor | jumplist_mcp_server.py:72-127 | a new database has both tables empty |
| Cache.JumpListCache.DirectoryFiles | jumplist_mcp_server.py:145-148 | the two globs collect the directory's JumpList files |
| Cache.JumpListCache.IsFileCached | jumplist_mcp_server.py:138-169 | the method answers the cache check on the current tables |
| Cache.JumpListCache.GetCachedEvents | jumplist_mcp_server.py:171-209 | the loop over the joined rows returns the events of the key's entry |
| Cache.JumpListCache.SaveEvents | jumplist_mcp_server.py:211-264 | the new tables are the save of the key's directory files and the events |
| Cache.JumpListCache.SaveFiles | jumplist_mcp_server.py:221-264 | once the files are listed, the new tables are the save of the events |
| Cache.JumpListCache.Commit | jumplist_mcp_server.py:233-260 | the staged delete and inserts become the tables on commit |
| Cache.JumpListCache.InsertEvents | jumplist_mcp_server.py:245-258 | the insert loop succeeds exactly when every event inserts (an `app_id`, and a `file_size` and `entry_number` that are NULL or fit in signed 64 bits), and then appends one row per event with consecutive ids |
| Cache.JumpListCache.GetStatistics | jumplist_mcp_server.py:271-290 | the counts of the current tables |
| Cache.JumpListCache.ClearCache | jumplist_mcp_server.py:292-297 | the new tables are the cleared ones |
| Query.Before | jumplist_mcp_server.py:500-502 | comparing a naive and an aware time raises; a true `<` means an earlier instant |
| Query.Window | jumplist_mcp_server.py:496-511 | the filter keeps no more events than it is given |
| Query.FilterByTime | jumplist_mcp_server.py:483-511 | no bound gives the input itself; an error exactly when a given bound does not parse |
| Query.FilterEventsByTime | jumplist_mcp_server.py:483-511 | the loop computes the time filter |
| Query.FilterWindow | jumplist_mcp_server.py:496-511 | the `for` loop returns exactly the events inside the window, in input order |
| Query.KeepsEvent | jumplist_mcp_server.py:497-509 | an event is kept exactly when its time stamp parses and is neither before the lower bound nor after the upper one; a parse failure or a naive/aware comparison skips it |
| Query.FilterByTimeSub | jumplist_mcp_server.py:483-511 | a successful filter keeps each event at most as often as the input holds it |
| Query.WindowMembers | jumplist_mcp_server.py:496-505 | an event is kept exactly when it is an input event inside the window |
| Query.WindowCounts | jumplist_mcp_server.py:496-505 | each event inside the window is kept as often as the input holds it, and no other |
| Query.WindowAppend | jumplist_mcp_server.py:496-505 | the filter works event by event and keeps the input order |
| Query.InWindowOfCanonical | jumplist_mcp_server.py:493-503 | with aware bounds, a canonical event time is kept exactly when it lies between the bounds, both included |
| Query.NaiveBoundDropsCanonical | jumplist_mcp_server.py:493-509 | with a naive bound every event stamped in the canonical UTC form is dropped |
| Query.UnparsedDropped | jumplist_mcp_server.py:496-509 | with a bound given, an event whose time does not parse is dropped |
| Query.LexOrders | jumplist_mcp_server.py:576-579 | Python's `str` order and its reverse are strict total orders |
| Query.SortEventsOrders | jumplist_mcp_server.py:575-579 | the sort keeps every event; `timestamp` orders times non-increasing, `path` orders paths non-decreasing, any other value keeps the input order |
| Query.SortEventsInPlace | jumplist_mcp_server.py:575-579 | the in-place sort computes the selected sort |
| Query.Limit | jumplist_mcp_server.py:581-586 | a positive limit keeps the first `min(limit, n)` events, any other keeps all |
| Query.Projections | jumplist_mcp_server.py:588 | every event is returned as its `to_dict` projection |
| Query.SelectSize | jumplist_mcp_server.py:573-588 | a successful query returns `min(limit, n)` or all `n` of the filtered events, each a loaded event |
| Query.LoadOrParse | jumplist_mcp_server.py:556-606 | the events come from a non-empty cache entry or from the rows, and a fresh non-empty parse is saved under the directory's key |
| Query.ParseJumplists | jumplist_mcp_server.py:515-588 | a non-directory raises; otherwise the loaded events are filtered, sorted, limited and projected, and the cache changes only by the save of a fresh parse |
| Query.KeywordFilter | jumplist_mcp_server.py:749-753 | the keyword filter keeps at most its input |
| Query.KeywordFilterMembers | jumplist_mcp_server.py:749-753 | an entry survives exactly when it is an input entry whose lower-cased path contains the lower-cased keyword |
| Query.KeywordFilterCounts | jumplist_mcp_server.py:749-753 | each matching entry is kept as often as the input holds it, and no other |
| Query.SearchResultsMatch | jumplist_mcp_server.py:748-762 | every search result is an input entry matching the keyword case-insensitively |
| Query.SearchResultsOrder | jumplist_mcp_server.py:755-760 | search results are newest first and a positive limit bounds their number |
| Query.SearchResultsComplete | jumplist_mcp_server.py:748-762 | without a positive limit every matching entry is among the results |
| Query.SearchJumplists | jumplist_mcp_server.py:714-762 | the search is the unlimited timestamp-sorted query followed by the keyword filter, the sort and the limit |
| Query.SortNewestFirst | jumplist_mcp_server.py:755-756 | the in-place `reverse=True` sort leaves the matches in the order of the stable newest-first sort |
| Counter.KeysShape | jumplist_mcp_server.py:654-659 | a dictionary's keys are the distinct elements counted, each once |
| Counter.KeysFirstSeen | jumplist_mcp_server.py:657-659 | keys stand in the order their elements first appear |
| Counter.Bump | jumplist_mcp_server.py:659 | `d[k] = d.get(k, 0) + 1` appends a new key and keeps an old one in place |
| Counter.TallyStep | jumplist_mcp_server.py:657-659 | counting one more element is one increment of the counter |
| Counter.CountAll | jumplist_mcp_server.py:657-659 | the counting loop builds the counter of the list |
| Counter.Top | jumplist_mcp_server.py:662 | the top slice has `min(n, size)` entries |
| Counter.TopEntries | jumplist_mcp_server.py:662 | the top entries are distinct keys of the list, each with its number of occurrences |
| Counter.TopOrdered | jumplist_mcp_server.py:662 | top counts do not increase and equal counts keep the order of first appearance |
| Counter.TopMaximal | jumplist_mcp_server.py:662 | no key left out of the top occurs more often than any key kept |
| Statistics.RebuildAllSpec | jumplist_mcp_server.py:641 | rebuilding succeeds with the rebuilt events in order, and fails only because some dictionary lacks a required field |
| Statistics.RebuildProjections | jumplist_mcp_server.py:641 | the returned dictionaries rebuild into the events exactly when every event has an application |
| Statistics.AppsOf | jumplist_mcp_server.py:654-659 | the application of every event, in order |
| Statistics.TimesOf | jumplist_mcp_server.py:665-671 | at most one time per event, each a valid date-time |
| Statistics.ParseTimes | jumplist_mcp_server.py:665-671 | the loop collects the readable times and skips the rest |
| Statistics.MinTimeSpec | jumplist_mcp_server.py:676 | `min` fails exactly when naive and aware times mix, else gives a time no other precedes |
| Statistics.MaxTimeSpec | jumplist_mcp_server.py:677 | `max` fails exactly when naive and aware times mix, else gives a time no other follows |
| Statistics.RangeOfSpec | jumplist_mcp_server.py:673-678 | the date range is absent only without times, fails exactly on mixed kinds, and spans from an earliest to a latest time, earliest not after latest |
| Statistics.ExtensionsOf | jumplist_mcp_server.py:682-686 | at most one extension per event |
| Statistics.CountExtensions | jumplist_mcp_server.py:681-686 | the loop counts the lower-cased suffixes of the event paths |
| Statistics.ExtensionsShape | jumplist_mcp_server.py:682-686 | every counted extension is a dot and at least one lower-case character, the suffix of some event's path |
| Statistics.SummaryOf | jumplist_mcp_server.py:643-651 | no events give the fixed empty summary |
| Statistics.Summarize | jumplist_mcp_server.py:643-710 | the counting loops compute the summary |
| Statistics.GetJumplistStatistics | jumplist_mcp_server.py:634-710 | the statistics are the summary of the rebuilt, unlimited, newest-first query, and the cache changes as that query changes it |
| Statistics.TopApps | jumplist_mcp_server.py:657-706 | the ten most used applications (all of them when there are fewer), distinct, with their event counts, non-increasing, ties in order of first appearance, none left out more used |
| Statistics.TopExtensions | jumplist_mcp_server.py:680-707 | the ten most frequent extensions (all of them when there are fewer), distinct, with their counts, each a lower-case suffix, non-increasing, ties in order of first appearance, none left out more frequent |
| Statistics.SummaryRange | jumplist_mcp_server.py:664-705 | the summary fails exactly when its date range does and otherwise carries it |
| Statistics.RecentFiles | jumplist_mcp_server.py:691-700 | the ten newest events (all when fewer), each kept at most as often as it occurs, newest first, as time, application and path; no event left out is newer than the last entry |
| Statistics.NewestEvents | jumplist_mcp_server.py:692-700 | `events_sorted[:10]` holds `min(10, n)` events, a sub-multiset of the events, newest first, and nothing left out is newer than its last |
| Statistics.AppListSpec | jumplist_mcp_server.py:709 | `app_list` is strictly increasing and holds exactly the applications of the events |
| Statistics.UniqueApps | jumplist_mcp_server.py:654-709 | `unique_apps` is the number of distinct applications, the length of `app_list` |
| Statistics.AppListOrderFree | jumplist_mcp_server.py:709 | `app_list` does not depend on the order the set of applications is enumerated in |
| Statistics.EmptyIffNoAppList | jumplist_mcp_server.py:643-710 | `app_list` is missing exactly for no events, and `total_events` is the number of events |
| Sorting.InsertionSort | jumplist_mcp_server.py:577 | the stable sort returns a permutation of its input |
| Sorting.SortSorted | jumplist_mcp_server.py:577-579 | the stable sort's output is sorted under the order |
| Sorting.SortTiesOrdered | jumplist_mcp_server.py:577-579 | elements with equal keys keep their input order |
| Sorting.SortPermutationInvariant | jumplist_mcp_server.py:709 | with an injective key the sort does not depend on the input order |
| Sorting.SortInPlace | jumplist_mcp_server.py:577-579 | the in-place sort leaves the stable sort of the array's old contents |
| Text.LowerIsLower | jumplist_mcp_server.py:684 | lower-casing leaves no upper-case letter |
| Text.ContainsIffOccurs | jumplist_mcp_server.py:752 | `needle in hay` holds exactly when the needle occurs at some offset |
| Text.LexLtTotal | jumplist_mcp_server.py:577-579 | two different strings are ordered one way or the other |

## Left out

- The MCP transport is not modelled: the server object, the tool registration, `mcp.run()` and `get_cache_info`, which only returns `get_statistics`.
- Running JLECmd (`_find_jlecmd`, `parse_jumplist_dir`), the temporary directory, the CSV file and `_merge_csv_files` are not modelled. The CSV rows JLECmd writes are the parameter `rows`.
- Normalizer.CsvToEvents: the `try`/`except` around each row is not modelled, because no row the model admits makes `_parse_csv_row` raise.
- SQLite mechanics are not modelled: the schema DDL, the indexes, `query_sql`, and the order of rows a `SELECT` without `ORDER BY` returns. The event rows are read back in row-id order.
- The database file location and `cache_size_mb` are not modelled. The file size is I/O and the division is floating point.
- MD5 and the `str()` rendering of the (name, mtime) list are the uninterpreted function `digest`. `_get_file_hash` is never called and is not part of this model.
- `os.stat` modification times are whole seconds (`int`), not floats. `datetime.utcnow()` is the parameter `now`.
- Cache.IsCached: the `try`/`except` that turns any failure into `False` is not modelled, because nothing in the model fails. The method has no caller in the server and is modelled as written.
- Query.ParseJumplists: the cache object is passed in. The server opens a fresh `JumpListCache()` on the same database, so the tables are the same.
- Normalizer.ParseInt: only ASCII digits are read. Python's `int()` also reads other Unicode decimal digits, such as full-width `１２` or Arabic-Indic `٣`.
- Normalizer.ParseIntRejects: states that text with a non-ASCII digit is refused. `int()` would read Unicode decimal digits, so for them the source returns a number where the model returns `None`.
- Normalizer.ParseIntOfString: holds for every integer. `int()` refuses a string of more than 4300 digits (Python's default `sys.set_int_max_str_digits` limit), so for such integers the source returns `None`. The limit is not modelled.
- Timestamps.FirstMatch: only zero-padded fields of ASCII digits are read. `strptime` builds its numeric fields from `\d`, so it also accepts non-ASCII decimal digits (such as a full-width `２０２４` year, read with `int()`), single-digit fields and extra white space; for those inputs the source returns a canonical timestamp where the model keeps the text as written.
- Timestamps.ParseIso: `fromisoformat` is modelled only for a date, an optional time of `HH:MM` or `HH:MM:SS`, and an optional `+00:00` offset. Fractional seconds and other offsets are read as unparseable.
- Text.Lower: only ASCII letters are lower-cased, not the rest of Unicode.
- Paths.Drive: UNC shares (`\\server\share`) are not recognised as drives.
- Cache.Glob: a directory named like a JumpList file would be matched too. The listing is assumed to hold files only.
- Cache.Glob: the glob compares names case-insensitively, as on Windows, with ASCII case folding only.
- Statistics.AppList: the set of applications is enumerated in order of first appearance. `Statistics.AppListOrderFree` shows that any other enumeration gives the same `app_list`.
- The text of exception messages, warnings and other `stderr` output is not modelled. Only the `ValueError` for a missing directory and the `fromisoformat` error for a bad bound carry a message.
