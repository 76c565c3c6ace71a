# k8s-slack-searcher core, modelled in Dafny

k8s-slack-searcher ingests a Slack export into one SQLite database per
channel and searches it with SQLite's FTS4 full-text index. This project
models the three cooperating pieces of that tool and proves properties
about them:

- **Ingestion** (`indexer.dfy`, module `Indexer`). `IndexChannel` loads
  `users.json`, then `channels.json`, then every per-day message file. For
  each decoded record it decides to accept or skip it, normalises the
  accepted ones, and appends them to the store. Per-file errors become
  warnings.
- **The store** (`database.dfy`, module `Database`). A class whose fields
  are the users and channels tables (maps keyed by id), the append-only
  messages table, the `messages_fts` table keyed by rowid, the
  AUTOINCREMENT counter, and a count of write statements issued. The
  methods are the upserts, the message insert with its FTS insert trigger,
  `SearchMessages` and `GetStats`. Each method is proved against a pure
  transition on a `Tables` value.
- **Search and presentation** (`searcher.dfy`, module `Searcher`). This
  covers the limit default, the plain-text `FormatResults`, the thread
  classification loop of `GenerateHTMLOutput`, the template helpers
  `formatUser` and `truncate`, and the package's own copy of
  `sanitizeFilename`.

`models.dfy` (module `Models`) holds the shared records. `golib.dfy`
(module `GoLib`) holds the pieces of Go's standard library the core calls:
`strings.TrimSpace`, `strings.Split`, `strconv.ParseInt`,
`time.Parse("2006-01-02")`, `filepath.Base` and `strings.ReplaceAll`. Each
is a function over strings, restricted to the cases the core uses: a
one-character separator for `Split` and `ReplaceAll`, base 10 and 64 bits for
`ParseInt`, the one date layout, and slash-separated paths for `Base`. The
rows below say what is proved of each.

## How the outside world appears

- A decoded record is a `RawRecord`: either `NotObject`, or `Object` of a
  map from keys to `JStr(s) | JOther`. A JSON `null` record is given as the
  empty object, because Go decodes it into a nil map without error.
- A file is given as what reading and decoding it produced: `Unreadable`,
  `NotJsonArray` or `JsonArray(records)`. `users.json` and `channels.json`
  are `Missing`, `Unparsable` or `Parsed(items)`. The directory walk is the
  sequence of entries `WalkDir` visits, in its order. An entry is a walk
  error, a directory, or a file with its content.
- SQLite write errors come from a fault oracle `fails: nat -> bool`. It is
  asked with the number of write statements issued before the current one.
  A failed statement changes nothing.
- The FTS4 engine is an `FtsEngine` value with five parts. `accepts` says
  which query strings `db.conn.Query` accepts; the driver binds the query
  without stepping it, so a MATCH expression SQLite rejects is not caught
  there. `matches` says which FTS rows a query matches and `snippet` what
  `snippet()` returns. `stepFails` says which calls of `rows.Next`,
  numbered from 0, stop with an error instead of yielding the next row.
  This includes call number n after the n rows, which would otherwise
  report the end; a rejected MATCH expression shows up here. `scanFails`
  says on which rows `rows.Scan` fails.
- Times are integer Unix seconds. Date formatting (`time.Format`) is a
  parameter `formatDate: int -> string`. `GetThreadMessages` is also a
  parameter, `ThreadLookup = string -> Option<seq<Message>>`, because
  `database.go` does not define it.
- `NewSearcher` opens a store that ingestion has already filled, so the
  searcher is built from an existing `Store` object.

## Model

| member | source | states |
|---|---|---|
| GoLib.TrimSpaceEmptyIff | pkg/indexer/indexer.go:216 | `strings.TrimSpace(text) == ""` holds exactly when every character of the text is Unicode white space |
| GoLib.TrimSpace | pkg/indexer/indexer.go:216 | `strings.TrimSpace` never lengthens its input, and its result neither starts nor ends with white space |
| GoLib.TrimSpaceSlice | pkg/indexer/indexer.go:216 | The result is the slice of the input between a leading and a trailing run of white space |
| GoLib.Split | pkg/indexer/indexer.go:255 | `strings.Split` on one character gives one more piece than the separator occurs, and no piece holds the separator |
| GoLib.JoinSplit | pkg/indexer/indexer.go:255 | Splitting a timestamp on "." loses nothing: joining the pieces gives it back |
| GoLib.ParseInt64 | pkg/indexer/indexer.go:260 | A successful `ParseInt(s, 10, 64)` lies in the int64 range. Its input is an optional sign followed by one or more decimal digits and nothing else |
| GoLib.ParseFormatInt | pkg/indexer/indexer.go:260 | `ParseInt(s, 10, 64)` reads back every int64 written in decimal |
| GoLib.ParseDigits | pkg/indexer/indexer.go:260 | Any in-range digit string reads as its value, leading zeros and a '+' sign included, and with '-' as its negation down to the int64 minimum |
| GoLib.ParseOutOfRange | pkg/indexer/indexer.go:260 | A decimal numeral beyond the int64 range is rejected (Go's range error), not wrapped |
| GoLib.ParseDate | pkg/indexer/indexer.go:194-198 | A file-name date is accepted only as ten characters: four digits, '-', two digits, '-', two digits. It parses to midnight (a whole number of days) |
| GoLib.Pad | pkg/indexer/indexer.go:194-198 | The zero-padded numeral of a number has the requested width, only digits, and reads back as that number |
| GoLib.PadDigits | pkg/indexer/indexer.go:194-198 | Every digit string is the padded numeral of its own value |
| GoLib.FormatDate | pkg/indexer/indexer.go:194-198 | A date in the layout "2006-01-02" is ten characters |
| GoLib.ParseFormattedDate | pkg/indexer/indexer.go:194-198 | A printed date parses exactly when its month is 1..12 and its day exists in that month (leap years included), and then to midnight of that day |
| GoLib.ParsedDateIsFormatted | pkg/indexer/indexer.go:194-198 | Conversely, every accepted string is the printed form of a real date, and parses to midnight of it |
| GoLib.NextDayInMonth | pkg/indexer/indexer.go:195 | Within a month, each day is one day after the previous one |
| GoLib.NextMonth | pkg/indexer/indexer.go:195 | The 1st of a month is one day after the last day of the previous month, including the February leap-year rule |
| GoLib.NextYear | pkg/indexer/indexer.go:195 | 1 January is one day after 31 December |
| GoLib.Epoch | pkg/indexer/indexer.go:195 | 1970-01-01 is day 0 |
| GoLib.Base | pkg/indexer/indexer.go:165 | The base name is never empty and contains no '/' unless it is "/" |
| GoLib.BaseOfChild | pkg/indexer/indexer.go:165 | The base of `dir/name` is `name`, also with a trailing slash, for any name without '/' |
| GoLib.ReplaceChar | pkg/searcher/searcher.go:89 | `strings.ReplaceAll` of one character by another keeps the length and replaces exactly the occurrences |
| Database.SanitizeFilename | pkg/database/database.go:51-66 | Each of `: / \ * ? " < > \|` and space becomes '_' and every other character is kept, so the length is the same and none of the ten remains |
| Database.SanitizeFilenameIdempotent | pkg/database/database.go:51-66 | Sanitizing twice equals sanitizing once |
| Database.DatabaseFileName | pkg/database/database.go:20-22 | The file name has the channel name's length plus three, ends in ".db", and at each position holds '_' where the name has a problematic character and the name's own character elsewhere |
| Database.PutUser | pkg/database/database.go:155-161 | `INSERT OR REPLACE INTO users` adds the id to the table's keys and maps it to the new user, touching no other table |
| Database.PutChannel | pkg/database/database.go:164-170 | `INSERT OR REPLACE INTO channels` adds the id to the table's keys and maps it to the new channel, touching no other table |
| Database.AppendMessage | pkg/database/database.go:112-121 | The insert adds one row at the end, with the counter's id, and advances the counter. It adds an FTS key for that id exactly when the author is in users, and leaves users and channels alone |
| Database.UpsertUser | pkg/database/database.go:155-161 | Afterwards the id maps to exactly the new user and other ids keep theirs. The count grows only for a new id, and repeating the insert changes nothing. Messages and FTS rows are untouched |
| Database.UpsertChannel | pkg/database/database.go:164-170 | The same upsert properties hold for channels |
| Database.AppendMessageFacts | pkg/database/database.go:112-121 | The insert appends exactly one row, with a fresh id above every earlier one and no deduplication. An FTS row with that rowid is created exactly when the author is in users, and it carries the author's name and real name and the message's text and file name. Earlier FTS rows are kept |
| Database.ExecConsistent | pkg/database/database.go:159-179 | A write statement that succeeds or fails keeps the store invariant (consecutive ids, each FTS row tied to its message) |
| Database.Limit | pkg/database/database.go:202 | SQLite's LIMIT keeps a prefix of exactly min(limit, n) of the n rows, and keeps all n when the limit is negative |
| Database.ScanAll | pkg/database/database.go:210-231 | One result per row, in row order, each being that row's scan |
| Database.RowsRead | pkg/database/database.go:211 | The rows the loop sees are a prefix of the selected rows. Every rows.Next call before them succeeded, and the one after them failed if there are rows left |
| Database.Search | pkg/database/database.go:183-234 | The search fails with a query error exactly when the engine rejects the query, never reports a failed rows.Next, and returns at most `limit` results for a non-negative limit |
| Database.HitsSound | pkg/database/database.go:198-201 | Every joined row is a stored message whose FTS row matches the query, with its author names |
| Database.HitsComplete | pkg/database/database.go:198-201 | Every stored message whose FTS row matches the query is a joined row |
| Database.HitsOrdered | pkg/database/database.go:198-202 | Joined rows are visited in increasing id order |
| Database.ReadRowsFound | pkg/database/database.go:198-231 | Every row read describes a stored message whose FTS row matches, and the rows come in increasing id order |
| Database.SearchContract | pkg/database/database.go:183-234 | The query fails exactly when the engine rejects it. A scan error among the rows read fails the whole search, with no results either way. Otherwise the results are the scans of the rows read. When no rows.Next call fails there are exactly min(limit, number of hits) of them (all hits for a negative limit). Each is a stored message with a matching FTS row, rank 0 and that row's snippet, in increasing id order. It takes the text, author and file name from the messages table, and the author's current names from users ("" when the author is missing) |
| Database.SearchFindsEveryHit | pkg/database/database.go:198-233 | When all hits fit under the limit (or there is no limit) and no rows.Next call fails, every matching message is returned |
| Database.StepErrorHidden | pkg/database/database.go:211-233 | For any accepted query whose first rows.Next call fails, with or without matching messages, the search as written returns no results and no error |
| Database.StepErrorReported | pkg/database/database.go:211-233 | For the same input, the search that consults rows.Err returns the step error |
| Database.SearchChecked | pkg/database/database.go:183-234 | The search that consults rows.Err after the loop reports a failed step as an error |
| Database.SearchCheckedComplete | pkg/database/database.go:211-233 | With rows.Err consulted, a success holds every selected row. The step error is reported exactly when one of the n + 1 rows.Next calls for n selected rows failed and no scan failed; the last call is the one that ends the rows. Where it succeeds it agrees with the search as written |
| Database.Store.constructor | pkg/database/database.go:20-43 | A store over a fresh file is named `DatabaseFileName(channel)` and starts with empty tables |
| Database.Store.InsertUser | pkg/database/database.go:155-161 | The new state is the upsert when the statement runs, and the old state otherwise |
| Database.Store.InsertChannel | pkg/database/database.go:164-170 | The new state is the channel upsert when the statement runs, and the old state otherwise |
| Database.Store.InsertMessage | pkg/database/database.go:173-180 | The new state is the append plus its trigger when the statement runs, and the old state otherwise |
| Database.Store.SearchMessages | pkg/database/database.go:183-234 | The `rows.Next` loop returns exactly what `Search` gives: the first scan error, or the scans of the rows read before the first failed step, with no error |
| Database.Store.GetStats | pkg/database/database.go:237-255 | The map holds exactly the sizes of the users, channels and messages tables under their names |
| Indexer.ParseSlackTimestamp | pkg/indexer/indexer.go:252-266 | A parsed timestamp is an int64, and the token has exactly one '.' |
| Indexer.SlackTimestampParts | pkg/indexer/indexer.go:255-265 | A token `secs.frac` with no other '.' parses exactly when `secs` is a base-10 int64, to that number, whatever `frac` is |
| Indexer.SlackTimestampRoundTrip | pkg/indexer/indexer.go:252-266 | Any int64 seconds followed by any dot-free fraction parse back to those seconds |
| Indexer.ClassifyAcceptsIff | pkg/indexer/indexer.go:200-218 | A record is accepted exactly when all of these hold: it is an object, its subtype is not the string "bot_message", its user is a string, and its text is a string that is not all white space |
| Indexer.ClassifiedMessage | pkg/indexer/indexer.go:220-241 | An accepted message copies user and text (untrimmed), and copies type, subtype and ts or uses "" for each. Its date is the parsed ts when it parses, and the file's date otherwise. It gets the file name and no thread data |
| Indexer.Classify | pkg/indexer/indexer.go:200-241 | An accepted record is an object, and its message carries the file's name, text that is not blank, and a subtype other than "bot_message" |
| Indexer.AcceptedAreHuman | pkg/indexer/indexer.go:200-241 | Every message a file tries to insert has non-blank text, is not a bot message, and carries the file's name |
| Database.Succeeding | pkg/indexer/indexer.go:243-245 | The number of statements that run before the store's first failure never exceeds the number attempted |
| Database.SucceedingFacts | pkg/indexer/indexer.go:243-245 | The statements that count as run all succeeded, and the next one, if attempted, failed |
| Database.SucceedingAtLeast | pkg/indexer/indexer.go:243-245 | When the first `i` statements all succeed, at least `i` run. Exactly `i` run when the next one fails or none are left |
| Indexer.InsertAllFacts | pkg/indexer/indexer.go:243-245 | A file's inserts stop at the first failure. Exactly the messages before it are appended, numbered on from the counter, and they stay. Users, channels and earlier rows are left alone, and each new row is indexed exactly when its author is known |
| Indexer.InsertAll | pkg/indexer/indexer.go:243-245 | A file's inserts leave users and channels alone, keep the earlier rows as a prefix, and issue at most one statement per message |
| Indexer.InsertedRows | pkg/indexer/indexer.go:243-245 | The rows a file's inserts add are its first messages, numbered on from the counter, at most one per message |
| Indexer.ProcessFileContract | pkg/indexer/indexer.go:182-249 | An unreadable file, one that is not a JSON array, or one not named YYYY-MM-DD inserts nothing and returns an error. Otherwise the accepted messages are appended in order: all of them and no error, or those before the failed insert and an insert error. Every appended row is a human message from this file |
| Indexer.ProcessFile | pkg/indexer/indexer.go:182-249 | Processing a file leaves users and channels alone, keeps the earlier rows as a prefix, and never decreases the statement count |
| Indexer.ProcessFileErrors | pkg/indexer/indexer.go:182-249 | The file's error is its read, parse or date-name problem when it has one. Otherwise there is no error or an insert error, and there is no error when no later statement fails |
| Indexer.ReingestDuplicates | pkg/indexer/indexer.go:200-246 | Ingesting a file twice appends its accepted messages twice, with no deduplication |
| Indexer.CountFilesFacts | pkg/indexer/indexer.go:140-151 | The counting walk fails exactly when WalkDir reports an error. Otherwise it counts exactly the non-directory ".json" entries |
| Indexer.CountFiles | pkg/indexer/indexer.go:140-151 | The first walk counts at most the message files, and reports failure only if some entry is a walk error |
| Indexer.WalkFiles | pkg/indexer/indexer.go:156-178 | The second walk gives each message file at most one outcome, processed or warned, and leaves users and channels alone and earlier rows in place |
| Indexer.WalkFacts | pkg/indexer/indexer.go:156-178 | A file error never stops the walk. Without a walk error, every message file is processed. The walk only appends human, properly indexed messages, and leaves users and channels alone |
| Indexer.WalkOutcomes | pkg/indexer/indexer.go:156-178 | Warnings other than insert failures are exactly the files' read, parse and date-name problems, in walk order. The processed files plus the insert failures are exactly the files without such a problem |
| Indexer.WalkWithoutFaults | pkg/indexer/indexer.go:156-178 | When no write statement fails, the warnings are exactly the files' problems, and every other message file counts as processed |
| Indexer.UnknownAuthorNeverFound | pkg/database/database.go:112-121 | A message appended while its author is not in users has no FTS row, so no search returns it |
| Indexer.UpsertUsersOverrides | pkg/indexer/indexer.go:94-107 | Loading a users list overrides the table with the list's id→user map, the last entry for an id winning |
| Indexer.PutUsers | pkg/indexer/indexer.go:94-107 | The users loop's error, if any, names the id of an entry of the list, and the loop issues at most one statement per entry |
| Indexer.UpsertUsersIdempotent | pkg/indexer/indexer.go:94-107 | Loading the same users file twice leaves the same table as loading it once |
| Indexer.PutUsersWithoutFaults | pkg/indexer/indexer.go:79-110 | When no write fails, loadUsers upserts every converted entry (profile names moved up) and changes nothing else |
| Indexer.PutUsersKeeps | pkg/indexer/indexer.go:94-107 | Loading users touches neither channels nor messages nor FTS rows |
| Indexer.PutChannels | pkg/indexer/indexer.go:128-132 | The channels loop's error, if any, names the id of an entry of the list, and the loop issues at most one statement per entry |
| Indexer.UpsertChannelsOverrides | pkg/indexer/indexer.go:128-132 | Loading a channels list overrides the table with the list's id→channel map, the last entry for an id winning |
| Indexer.UpsertChannelsIdempotent | pkg/indexer/indexer.go:128-132 | Loading the same channels file twice leaves the same table as loading it once |
| Indexer.PutChannelsWithoutFaults | pkg/indexer/indexer.go:113-135 | When no write fails, loadChannels upserts every channel in order and changes nothing else |
| Indexer.PutChannelsKeeps | pkg/indexer/indexer.go:128-132 | Loading channels touches neither users nor messages nor FTS rows |
| Indexer.IndexBarrier | pkg/indexer/indexer.go:45-76 | Users and then channels are fully loaded before any message file. A failure in either aborts the run before any file is counted or any message is written. After both are loaded, the message phase leaves them as loaded and appends only human messages |
| Indexer.IndexSpec | pkg/indexer/indexer.go:45-76 | A run whose users file is missing or unparsable fails and changes nothing. A successful run had both files parsed |
| Indexer.Indexer.constructor | pkg/indexer/indexer.go:26-37 | A new indexer opens a fresh store for the channel, and both counters start at zero |
| Indexer.Indexer.LoadUsers | pkg/indexer/indexer.go:79-110 | The loop reads, converts and upserts the users in order, stopping at the first failed insert with that user's id |
| Indexer.Indexer.LoadChannels | pkg/indexer/indexer.go:113-135 | The loop upserts the channels in order, stopping at the first failed insert with that channel's id |
| Indexer.Indexer.ProcessMessageFile | pkg/indexer/indexer.go:182-249 | The record loop, with its skips, computes exactly the file-level transition and error of `ProcessFile` |
| Indexer.Indexer.ProcessMessageFiles | pkg/indexer/indexer.go:138-179 | The two walks advance `totalFiles` and `processedFiles` and print the warnings exactly as `FilesSpec` says |
| Indexer.Indexer.CountMessageFiles | pkg/indexer/indexer.go:139-151 | The first walk adds the number of `.json` files seen before any walk error to `totalFiles`, and reports that error, as `CountFiles` says |
| Indexer.Indexer.WalkMessageFiles | pkg/indexer/indexer.go:155-178 | The second walk leaves the tables, the processed count, the warnings and the walk error exactly as `WalkFiles` says |
| Indexer.Indexer.IndexChannel | pkg/indexer/indexer.go:45-76 | The run computes `IndexSpec`. The report carries the final table sizes and the processed-file count |
| Searcher.EffectiveLimit | pkg/searcher/searcher.go:36-38 | A positive limit is kept and any other becomes 10, so the limit passed on is always positive |
| Searcher.Searcher.Search | pkg/searcher/searcher.go:35-41 | Search forwards the normalised limit. It fails only as the store's search does, never returns more results than that limit, and returns at most 10 when no positive limit is given |
| Searcher.ResultsText | pkg/searcher/searcher.go:54-61 | Only an empty list gives exactly "No results found.". Any other list starts with "Found N result(s):" |
| Searcher.UserLabel | pkg/searcher/searcher.go:68-74 | The FormatResults label is empty exactly when the real name, the name and the user id are all empty |
| Searcher.UserIdOnlyAsFallback | pkg/searcher/searcher.go:68-74 | When the real name or the name is set, the label ignores the user id and is never empty |
| Searcher.DisplayText | pkg/searcher/searcher.go:82-92 | The printed text is at most 500 characters and has no newline |
| Searcher.DisplayTextFacts | pkg/searcher/searcher.go:82-92 | The printed text is the snippet or else the text, with newlines turned into spaces, on one line of at most 500 characters. A longer text is its first 497 characters plus "..." |
| Searcher.FormatResults | pkg/searcher/searcher.go:54-98 | The builder loop produces exactly the header and one block per result, numbered from 1 in order |
| Searcher.ThreadContext | pkg/searcher/searcher.go:146-170 | Each entry keeps its original result |
| Searcher.ThreadRoot | pkg/searcher/searcher.go:152-158 | No thread is looked up exactly when the result has no thread timestamp and either no replies or no timestamp. Otherwise the root is one of the two timestamps |
| Searcher.ThreadContextFacts | pkg/searcher/searcher.go:146-170 | The root is ThreadTS if set, else the timestamp if ReplyCount > 0, else none. A result is threaded exactly when a root was chosen and the lookup succeeded with more than one message, and only then does it carry those messages |
| Searcher.SearchResultsNeverThreaded | pkg/searcher/searcher.go:152-159 | Store search results have no thread root, because the search statement reads no thread columns, so none is ever threaded |
| Searcher.FormatUser | pkg/searcher/searcher.go:192-200 | formatUser gives the empty string exactly when both the user name and the id are empty |
| Searcher.Searcher.ThreadContexts | pkg/searcher/searcher.go:146-170 | The loop yields one entry per result, in the same order, each being that result's thread context |
| Searcher.FormatUserFallback | pkg/searcher/searcher.go:192-200 | formatUser uses the id exactly when the user name is empty, and ignores it otherwise |
| Searcher.LabelsAgree | pkg/searcher/searcher.go:192-200 | formatUser and the FormatResults label agree except when only the real name is set. In that case FormatResults prints "Real ()" and formatUser prints the id |
| Searcher.Truncate | pkg/searcher/searcher.go:206-211 | The text is returned unchanged when it fits. Otherwise the result is its first `length` characters plus "..." |
| Searcher.TruncateIdempotent | pkg/searcher/searcher.go:206-211 | Truncating twice equals truncating once |
| Searcher.SanitizeFilename | pkg/searcher/searcher.go:439-453 | The Replacer maps each character through the first matching old/new pair, keeping its length |
| Searcher.ReplaceWithUnderscore | pkg/searcher/searcher.go:440-451 | With every replacement being "_", a character is replaced exactly when some pair names it |
| Searcher.SanitizeFilenameAgrees | pkg/searcher/searcher.go:437-453 | This copy equals the store's `sanitizeFilename` on every input |
| Searcher.Searcher.constructor | pkg/searcher/searcher.go:20-27 | A searcher works over the given store |

## Notes on the code

- A message whose author is not in users gets no full-text row. The insert
  trigger selects `FROM users u WHERE u.id = new.user_id`, which yields no
  row for an unknown author, so such a message can never be found by a
  search. See `Database.AppendMessageFacts` and
  `Indexer.UnknownAuthorNeverFound`.
- Search results carry a constant rank of 0.0, and the statement has no
  ORDER BY, so nothing orders the results by relevance. The model visits
  full-text rows in rowid order.
- `NewDB` opens `databases/<name>.db` and creates its tables and triggers
  with `IF NOT EXISTS`, so a second ingest run starts from the tables the
  first one left. That is how re-ingesting a channel duplicates its
  messages (`Indexer.ReingestDuplicates`). The constructors model a fresh
  file; the contracts of `Indexer.Indexer.IndexChannel` and of every
  ingestion lemma hold from any consistent prior state of the tables.
- `SearchMessages` never calls `rows.Err`. The store method and
  `Database.Search` follow the code as written; the corrected behaviour is
  `Database.SearchChecked` (see Findings).

## Left out

- File and encoding I/O: `os.ReadFile`, `filepath.WalkDir`,
  `filepath.Glob`, `os.WriteFile` and `json.Unmarshal`. The model receives
  their outcomes as inputs (see above).
- `sql.Open`, `createTables` and `Close`. Their errors, and so the error
  results of `NewDB`, `NewIndexer` and `NewSearcher`, are not modelled.
  The schema is taken to exist, and the constructors build the store of a
  fresh database file. Reopening an existing file is covered instead by
  stating the ingestion contracts for any consistent starting tables.
- The FTS4 MATCH grammar, `snippet()` highlighting and relevance: these
  are the abstract `FtsEngine`.
- Database.SearchContract: the model visits the joined rows in rowid order,
  which SQLite does not promise for this query. Two things rest on that
  order: the increasing-id clause, and which hits survive a LIMIT below the
  number of hits (the lowest ids, in the model). The result count, the
  `FoundMessage` description of each result and
  `Database.SearchFindsEveryHit` do not depend on it.
- Database.Store.GetStats: the COUNT queries cannot fail in the model, so
  the "failed to get stats" path of `IndexChannel` is not modelled.
- Searcher.DisplayTextFacts: counts characters (code points), where Go's
  `len` and slicing count UTF-8 bytes. For non-ASCII text, Go's cut can
  fall elsewhere and can split a character.
- Searcher.Truncate: counts characters, not UTF-8 bytes, for the same
  reason.
- Indexer.ParseSlackTimestamp: counts characters, not UTF-8 bytes. Only
  ASCII '.', digits and signs matter to it, so both counts give the same
  result.
- Indexer.ClassifyAcceptsIff: JSON numbers, booleans, arrays and objects
  are all `JOther`. No distinction among them affects the decision.
- Progress output (`fmt.Printf`, the every-50-files line) is left out. The
  warnings are returned as a sequence of `(filename, error)` pairs in the
  order they would be printed.
- The update and delete FTS triggers are left out: nothing in the core
  updates or deletes messages.
- `GenerateHTMLOutput` beyond its thread loop is left out: `generateHTML`,
  the template, `safeHTML`, `formatDate`, and writing the file are
  rendering and I/O. Only `formatUser` and `truncate` are modelled.
- `ValidateDatabaseExists`, `fileExists` and `ListDatabases` are
  file-system probes and are left out.
- `Searcher.GetStats` and `Searcher.GetThreadMessages` only forward to the
  store. The first is `Store.GetStats`; the second is the abstract lookup.
- The date `FormatResults` prints uses Go's layout in the local time zone.
  It is the `formatDate` parameter.
- The `DATETIME` column's round trip through the driver is left out. The
  date is read back as the integer that was stored.

## Findings

| source | as written | input that shows it | evidently intended | confidence | as-written member | corrected member |
|---|---|---|---|---|---|---|
| pkg/database/database.go:211-233 | The loop `for rows.Next()` ends on a stepping error as it does at the end of the rows, and `rows.Err()` is never consulted, so the rows read so far are returned with a nil error | A query `db.conn.Query` accepts whose first `rows.Next` call fails, with or without matching messages (for instance a MATCH expression SQLite only rejects while stepping): the search returns no results and no error. A failure of the call after the last row (an I/O error, say) is hidden the same way | Return the stepping error, as `database/sql` asks callers to do by checking `rows.Err()` after the loop | not executed | Database.StepErrorHidden | Database.SearchCheckedComplete |
