# UFOP: verified models of the log pager, the independent restore and four smaller parts

This project models parts of UFOP in Dafny and proves what they are for.

**The log pager** (`src-tauri/src/log_query.rs`). Four stateful layers, each proved against a simple form: `RevLines`
reads a file backwards in blocks (module `RevLines` against `LogLines`), `RecordsRev` joins continuation lines to the
header above them (`RecordsRev` against `LogRecords`), `day_files` picks one file a day (`LogDirectory`), and `query_with`
walks the days and cuts a page (`LogQuery`). `Paging` then shows that following `next_cursor` through any number of pages,
with limits, block sizes and byte budgets that differ from page to page and a log that changes above the cursor, gives
exactly the filtered log, split into lines and records from the front and then reversed. `LogGrowth` and `LogMoves` say
which changes of the folder are such changes, and `ReadBudget` how many bytes a call reads. The simple forms
(`ForwardLines`, `ForwardRecords`, `WrittenLog`) never read backwards, and never mention blocks, chunks, pages or cursors.

**The independent restore** (`scripts/ufop-recover.py`). `BlockPayload` decodes a block volume, `BlockIndex` finds the
volume and the size of each block, `RestorePlan` places blocks and groups them by volume, `Writes` is seek-and-write into
a zero-filled file, and `Restore` and `RestoreRun` put them together: writes reordered by volume leave the same file as
writing its blocks in order. `Damage` compares restored files with their originals: each block of a file is the original one
or all zeros, and the zeroed ones are counted; `Recovery` says which, from what the folder holds. `RestoreOutcome` says when
a restore gets to its report at all.

**Smaller parts.** `Secrets` (placeholder expansion), `Csv` (the CSV writer against a reader by section 2 of RFC 4180),
`Profiles` (the configuration overlay) and `Retention` (log pruning).

What the small functions mean that all of this rests on (which records a filter lets through, which of two days is newer,
how lines join a message, what a stored block unpacks to, when a file counts as complete, and so on) is stated apart from
them, from the bytes, tables and characters themselves, with examples.

Objects whose methods change them are classes here (`RevLines`, `RecordsRev`, `Reader`, `Target`, `CliConfig`); each
method states its whole new state by a function on values, and the theorems are about those functions. What the model
does not look into (parsers, hashes, decompression, secret providers) is a table of answers. All results hold for every
table; a run reads finitely many things, so nothing is lost by tables being finite.

## Where the code does not do what it says

Each of these is a lemma below; where a promise fails, its exact condition is proved.

- `LogPage` says the next cursor is `None` when there are no older records. The code returns one also when the page fills,
  or the byte budget runs out, at the last record (`Paging.NoCursorExactlyWhen`, `Paging.CursorToNothingExample`). The page
  after that is empty.
- A day's file is thought to stay the same file while it grows. When a day has several logs of one kind, the one written on
  longest ago stands for it, so an append to that one makes another file stand, and a cursor's offset then points into
  that one; the same happens when a JSON twin appears for a day with a human log (`LogMoves.SameFileStandsExactlyWhen`,
  `LogMoves.AppendMovesExample`, `LogGrowth.TwinEndsGrowth`). With one log of each kind a day, as the log writers leave it,
  logging keeps paging exact (`LogGrowth.LoggingGrows`).
- Record ids are unique (`Paging.IdsAreUnique`), but the cursor is split at its first `@`: a log file whose day name contains an `@`
  cannot be paged past (`Paging.AtSignBreaksPaging`, `Paging.AtSignExample`).
- "Once a record is older than `since`, so is everything after it" holds for logs in time order only. Nothing is lost
  exactly when no wanted record is read after one older than `since` (`Paging.EarlyExitExactlyWhen`,
  `Paging.EarlyExitExample`).
- The byte budget is called the most bytes one call reads. It is looked at only when a record comes up: a call may read the
  longest stretch without the start of a record, and one block, beyond it (`ReadBudget.MostBytesRead`), and a file without
  any record is read whole (`ReadBudget.UnreadableFileExample`). `ReadBudget.BudgetHoldsExactlyWhen` says when it holds.
- A hash that an index volume lists in a volume that is gone is not located, though a block volume that is there may hold
  it: the scan never replaces an entry (`BlockIndex.LocatedExactlyWhen`, `RestoreOutcome.GoneVolumeExample`).
- Of several copies of an unlisted block only the first one found counts: if its data is wrong, an intact copy in a later
  volume does not help (`Restore.ScannedBlockExactlyWhen`, `RestoreOutcome.FirstHolderExample`).
- A damaged volume is meant to cost only its own blocks, but errors of the zlib, ZIP and text libraries are not caught and
  end the whole restore, and, when the folder has to be scanned, even if nothing in that volume is needed
  (`BlockPayload.DecodeCrashesExactlyWhen`, `RestoreOutcome.FinishesExactlyWhen`, `RestoreOutcome.UnneededVolumeExample`).
- A listed size that is not a number, such as `null`, is not noticed while indexing and ends the restore of content-defined
  files (`RestoreOutcome.FinishesExactlyWhen`, `RestoreOutcome.UnfitSizeExample`).
- A block payload with 0x04034B50 or 0x06054B50 blocks starts like a ZIP archive (`BlockPayload.LooksLikeZip`).
- An empty CSV row, and so a list of objects without any keys, reads back as one empty field
  (`Csv.RoundTripExactlyWhen`, `Csv.TableReadsBackExactlyWhen`).
- Saving after a run with a profile that does not exist creates it, even when nothing was changed
  (`Profiles.SaveWithoutEditExactlyWhen`, `Profiles.SaveCreatesExample`; the comment on `activate` says so).
- "The newest file of each kind is always kept" fails for a file that counts as both kinds, such as `ufop.log.jsonl`
  (`Retention.AlwaysKeptExactlyWhen`, `Retention.BothKindsExample`).

## Model

| member | source | states |
|---|---|---|
| `Paging.PagingIsExact` | src-tauri/src/log_query.rs:290-341 | For any filters and any limits, block sizes and byte budgets, different on each page, and any changes of the log above the cursor between pages: the pages got by following the cursor from none until none are together exactly the filtered scan, newest first, of the log as it was at the first page, which is read forwards and then reversed. No gap, no repeat, same order. |
| `Paging.PagingShowsTheWindow` | src-tauri/src/log_query.rs:316-331 | For a log in time order, those pages are exactly the records with `since` ≤ time ≤ `until` that match the other filters. |
| `Paging.PagingEnds` | src-tauri/src/log_query.rs:327-336 | Any run of pages, finished or not, has at most one page more than the log had records, even with a byte budget of zero or a filter nothing matches. |
| `Paging.PagingGoesOn` | src-tauri/src/log_query.rs:293-305 | A cursor is never refused by the next call while nothing below it changed: a run can always be continued while there is a cursor. |
| `Paging.RunSoFar` | src-tauri/src/log_query.rs:290-341 | The invariant over whole runs: what was shown, then the scan of what the cursor leads to, is the whole scan; each page with a cursor moves at least one record on. |
| `Paging.OneMorePage` | src-tauri/src/log_query.rs:298-336 | One further call keeps that invariant, on the log as it then is. |
| `Paging.PageStep` | src-tauri/src/log_query.rs:298-336 | One call: its records followed by the scan of what its cursor leads to are the scan of what was left; the cursor names a place in an existing file, below the one passed in. |
| `Paging.CursorDescends` | src-tauri/src/log_query.rs:300-336 | Every returned cursor is below the one passed in: an older day, or an earlier offset of the same file. |
| `Paging.LogAfter` | src-tauri/src/log_query.rs:298-305 | Resuming at any record of a log gives exactly the records after it, across day files. |
| `Paging.AllBelowCursor` | src-tauri/src/log_query.rs:299-304 | A call with a cursor comes across nothing at or above it. |
| `Paging.StillThere` | src-tauri/src/log_query.rs:298-305 | What a cursor leads to is the same whatever happened in newer days and behind it in its own file, as long as its file keeps its form and the older days are the same. |
| `Paging.LogBelow` | src-tauri/src/log_query.rs:298-305 | What a cursor leads to is the rest of its own day's file below its offset, then the older days whole. |
| `Paging.GrowthIsFine` | src-tauri/src/log_query.rs:298-305 | New days on top and a newest file that gets longer change nothing below the cursor of any run. |
| `LogGrowth.LoggingGrows` | src-tauri/src/log_query.rs:107-120 | Of a folder with at most one log of each kind a day: any sequence of appends to logs of the newest day (or to logs that do not stand for their day) and of first logs of newer days, with arbitrary file times, lets its day files grow in that sense. |
| `LogGrowth.AppendGrowsExactlyWhen` | src-tauri/src/log_query.rs:107-120 | In such a folder an append lets the days grow if and only if the log is one of the newest day or does not stand for its day. |
| `LogGrowth.AddGrowsExactlyWhen` | src-tauri/src/log_query.rs:107-120 | In such a folder a new file lets the days grow if and only if it is no log, a human log beside its JSON twin, or the first log of a day newer than all others. |
| `LogGrowth.TwinEndsGrowth` | src-tauri/src/log_query.rs:113-116 | In any folder, a JSON log that appears for a day with a human log is not growth: the day's file changes its form. |
| `LogGrowth.DaysGrowExactlyWhen` | src-tauri/src/log_query.rs:107-120 | The list of days grows if and only if, date by date, the files that stand for the days do. |
| `LogMoves.SameFileStandsExactlyWhen` | src-tauri/src/log_query.rs:109-116 | With several logs of one kind and day: when one is written on and is then the newest, the same file goes on standing for the day if and only if it was another one, or this one is the only such log. |
| `LogMoves.AppendMovesExample` | src-tauri/src/log_query.rs:109-116 | Two human logs of a day: an append to the one that stood makes the other one stand, and the days do not grow. |
| `Paging.IdsArePlaces` | src-tauri/src/log_query.rs:52-53 | The id of every record of a log is the date and the byte offset it is read at. |
| `Paging.IdsAreUnique` | src-tauri/src/log_query.rs:52-53 | No two records of a log have the same id, whatever the days are called. |
| `Paging.IdsAreOfPlaces` | src-tauri/src/log_query.rs:171 | An id stands for one date and offset only. |
| `Paging.NoCursorExactlyWhen` | src-tauri/src/log_query.rs:318-336 | There is no cursor if and only if the whole remaining scan stays below the page limit and within the byte budget; a page never exceeds its limit; it is marked as cut short exactly when it has a cursor and is not full. |
| `Paging.CursorToNothingExample` | src-tauri/src/log_query.rs:327-329 | A page of one record from a log of one record has a cursor, and below it nothing is left. |
| `Paging.SourcesAre` | src-tauri/src/log_query.rs:312-314 | The sources are modules of the records the call came across, up to the one that ended it, and all of those modules while there are fewer than 200. |
| `Paging.CallSpots` | src-tauri/src/log_query.rs:298-311 | Which records a call comes across depends neither on the block size nor on the bytes already read. |
| `Paging.CutShape` | src-tauri/src/log_query.rs:312-336 | A page is the next records of the scan in order, up to its cursor, and what follows the cursor is exactly what is missing from it. |
| `Paging.WantedExactlyWhen` | src-tauri/src/log_query.rs:260-275 | What a query lets through, from the record's fields and the tables: a level of at least the one asked for (0 when unknown), the source's text somewhere in the lower-cased target, the filter's text in the lower-cased message or fields, and a time from `since` to `until`, both included, where an unreadable time passes. |
| `Paging.WarnExample` | src-tauri/src/log_query.rs:79-85 | A `warn` filter keeps exactly warnings and errors. |
| `Paging.FiltersCombine` | src-tauri/src/log_query.rs:260-275 | Every filter is optional and they combine with AND: a record is wanted if and only if it is by each filter alone, and without filters every record is. |
| `Paging.ScanGrows` | src-tauri/src/log_query.rs:311-331 | Each further record in reading order is shown, behind those shown before, if and only if it is wanted and none before it was older than `since`. |
| `Paging.WindowGrows` | src-tauri/src/log_query.rs:316-331 | The reference window takes each further record, behind the others, if and only if it is wanted. |
| `Paging.EarlyExitExactlyWhen` | src-tauri/src/log_query.rs:317-322 | Stopping at the first record older than `since` loses nothing if and only if no wanted record is read after an older one. |
| `Paging.EarlyExitIsSound` | src-tauri/src/log_query.rs:317-322 | In particular nothing is lost when all timestamps parse and never increase in reading order, within and across days. |
| `Paging.EarlyExitExample` | src-tauri/src/log_query.rs:317-322 | Two records out of order lose the one inside the window. |
| `Paging.AtSignBreaksPaging` | src-tauri/src/log_query.rs:278-293 | The id of a record is refused as a cursor if and only if the day's name has an `@`. |
| `Paging.AtSignExample` | src-tauri/src/log_query.rs:100-104 | A file named `ufop.a@b.log` stands for such a day. |
| `Paging.LogIsWrittenLogReversed` | src-tauri/src/log_query.rs:202-236 | The records a call without cursor comes across are the written log, oldest day first and each file parsed from the front, in reverse. |
| `LogQuery.QueryWith` | src-tauri/src/log_query.rs:290-341 | The stateful walk over days, records and blocks answers as the page cut from the list of records, each with the bytes read when it came up; errors of filters come before errors of the cursor. |
| `LogQuery.WalkDays` | src-tauri/src/log_query.rs:298-338 | The loop over the days cuts the page from the records of all days that are not newer than the cursor's, and has read exactly the bytes down to the record that ended it, in whole blocks of each file, or everything. |
| `LogQuery.WalkDay` | src-tauri/src/log_query.rs:299-306 | One day: nothing for a day newer than the cursor's, the part below it on the cursor's own day, else the whole file; what is left to do is the same page cut from the days after it. |
| `LogQuery.WalkRecords` | src-tauri/src/log_query.rs:306-337 | The loop over one file's records: if it does not end the page, the bytes read have grown by exactly the part of the file below the start. |
| `LogQuery.Visit` | src-tauri/src/log_query.rs:312-336 | One record, with all ways to end the page: before `since`, page full, budget used up. |
| `LogQuery.PageLimit` | src-tauri/src/log_query.rs:292 | A limit from 1 to 5000 is taken as asked for, 0 as 1, anything above as 5000, and none as 500. |
| `LogQuery.LimitsAre` | src-tauri/src/log_query.rs:22-23 | 500 records when nothing is asked for, at least 1, at most 5000. |
| `LogQuery.ResumesAt` | src-tauri/src/log_query.rs:293 | No cursor or an empty one starts at the newest record; any other one must split into a position. |
| `LogQuery.AnswersExactlyWhen` | src-tauri/src/log_query.rs:291-293 | A call fails if and only if its filters or else its cursor are refused, with the error of the first of these. |
| `LogQuery.ModuleIs` | src-tauri/src/log_query.rs:238-240 | A source is the module of the record's target. |
| `ReadBudget.BudgetHoldsExactlyWhen` | src-tauri/src/log_query.rs:308-336 | The budget is the most bytes a call reads, whatever its filters, if and only if the first record to come up with the budget used up does so at exactly the budget, or, without one, the whole log fits. |
| `ReadBudget.MostBytesRead` | src-tauri/src/log_query.rs:308-336 | A call reads at most its budget, the longest stretch of the log without the start of a record, and one block. |
| `ReadBudget.ReadUpTo` | src-tauri/src/log_query.rs:308-336 | More exactly: down to the record that ends the call and at most a block further, the record before it having been within the budget; or everything. |
| `ReadBudget.CallMeasured` | src-tauri/src/log_query.rs:308-311 | Each record comes up once the bytes of the call down to its start are read, and at most one block more, across all day files. |
| `ReadBudget.UnreadableFileExample` | src-tauri/src/log_query.rs:311-332 | A file none of whose lines is a JSON record is read whole, of whatever size, and the page has neither a cursor nor the mark of a scan cut short. |
| `LogLines.BackwardIsForwardReversed` | src-tauri/src/log_query.rs:122-163 | For all bytes and end positions, reading lines backwards yields exactly the non-empty newline-separated pieces, with their offsets, in reverse. |
| `LogLines.LastOfForward` | src-tauri/src/log_query.rs:138-148 | The line read next is the last of the pieces before the position, and the pieces before its offset are the others: reopening at any returned offset yields exactly the rest. |
| `LogLines.LastLineInPlace` | src-tauri/src/log_query.rs:140-147 | A returned line has no newline, is bounded by newlines or the ends of the range, and stands at its offset; if there is none, all bytes left are newlines. |
| `LogLines.ResumeAtLineStart` | src-tauri/src/log_query.rs:131-147 | Reopening behind the newline in front of a line or before that newline makes no difference. |
| `LogLines.LineExactlyWhen` | src-tauri/src/log_query.rs:138-151 | The lines are exactly the stretches, not empty, without byte 10 that lie between bytes 10 or the ends of the range. |
| `LogLines.LinesAscend` | src-tauri/src/log_query.rs:138-151 | They come by rising offset. |
| `LogLines.LinesExample` | src-tauri/src/log_query.rs:138-151 | The bytes of `A`, two line feeds and `B` are two lines, at 0 and 3. |
| `LogLines.LastLinePrefix` | src-tauri/src/log_query.rs:131-136 | Bytes at or after the end position play no part. |
| `RevLines.RevLines.NextLine` | src-tauri/src/log_query.rs:138-162 | The block-wise reader returns the last line not yet returned, for every block size; once it returns the line at an offset it has read exactly the whole blocks needed to see the byte before it; it ends because the chunk's start or its length falls at each turn. |
| `RevLines.RevLines.Turn` | src-tauri/src/log_query.rs:139-161 | One turn of the loop returns the line wanted or keeps it as the line wanted, and (start, length) of the chunk falls. |
| `RevLines.RevLines.ReadBlock` | src-tauri/src/log_query.rs:152-160 | The chunk stays the file's bytes from its start on, and the bytes read are exactly those below the end down to that start, so none is read twice. |
| `RevLines.RevLines.TakeLast` | src-tauri/src/log_query.rs:140-147 | A newline in the chunk gives the last line, or, behind an empty piece, leaves it to be found before that newline. |
| `RevLines.RevLines.TakeFirst` | src-tauri/src/log_query.rs:149-151 | At the start of the file the rest of the chunk is the first line, unless it is empty. |
| `RevLines.RevLines.constructor` | src-tauri/src/log_query.rs:131-136 | Reading starts at the given end or at the file's length, whichever is less, with blocks of at least 16 bytes. |
| `RevLines.BytesFor` | src-tauri/src/log_query.rs:152-157 | The I/O bound: for the line at offset o below end E, at least E − o and at most E − o plus one block are read, and never more than E. |
| `RevLines.ReadDownVia` | src-tauri/src/log_query.rs:152-160 | Where the blocks lie depends only on the end the reader was opened at, not on the lines returned in between. |
| `LogRecords.BackRecordsAreForwardReversed` | src-tauri/src/log_query.rs:202-236 | Assembling records backwards gives the forward records reversed: each header takes the lines up to the next one, in file order; lines above the first header are dropped. |
| `LogRecords.RecordsAre` | src-tauri/src/log_query.rs:211-235 | The record of each header, at the header's rank: its offset and id, and its event; a human one has its message first, then each line up to the next header, in file order, behind one line feed, and nothing else. |
| `LogRecords.CountRecords` | src-tauri/src/log_query.rs:211-235 | There are as many records as headers. |
| `LogRecords.AppendIsJoined` | src-tauri/src/log_query.rs:223-226 | Joining lines to a message gives the message, then at each running offset a line feed and the next line, and ends there. |
| `LogRecords.AppendExample` | src-tauri/src/log_query.rs:223-226 | `a` with the lines `b` and `c` is `a`, line feed, `b`, line feed, `c`. |
| `LogRecords.TrimEndCrIs` | src-tauri/src/log_query.rs:214 | All trailing carriage returns go and nothing else. |
| `LogRecords.StartsExactlyWhen` | src-tauri/src/log_query.rs:213-221 | A line starts a record if and only if it parses in the form of its file, decoded and without trailing carriage returns. |
| `LogRecords.LastOfForwardRecords` | src-tauri/src/log_query.rs:211-235 | Gathering continuation lines from below and then meeting their header takes exactly the last record off the forward records, and the others are those before the header's offset. |
| `LogRecords.ForwardRecordsSplit` | src-tauri/src/log_query.rs:221-229 | The forward grouping can be cut at any header. |
| `LogRecords.BackRecordsPrefix` | src-tauri/src/log_query.rs:211-235 | Records below a position do not change when bytes are appended behind it. |
| `RecordsRev.RecordsRev.NextRecord` | src-tauri/src/log_query.rs:211-235 | Returns the last record not yet returned; nothing is pending whenever it returns, so a reader reopened at the record's offset goes on exactly as this one does; states the bytes read for it. |
| `RecordsRev.RecordsRev.Drain` | src-tauri/src/log_query.rs:223-226 | Continuation lines met from the last to the first are appended in file order, each behind a newline, and forgotten. |
| `LogDirectory.DayFiles` | src-tauri/src/log_query.rs:107-120 | Collecting by day in a map and sorting gives one file a day, newest day first, and for each day the JSON twin if there is one, else the human log, else nothing. |
| `LogDirectory.DaysAre` | src-tauri/src/log_query.rs:107-120 | The same of the days as a function of the folder, for every date. |
| `LogDirectory.SortDays` | src-tauri/src/log_query.rs:117-118 | Sorting the map's values, in whatever order they come, gives strictly falling dates and loses no day. |
| `LogDirectory.PutFiles` | src-tauri/src/log_query.rs:109-116 | Inserting the files of a listing in order leaves the last one of each day over what was there. |
| `LogDirectory.IsLogExactlyWhen` | src-tauri/src/logging.rs:138-142 | A log's name starts with `ufop`; a human one has `.log` somewhere in it, a JSON one ends with `.jsonl`. |
| `LogDirectory.DayOfIs` | src-tauri/src/log_query.rs:100-104 | A day is what stands between `ufop.` and the next dot, or the name up to its first dot. |
| `LogDirectory.DailyLog` | src-tauri/src/log_query.rs:100-104 | A file `ufop.<day>.log` is a human log of that day and no JSON log. |
| `LogDirectory.ToDayIs` | src-tauri/src/log_query.rs:110-115 | What stands for a day is the file itself, in the form it was listed as. |
| `Ordering.LessExactlyWhen` | src-tauri/src/log_query.rs:118 | One day is older than another if and only if they agree on some first characters and then it ends or has the smaller one. |
| `Ordering.SortIsStable` | src-tauri/src/logging.rs:148 | Files of one time stay in the order they were listed in. |
| `LogGrowth.NewestComesFirst` | src-tauri/src/log_query.rs:117-118 | The first of the days is the one that no log's day is newer than. |
| `LogGrowth.NewestDayFirstExample` | src-tauri/src/log_query.rs:117-118 | Of logs of 2026-10-23 and 2026-10-24, in either listing order and with any times, 2026-10-24 comes first. |
| `Cursor.CursorRoundTrip` | src-tauri/src/log_query.rs:278-283 | Splitting `<date>@<offset>` gives date and offset back if and only if the date has no `@`; otherwise it is an error. |
| `Cursor.SplitExactlyWhen` | src-tauri/src/log_query.rs:278-283 | A cursor is a date without `@`, an `@`, and a number. |
| `Cursor.ParsesExactlyWhen` | src-tauri/src/log_query.rs:281 | A number is an optional `+` and at least one digit, below 2 to the 64. |
| `Cursor.NumbersExample` | src-tauri/src/log_query.rs:171 | Offset 1024 is written as `1024` and read as 1024. |
| `BlockPayload.ReadBlocks` | scripts/ufop-recover.py:175-208 | The reader that moves through the payload decodes as the function below, errors included. |
| `BlockPayload.PayloadRoundTrip` | scripts/ufop-recover.py:183-208 | Decoding any encoded list of blocks gives their names and data (of two with one name, the last), whatever follows them; the check of the count never rejects one. |
| `BlockPayload.ContentsAre` | scripts/ufop-recover.py:196-207 | The decoded map has exactly the names of the blocks, and for each the data of the last block of that name: as stored for flag 0, inflated for 1, what Zstandard makes of it for 2. |
| `BlockPayload.DecodedIs` | scripts/ufop-recover.py:196-207 | The same of decoding an encoded list. |
| `BlockPayload.UnpacksExactlyWhen` | scripts/ufop-recover.py:200-207 | What each flag yields, and the script's own error for any other. |
| `BlockPayload.OneBlockDecodes` | scripts/ufop-recover.py:193-207 | A payload of one block, byte by byte. |
| `BlockPayload.FlagsExample` | scripts/ufop-recover.py:200-207 | One block stored with each of the flags 0 to 3. |
| `Bytes.Le32Example` | scripts/ufop-recover.py:193 | Counts and lengths are least significant byte first. |
| `BlockPayload.ImplausibleCounts` | scripts/ufop-recover.py:187-195 | A payload too short for its count, or with too large a count, is refused by the script's own exception. |
| `BlockPayload.ZipsAre` | scripts/ufop-recover.py:178-182 | What starts with one of the two ZIP magics is left to the ZIP library. |
| `BlockPayload.CutPayloadIsRefused` | scripts/ufop-recover.py:185-195 | Every proper prefix of an encoded payload is refused, by the script's own exception. |
| `BlockPayload.LooksLikeZip` | scripts/ufop-recover.py:178 | An encoded payload is taken for a ZIP archive if and only if it holds one of two numbers of blocks. |
| `BlockPayload.DecodeCrashesExactlyWhen` | scripts/ufop-recover.py:175-208 | Exactly which payloads raise an exception that is not the script's own: besides ZIP archives, those with a plausible count in which the first block that cannot be read is complete, but its name is not UTF-8 or its stream does not unpack. |
| `BlockPayload.DamagedStreamExample` | scripts/ufop-recover.py:202-203 | A complete payload whose deflate stream is damaged raises an exception that is not the script's own. |
| `BlockPayload.Reader.TakeNext` | scripts/ufop-recover.py:185-191 | Takes exactly the next bytes, or fails and does not move. |
| `BlockPayload.Reader.NextBlocks` | scripts/ufop-recover.py:196-207 | The loop puts the blocks over one another in order. |
| `BlockIndex.BuildIndex` | scripts/ufop-recover.py:267-291 | The two loops build the index described by the next rows, errors included. |
| `BlockIndex.LocatedExactlyWhen` | scripts/ufop-recover.py:267-291 | For every needed block: if index volumes list it, it is located where the last listing says, provided that volume is there, and nowhere else; if none does, it is located in the first readable block volume that holds it, and not located only when none holds it. Its size is the listed one, else its true length there. |
| `BlockIndex.IndexedExactlyWhen` | scripts/ufop-recover.py:272-290 | The index can be built if and only if no index volume raises an exception that is not caught and, when a needed block is left without a present volume or a size, no block volume of the folder does either. |
| `BlockIndex.NeedsScanExactlyWhen` | scripts/ufop-recover.py:281-282 | The folder is scanned if and only if some needed block is not listed, or last listed in a volume that is gone, or has no size. |
| `BlockIndex.IndexesAre` | scripts/ufop-recover.py:272-280 | Over all index volumes the last listing of a hash that takes effect wins, for volume and size, up to the entry at which a volume's list breaks off. |
| `BlockIndex.BlocksAre` | scripts/ufop-recover.py:283-290 | The scan never replaces what is there; the first volume that holds a block wins, with the block's length. |
| `BlockIndex.AddDocTo` | scripts/ufop-recover.py:275-280 | One index volume: entries before a malformed one take effect, and of the malformed one a hash without a size still does. |
| `RestorePlan.PlanFile` | scripts/ufop-recover.py:365-375 | The plan loop over a file's blocks groups exactly that file's plan onto the groups there were; it raises if and only if a content-defined block at a known position has a size that cannot be added. |
| `RestorePlan.FixedBlocksAt` | scripts/ufop-recover.py:367-373 | With fixed blocks, block k goes to k times the block size. |
| `RestorePlan.VariableBlocksAt` | scripts/ufop-recover.py:369-375 | With content-defined blocks, block k goes behind the sum of the sizes of those before it; if one of them is unknown it is not placed. |
| `RestorePlan.GroupsAre` | scripts/ufop-recover.py:371-377 | The groups are the plan's volumes, each once, in the order they first come up, and each has all its volume's jobs in plan order: no volume is read twice. |
| `RestorePlan.WrittenExactlyWhen` | scripts/ufop-recover.py:350-361 | Everything but folders and links is written as a file. |
| `Writes.WriteAllIsImage` | scripts/ufop-recover.py:389-391 | Writing any list of writes that agree where they overlap leaves exactly those bytes, zeros in gaps, and everything else as it was. |
| `Writes.ImageIsUnique` | scripts/ufop-recover.py:389-391 | That result is determined by the set of writes, so their order does not matter. |
| `Writes.WriteAllComes` | scripts/ufop-recover.py:389-391 | Also when writes overlap, no byte is left that none of them wrote, and every write's place is in the file. |
| `Writes.WriteAtBytes` | scripts/ufop-recover.py:389-391 | Seek and write, byte by byte, also behind the end of the file and with no data. |
| `Restore.WholeFileIsJoined` | scripts/ufop-recover.py:347-391 | When every block of a file is located, verified and as long as the step to the next one, the writes grouped by volume leave the file equal to its blocks joined in order, for fixed and content-defined blocks alike, with zeros up to a larger recorded size, and nothing is missing. |
| `Restore.RestoredFileIs` | scripts/ufop-recover.py:363-391 | When no verified block reaches past the place of the next one, the file is zeros with exactly its verified blocks, each whole and at its planned place, no longer than its recorded size or its last written byte; blocks written plus missing are all block references. |
| `Recovery.FileIsSalvaged` | scripts/ufop-recover.py:267-391 | From the folder to the file: in a restore that gets to its report, with true sizes in the folder and no hash collision, a file is its original with exactly those blocks zeroed out that the folder does not yield (the volume it is last listed in, or else the first that holds it, has the right data) or that follow a content-defined block without a size; `missing` is their number. |
| `Recovery.FileIsWholeExactlyWhen` | scripts/ufop-recover.py:267-391 | Nothing is missing if and only if the folder yields every block and a size for each content-defined one but the last; the file is then the original. |
| `Recovery.FetchedExactlyWhenAtHand` | scripts/ufop-recover.py:267-388 | A needed block at a known place is written if and only if the folder yields it. |
| `Damage.DamagedFileIs` | scripts/ufop-recover.py:363-391 | Against the original: with true sizes and no hash collision, the restored file is the original with exactly the blocks that could not be written zeroed out, whichever those are and in whatever order the volumes come, for fixed and content-defined blocks; `missing` is their number. |
| `Damage.ExpectedAt` | scripts/ufop-recover.py:363-391 | Block by block: block k of that file is the original one if it was fetched for its place, else all zeros. |
| `Damage.JoinAt` | scripts/ufop-recover.py:389-391 | Joined blocks stand one behind the other, each at the sum of the sizes before it. |
| `Damage.NothingMissing` | scripts/ufop-recover.py:385-387 | When no block is counted as missing, the file is the original. |
| `Damage.GapIsZero` | scripts/ufop-recover.py:363-391 | Where a block is lost, every byte of the file from its place to the next one is zero, and to the end when the next place is unknown. |
| `Damage.PlannedAtPlace` | scripts/ufop-recover.py:365-375 | Every block of the plan is the one of that number, at the place that the sizes in front of it give. |
| `Restore.InPlanOrder` | scripts/ufop-recover.py:347-391 | Without overlaps, the writes grouped by volume leave the file as the same writes in the order of its blocks do. |
| `Restore.NothingElseIsWritten` | scripts/ufop-recover.py:363-391 | Whatever is damaged and whatever the index says of sizes: every byte of a restored file is that of a verified block at its planned place, or zero where no such block goes, and there is nothing behind them; blocks written plus missing are all block references. |
| `RestoreOutcome.FinishesExactlyWhen` | scripts/ufop-recover.py:328-412 | The command gets to its report if and only if files are selected, no index volume raises an exception that is not caught, nor, if a needed block is not indexed, any block volume at all, nor a volume that a block is to be read from, and no size that cannot be added belongs to a content-defined block at a known place. |
| `RestoreOutcome.OpenFolderFinishes` | scripts/ufop-recover.py:328-412 | In a folder where every volume opens or fails as the script expects and all listed sizes are numbers, every restore gets to its report. |
| `RestoreOutcome.UnneededVolumeExample` | scripts/ufop-recover.py:282-290 | Two volumes, the needed block in the first one: the damaged second one ends the restore, though the write loop by itself would have come to its end. |
| `RestoreOutcome.FirstHolderExample` | scripts/ufop-recover.py:286-288 | A block with a wrong first copy and an intact second one is not written. |
| `RestoreOutcome.GoneVolumeExample` | scripts/ufop-recover.py:281-291 | A block listed in a volume that is gone is not located, though another volume holds it. |
| `RestoreOutcome.LastListingExample` | scripts/ufop-recover.py:277 | Of two index volumes that list a block, the last one counts. |
| `RestoreOutcome.PartialListingExample` | scripts/ufop-recover.py:276-280 | A listing without a size counts for the volume and ends its list. |
| `RestoreOutcome.CompleteIndexExample` | scripts/ufop-recover.py:282 | With a complete index a broken volume that nothing needs does no harm. |
| `RestoreOutcome.UnfitSizeExample` | scripts/ufop-recover.py:375 | A listed size such as `null` ends the restore of a content-defined file, although the folder's volumes can be read, and leaves it zero-filled. |
| `Restore.RunFinishesExactlyWhen` | scripts/ufop-recover.py:347-391 | Once the index is built, the run gets to its end if and only if planning meets no size that cannot be added and no volume the write loop reads raises an exception that is not caught. |
| `Restore.OnlyVerifiedIsWritten` | scripts/ufop-recover.py:384-391 | Nothing is written that is not the data, with the right hash, of a block planned for that very place. |
| `Restore.ScannedBlockExactlyWhen` | scripts/ufop-recover.py:282-288 | A needed block that no index volume lists is written if and only if some readable block volume holds it and the first that does has the right data for it. |
| `Restore.GroupAllEffect` | scripts/ufop-recover.py:371-377 | Grouping by volume loses, adds and changes no write of any file and no missing block. |
| `Restore.DoGroupsDid` | scripts/ufop-recover.py:377-391 | Going through the groups does to each file exactly the writes of its own jobs, and counts exactly those that fail. |
| `Restore.PlanOfFile` | scripts/ufop-recover.py:347-375 | Of the whole plan, only a file's own blocks concern it. |
| `Restore.WrittenOrLost` | scripts/ufop-recover.py:384-388 | Every block reference is either written or counted as missing. |
| `Restore.BlocksApart` | scripts/ufop-recover.py:366-375 | With such sizes, no two blocks of a file overlap. |
| `Restore.WritesFrom` | scripts/ufop-recover.py:369-375 | Behind a position a file is only written from there on, and behind a block of unknown size not at all. |
| `RestoreRun.Target.RestoreAll` | scripts/ufop-recover.py:328-412 | The command, from an empty target: index, plan, writes and report give the state of the functions above, and the report of the next row; it succeeds exactly when the restore finishes in the sense above. |
| `RestoreRun.Target.Tell` | scripts/ufop-recover.py:392-412 | `ok` counts the complete files, `ok` plus `partial` all selected files; the status is 0 if and only if every file misses nothing and matches its recorded hash when there is one. |
| `RestoreRun.ReportMeans` | scripts/ufop-recover.py:392-412 | The status is 0 if and only if every selected file misses no block and, when a hash is recorded, has a content of that hash, else 1; `ok` is the number of such files, `ok` plus `partial` that of all. |
| `RestoreRun.CompleteExactlyWhen` | scripts/ufop-recover.py:397-408 | When a file counts as complete, from the counts, contents and hashes themselves. |
| `RestoreRun.HashExample` | scripts/ufop-recover.py:400-406 | A file whose content has the recorded hash is ok and the status 0; with another content it is partial and the status 1. |
| `RestoreRun.NeededExactlyWhen` | scripts/ufop-recover.py:338 | The needed blocks are those of the selected files. |
| `Recovery.IntactFolderSucceeds` | scripts/ufop-recover.py:328-412 | From a folder that yields every block of files with true recorded sizes and hashes, every file is restored as it was, none is partial and the status is 0. |
| `RestoreRun.Target.DoGroups` | scripts/ufop-recover.py:376-391 | The write loop changes files and counts as the function on states does, and ends early on an exception that is not caught. |
| `RestoreRun.Target.Plan` | scripts/ufop-recover.py:347-375 | The plan loop leaves every file zero-filled at its recorded size and the whole plan grouped by volume; a size that cannot be added ends it with the files up to that one created. |
| `RestoreRun.Target.Load` | scripts/ufop-recover.py:378-383 | No volume or an unreadable one gives no blocks; other exceptions pass through. |
| `Secrets.ResolveValue` | cli/src/secrets.rs:67-96 | The loop with its cache gives what expansion without a cache gives, and looks up no name twice. |
| `Secrets.ExpandAll` | cli/src/secrets.rs:74-95 | The same of the loop alone, which ends at the first name that does not resolve. |
| `Secrets.ResolvePrinted` | cli/src/secrets.rs:67-96 | Resolving the printed form of any template of literals and references gives the literals and secrets joined in order, or the error of the first name that does not resolve; a `$` in a secret is never expanded again. |
| `Secrets.PrintedIsNotShorthand` | cli/src/secrets.rs:68-70 | No printed template is taken for a lone `$name`. |
| `Secrets.PlainText` | cli/src/secrets.rs:71-73 | The early return for values without placeholders changes nothing. |
| `Secrets.NamesExactlyWhen` | cli/src/secrets.rs:9-11 | Names are letters, digits and the signs `_-./:#@`, at least one. |
| `Secrets.ShorthandResolves` | cli/src/secrets.rs:68-70 | `$name` alone is the secret of that name. |
| `Secrets.PlainResolves` | cli/src/secrets.rs:71-73 | Any other value without `${` and `$$` is taken as it is. |
| `Secrets.DollarsAre` | cli/src/secrets.rs:80-92 | `$$` is one `$`; a `$` that starts no placeholder stands for itself. |
| `Secrets.BadBraces` | cli/src/secrets.rs:83-92 | Braces around something that is no name are left alone. |
| `Secrets.FailuresSayWhy` | cli/src/secrets.rs:52-63 | Failing without providers, or without the name anywhere, and what the message says. |
| `Secrets.FailuresAreJoined` | cli/src/secrets.rs:60-63 | The errors of several providers are joined in their order. |
| `Secrets.LookUp` | cli/src/secrets.rs:51-64 | The loop over the providers answers as the function of the next row, with all errors joined in order. |
| `Secrets.FirstProviderDecides` | cli/src/secrets.rs:56-63 | The first provider that has a name decides; errors of others matter only when none has it. |
| `Csv.ReadWrittenRecords` | cli/src/output.rs:83-99 | Reading any list of written records by section 2 of RFC 4180 gives the rows with formulas defused, an empty row as one empty field. |
| `Csv.RoundTripExactlyWhen` | cli/src/output.rs:83-99 | The rows come back as they were, formulas defused, if and only if none is empty. |
| `Csv.ReadWritten` | cli/src/output.rs:89-93 | A written field reads back as it was, with commas, quotes and line breaks in it, in front of anything that ends a field. |
| `Csv.DefusedExactlyWhen` | cli/src/output.rs:87-88 | A cell gets a `'` in front if and only if it starts with `=`, `+`, `-`, `@`, tab or CR and is not a number. |
| `Csv.QuotedExactlyWhen` | cli/src/output.rs:89-93 | A field is quoted if and only if it holds a comma, a quote, LF or CR. |
| `Csv.RecordIs` | cli/src/output.rs:95-97 | Fields are joined by commas and a record ends with CR LF. |
| `Csv.QuotedFieldsExample` | cli/src/output.rs:89-93 | A comma and a quote in a field. |
| `Csv.FromValue` | cli/src/output.rs:113-144 | The loops write the records of the table described by the next rows. |
| `Csv.TableIsRectangular` | cli/src/output.rs:130-143 | Objects give a rectangular table: the header holds every key once and nothing else, and the cell of row r in column c is that key's value in object r, or empty. |
| `Csv.CellsOf` | cli/src/output.rs:101-108 | Nothing for null, strings as they are, anything else as compact JSON. |
| `Csv.CellForIs` | cli/src/output.rs:140 | A cell is the value of the object's member of that name, or empty. |
| `Csv.TablesOf` | cli/src/output.rs:115-129 | Nothing is written for null and empty lists; a list with a value that is no object is one column `value`; a single value is a list of one. |
| `Csv.KeysAre` | cli/src/output.rs:131-132 | The keys of a list are those of each object in turn. |
| `Csv.FirstSeenOrder` | cli/src/output.rs:130-137 | Further keys only add columns on the right: columns are in the order their keys first come up. |
| `Csv.Columns` | cli/src/output.rs:130-137 | The nested loops collect the keys in that order. |
| `Csv.TableReadsBackExactlyWhen` | cli/src/output.rs:113-144 | The written table reads back if and only if it is not one of objects without any keys. |
| `Profiles.SavingChangesOneProfile` | cli/src/config.rs:78-95 | Load with a profile and a URL, edit any overlaid field, save: only that profile changes, the top level and all other profiles come back as they were, and the URL of the command line is replaced by the file's own unless it was edited to a different one. |
| `Profiles.LoadAfterSave` | cli/src/config.rs:130-172 | What was saved to a profile is what the next load with it shows. |
| `Profiles.SaveWithoutEditExactlyWhen` | cli/src/config.rs:129-172 | Saving without an edit leaves the file as it was if and only if the run uses no named profile or one that exists. |
| `Profiles.SaveCreatesExample` | cli/src/config.rs:129-172 | A run with a profile that does not exist yet leaves an empty one behind. |
| `Profiles.StoredTwice` | cli/src/config.rs:154-172 | What is stored has neither overlay nor override left, so storing it again changes nothing. |
| `Profiles.LookupSeesTheFile` | cli/src/config.rs:143-151 | Whatever is overlaid, every profile is still read as it is in the file, but for the URL of the command line in the one in use. |
| `Profiles.LookupIs` | cli/src/config.rs:143-151 | In a file as stored, `default` is the top level and any other profile the one of that name, if there is one. |
| `Profiles.ChosenIs` | cli/src/config.rs:79-84 | The profile of a run is the one asked for, or else the file's current one; `default` is the top level. |
| `Profiles.LoadedIs` | cli/src/config.rs:78-90 | What a run sees: the profile's settings, none if it does not exist, or the file's, with the URL of the command line on top. |
| `Profiles.KeptIs` | cli/src/config.rs:162-168 | Of the fields of a run all are kept, but for the command line's URL, which gives way to the file's. |
| `Profiles.CliConfig.Load` | cli/src/config.rs:78-90 | The profile is overlaid first and the URL of the command line goes on top of it. |
| `Profiles.CliConfig.Activate` | cli/src/config.rs:130-135 | The top-level fields are put aside whole and the profile's take their place; nothing else changes. |
| `Profiles.CliConfig.OverrideApiUrl` | cli/src/config.rs:92-95 | The URL is replaced and the former one, if any, remembered; nothing else changes. |
| `Profiles.CliConfig.Store` | cli/src/config.rs:154-172 | The edited copy is what the function on values says, and the configuration itself is unchanged. |
| `Retention.Prune` | src-tauri/src/logging.rs:155-175 | The loop removes exactly the files the function on the list names, and counts each once. |
| `Retention.Apply` | src-tauri/src/logging.rs:63-65 | The same for a number of days and megabytes: which files go, and how many. |
| `Retention.CandidatesAre` | src-tauri/src/logging.rs:133-159 | The loop goes through all logs of both kinds, each as often as it is listed, by falling time; of one time human ones first, each kind in the order of its listing. |
| `Retention.GoesExactlyWhen` | src-tauri/src/logging.rs:163-173 | Going down the list, newest first, a log goes if and only if there was one of its kind before and it is older than `max_age` or does not fit into `max_total` beside the logs kept so far. |
| `Retention.EmptyListing` | src-tauri/src/logging.rs:160-163 | Before the first log nothing is kept and nothing is gone. |
| `Retention.TotalSnoc` | src-tauri/src/logging.rs:172 | The total counts each kept log's bytes. |
| `Retention.AlwaysKeptExactlyWhen` | src-tauri/src/logging.rs:152-171 | A file survives every clock and every limit if and only if each of its listings is the newest of its kind. |
| `Retention.NewestOfKindSurvives` | src-tauri/src/logging.rs:163-171 | When no file counts as both kinds, the newest of each kind survives. |
| `Retention.PrunedFolder` | src-tauri/src/logging.rs:152-174 | In any folder that is left: at most two logs are the newest of their kind; all others are young enough and together fit `max_total`, so the folder's logs total at most that plus those newest ones. |
| `Retention.LeftAreSurvivors` | src-tauri/src/logging.rs:155-175 | Listing the folder anew after the deletions gives the survivors of the loop, in its order, without those whose file went with another listing; that is all of them if and only if there are none such. |
| `Retention.NewestAreLeft` | src-tauri/src/logging.rs:152-175 | When no file counts as both kinds there are none such, and the newest of each kind are the same as before. |
| `Retention.PruneAgainRemovesNothing` | src-tauri/src/logging.rs:155-175 | In any folder, pruning again at the same clock removes nothing. |
| `Retention.BothKindsExample` | src-tauri/src/logging.rs:141-171 | A file named `ufop.log.jsonl` can be removed although it is the only human log. |

## Left out

- Parsing of timestamps, JSON lines, human headers, levels, numbers in CSV cells and index volumes, lower-casing and UTF-8 decoding: tables.
- `Filters::from`: its result, filters or an error, is part of the query.
- Failing I/O: files open, read and delete; `LogPage.directory` is not modelled.
- 64-bit wrap-around of byte totals: totals are unbounded numbers. File lengths are taken to fit 64 bits, which the cursor needs.
- Logs deleted between two pages: what lies below the cursor is then no longer what it was.
- Listed sizes that are negative or fractional, and volume names and hashes that are not strings: a listed size is a natural number or cannot be added at all (RestoreOutcome.FinishesExactlyWhen speaks of those).
- Cryptography, ZIP, Zstandard and deflate: tables; a volume is its payload or the exception opening it raises.
- `versions`, `selected`, `relative_target`, `dest`, symbolic links and modification times: the selected entries are given and have distinct targets.
- Restored files whose indexed sizes are wrong: blocks behind a wrong size are put at wrong places, and which of two overlapping ones wins depends on the order of volumes; Restore.NothingElseIsWritten covers such files.
- The answers of secret providers (`env://`, `file://`, `pass://`): a table.
- `print_table` and other output formats; TOML, file permissions and the saved connections' commands.
- `profiles.rs` of the core crate beyond the type and the default name; `CliConfig::has_profile`.
- `Retention::load`, `save` and `validate`, and the log writers.
- The order of the page's sources: a set here, sorted in the original.
- Retention.NewestAreLeft: for folders in which no file counts as both kinds, as is Retention.NewestOfKindSurvives; in others it fails (Retention.BothKindsExample), and Retention.AlwaysKeptExactlyWhen says when a file stays.
- Everything else in the repository: windows, tray, server, cloud folders, diagnostics and the web client.
