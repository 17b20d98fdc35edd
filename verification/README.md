# Song-play ETL, modelled in Dafny

This project models the record-transformation core of the song-play ETL job `etl.py`. The job reads two families of JSON-lines files and builds five relations for a star schema:

- the song-metadata files feed the `songs` and `artists` relations;
- the activity-log files feed the `time`, `users` and `songplays` relations.

The model takes the discovered files as a sequence of files, each file a sequence of already-parsed records in line order. It reproduces what the two transformers compute up to the point where the relations are bulk-loaded.

- **Song transformer** (`Songs`). Every record is projected to a song row and an artist row. The rows are appended file after file. The song frame is then deduplicated on `song_id` keeping the first row, and the artist frame on `artist_id` keeping the first row.
- **Log transformer** (`Logs`, `Users`, `Calendar`).
  - Each file is masked to its `NextSong` lines.
  - Each play's epoch-millisecond `ts` is rounded to the nearest second, ties to even, as pandas `Timestamp.round` does.
  - The rounded second is decomposed into time of day, hour, day, ISO week, month, year and weekday (Monday = 0) on the proleptic Gregorian calendar.
  - The user columns of each file are put in front of the user frame. The whole frame is then masked (userId not the empty text, no null field) and its userId cast to integers. A cast failure aborts the run. After the last file, duplicates are dropped keeping the last row per userId.
  - The time frame is deduplicated on its time-of-day column, keeping the first row.
  - Every play gives exactly one songplay row. Its `song_id` and `artist_id` come from the `song_select` query, which the model takes as an abstract function `Lookup` from (song, artist, length) to an optional id pair.
- **Support modules.**
  - `Seqs`: concatenation of files and boolean masks.
  - `Dedup`: `drop_duplicates` with `keep='first'` and `keep='last'`, with characterising predicates and one-pass methods.
  - `Decimal`: the integer text that `int()` accepts.
  - `Cells`: a pandas object-column value (null, text or integer).
  - `Results`: `Option` and `Result`.
  - `Scenario`: small concrete runs of both pipelines.

Three behaviours of the code are easy to misread, and the model follows the code in each:

- **User tie-break.** A reader might expect the most recent row for a userId to win. The code prepends each file's rows (etl.py:94) and then keeps the last row (etl.py:119). So the row kept is the last row of the EARLIEST file that has the userId (`Users.UserRelationSpec`, `Scenario.EarliestFileWins`).
- **Time deduplication key.** A reader might expect the time relation to be deduplicated on the full timestamp. The code uses the time-of-day column `t.dt.time` (etl.py:87, 121), so plays at the same clock second on different dates share one row (`Logs.LaterPlayAtSameClockDropped`).
- **Rounding.** A reader might expect the timestamp to be cut to the second. The code rounds it to the nearest second, ties to even (etl.py:83).

## Model

| member | source | states |
|---|---|---|
| Seqs.Filter | etl.py:78 | the masked frame holds only rows satisfying the mask and is no longer than the input |
| Seqs.FilterMember | etl.py:78 | a row is in the masked frame exactly when it is in the input and satisfies the mask |
| Seqs.FilterAppend | etl.py:78 | masking two frames one after the other gives the concatenation of the two masked frames |
| Seqs.FilterIdempotent | etl.py:95 | applying the same mask a second time changes nothing |
| Seqs.MapAppend | etl.py:43-46 | selecting columns from two frames stacked is stacking the two selections |
| Dedup.FirstIndex | etl.py:50 | the position of the first row with a given key: the row there has that key and no earlier row has it |
| Dedup.KeepFirst | etl.py:50-51 | no contract of its own; `Dedup.KeepFirstIsFirstPerKey` characterises it |
| Dedup.LastIndex | etl.py:119 | the position of the last row with a given key: the row there has that key and no later row has it |
| Dedup.KeepLast | etl.py:119 | no contract of its own; `Dedup.KeepLastIsLastPerKey` characterises it |
| Dedup.KeepFirstIsFirstPerKey | etl.py:50-51 | keep-first deduplication leaves distinct keys, the same key set, each key's first row, in first-appearance order |
| Dedup.FirstPerKeyHoldsFirst | etl.py:50-51 | in a keep-first result, the first row with a key is present and is the only row with that key |
| Dedup.KeepFirstFromSpec | etl.py:50-51 | deduplicating after some keys are already taken keeps the first row of every other key, in order |
| Dedup.KeepLastIsLastPerKey | etl.py:119 | keep-last deduplication leaves distinct keys, the same key set, each key's last row, in last-appearance order |
| Dedup.KeepFirstInOnePass | etl.py:50-51 | one forward pass with a set of seen keys computes keep-first deduplication |
| Dedup.KeepLastInOnePass | etl.py:119 | one backward pass with a set of seen keys computes keep-last deduplication |
| Calendar.RoundToSecond | etl.py:83 | the rounded second is within half a second of the millisecond timestamp, and an exact half goes to the even second |
| Calendar.RoundToSecondUnique | etl.py:83 | any second with those two properties is the rounded one, so the rounding is round-half-to-even |
| Calendar.MonthStep | etl.py:87 | the days before a month plus that month's length are the days before the next month; the thirteenth month starts after the whole year |
| Calendar.YearStep | etl.py:87 | the days before the next year are the days before this year plus this year's 365 or 366 days |
| Calendar.EraShift | etl.py:87 | the Gregorian calendar repeats every 400 years, which are 146097 days |
| Calendar.YearOf | etl.py:87 | the year of a day ordinal is the one whose first day is at or before the ordinal and whose successor's first day is after it |
| Calendar.OrdinalToDate | etl.py:87 | the date of a day ordinal is a valid Gregorian date that maps back to the same ordinal |
| Calendar.OrdinalInjective | etl.py:87 | two valid dates with the same ordinal are the same date |
| Calendar.DateRoundTrip | etl.py:87 | converting a valid date to its ordinal and back gives the date |
| Calendar.ClockOf | etl.py:87 | the clock of an epoch second is a valid hour, minute and second, equal to that second's offset into its day |
| Calendar.SplitRoundTrip | etl.py:84-87 | the date and clock of an epoch second put back together give the second |
| Calendar.JoinRoundTrip | etl.py:84-87 | the epoch second of a valid date and clock splits back into that date and clock |
| Calendar.ClockIgnoresDate | etl.py:121 | shifting a timestamp by whole days leaves its time of day unchanged |
| Calendar.Weekday | etl.py:87 | the weekday is in 0..6; `Calendar.WeekdayFromEpoch` fixes its value on every day |
| Calendar.WeekdayNextDay | etl.py:87 | the weekday of the next day is one more, wrapping from Sunday (6) to Monday (0) |
| Calendar.WeekdayFromEpoch | etl.py:87 | every day's weekday is its distance in days from the Thursday 1970-01-01, plus 3, modulo 7 |
| Calendar.FirstIsoMondayIsMonday | etl.py:87 | the day week 1 of a year starts on has weekday 0 and lies in the seven days ending on January 4th |
| Calendar.UnixEpochIsThursday | etl.py:84-87 | 1970-01-01 is the epoch's day ordinal and has weekday 3, so Monday is 0 |
| Calendar.IsoWeek | etl.py:87 | the ISO week number is in 1..53 |
| Calendar.IsoWeekCountsFromFirstIsoMonday | etl.py:87 | the ISO week counts weeks from the Monday of the week holding 4 January of the ISO year that contains the day, and the day lies at or after that Monday and before the next ISO year's |
| Calendar.BracketsMeet | etl.py:87 | two years whose ISO weeks both contain a day are the same year |
| Calendar.FirstIsoMondayMonotone | etl.py:87 | for years y1 < y2, the week-1 Monday of year y1 + 1 is no later than that of y2, so week-1 Mondays never go backwards |
| Calendar.IsoYearUnique | etl.py:87 | the ISO year is the only year whose week-1 Monday is at or before the day and whose successor's is after it |
| Decimal.ParseInt | etl.py:96 | only non-empty text parses; text starting with a digit parses exactly when it is all digits, and any other text exactly when it is a '+' or '-' followed by one or more digits |
| Decimal.SignsAndZeros | etl.py:96 | digit text reads as its decimal value; a leading '+' or '0' leaves the value unchanged and a leading '-' negates it |
| Decimal.LeadingZeroValue | etl.py:96 | putting a '0' in front of digit text keeps it digit text with the same value |
| Decimal.ShowNatValue | etl.py:96 | the decimal digits of a natural number denote that number |
| Decimal.ParseShowRoundTrip | etl.py:96 | the decimal text of any integer parses back to it |
| Users.CoerceIds | etl.py:96 | the cast succeeds exactly when every userId converts to an int64; it then changes only the userId of each row, in place |
| Users.CleanUsers | etl.py:95-96 | every row that survives the mask and the cast is complete and has an int64 userId |
| Users.CleanUsersKeepsCompleteRows | etl.py:95-96 | cleaning fails exactly when some complete row's userId does not convert; otherwise a row is cleaned exactly when it is some complete incoming row with only its userId cast |
| Users.CleaningIsIdempotent | etl.py:95-96 | masking and casting rows that are already clean changes nothing |
| Users.Complete | etl.py:95 | the row mask; `Users.CleanUsersKeepsCompleteRows` shows a row reaches the cleaned frame exactly when it passes this mask and its userId converts |
| Users.DropIncomplete | etl.py:95 | no contract of its own; `Seqs.FilterMember` with the `Complete` mask: a row survives exactly when its userId is not empty and no column is null |
| Users.CoerceId | etl.py:96 | a converted userId lies in the int64 range, a null never converts, and a failure names the cell that did not convert |
| Users.CoerceIdOfText | etl.py:96 | text converts exactly when `int()` reads it as an integer within the int64 range, and then to that integer |
| Users.CoerceIdOfInteger | etl.py:96 | an integer, as a number or as its decimal text, converts to itself exactly when it fits in an int64; outside that range the cast fails |
| Users.AccumulateUsers | etl.py:93-96 | no contract of its own; `Users.AccumulateUsersShape` characterises it |
| Users.UserRelation | etl.py:119 | no contract of its own; `Users.UserRelationSpec` and `Dedup.KeepLastIsLastPerKey` characterise it |
| Users.UserStep | etl.py:94-96 | after one iteration every row of the user frame is complete and has an int64 userId |
| Users.UserStepIsIncremental | etl.py:94-96 | one iteration equals cleaning the new file's rows alone and putting them in front, and fails exactly when that cleaning fails |
| Users.CoerceIdsAppend | etl.py:96 | casting a frame followed by clean rows equals casting the frame and appending those rows |
| Users.CoerceIdsFirstFailure | etl.py:96 | once a frame's cast fails, appending rows does not change the failure |
| Users.AccumulateUsersShape | etl.py:93-96 | the loop fails exactly when some file's rows fail the cast; otherwise the frame is the cleaned files stacked latest first |
| Users.CleanedFilesSnoc | etl.py:93-96 | one more file whose rows pass the cast adds its cleaned rows as the last entry and leaves the earlier files' entries alone |
| Users.EarliestFileWith | etl.py:94 | the first file that holds a userId |
| Users.PrependAllLoaded | etl.py:94-96 | stacking clean files gives a clean frame |
| Users.PrependAllKeys | etl.py:94 | a userId is in the stacked frame exactly when some file holds it |
| Users.PrependAllLastIsWinner | etl.py:119 | in the stacked frame, the last row with a userId is the last row of the earliest file that holds it |
| Users.UserRelationSpec | etl.py:119 | the user relation is clean, unique by userId, holds exactly the userIds of the cleaned files, and keeps each one's last row of the earliest file |
| Logs.Plays | etl.py:78 | no contract of its own; `Seqs.FilterMember` shows a line survives exactly when its page is NextSong, and `Logs.AccumulateIgnoresNonPlays` that nothing else reaches the frames |
| Logs.TimeRowOf | etl.py:84-89 | no contract of its own; `Logs.TimeRowClock` and `Logs.TimeRowCalendar` characterise it |
| Logs.TimeRowClock | etl.py:84-87 | a time row has a valid clock whose hour is the hour column (0..23), and its date and clock reassemble to the rounded second |
| Logs.TimeRowCalendar | etl.py:87 | a time row holds a valid date, with month 1..12 and day 1..31, and that date's weekday 0..6 and ISO week 1..53 |
| Logs.PlayTime | etl.py:83-89 | no contract of its own; the time row of a play's rounded timestamp, which `Logs.TimeRowClock` and `Logs.TimeRowCalendar` characterise |
| Logs.TimeRows | etl.py:83-90 | no contract of its own; `Logs.TimeRowsKeys` gives its time-of-day keys and `Logs.AccumulateLogsShape` shows the time frame is it over all plays |
| Logs.UserRowOf | etl.py:93 | no contract of its own; the user columns of a line, which `Logs.BadUserIdFails` and `Logs.FailureHasBadUserId` relate to the cast |
| Logs.UserRows | etl.py:93 | no contract of its own; `Logs.AccumulateLogsShape` shows the user loop runs on it for each file |
| Logs.SongplayOf | etl.py:104-110 | a songplay row has a song_id exactly when it has an artist_id |
| Logs.Songplays | etl.py:99-117 | no contract of its own; `Logs.SongplaysOnePerPlay` characterises it |
| Logs.LogFileStep | etl.py:75-117 | no contract of its own; one iteration of the loop over log files, characterised by `Logs.AccumulateLogsShape` and `Logs.FileIgnoresNonPlays` |
| Logs.AccumulateLogs | etl.py:73-117 | no contract of its own; `Logs.AccumulateLogsShape` characterises it |
| Logs.ProcessLogFiles | etl.py:57-125 | no contract of its own; `Logs.TimeRelationSpec`, `Logs.UserRelationOfLogs`, `Logs.SongplaysOnePerPlay` and `Logs.LogRunFailsOnlyOnBadUserId` characterise it |
| Logs.AccumulateLogsShape | etl.py:73-117 | the loop's time and songplay frames are those of all plays of all files in order; its user frame and its failure are those of the user loop |
| Logs.AccumulateIgnoresNonPlays | etl.py:78 | cutting every file down to its plays beforehand leaves the loop's frames unchanged |
| Logs.FileIgnoresNonPlays | etl.py:78 | one iteration on a file gives the same frames as on the file cut down to its plays |
| Logs.NonPlaysContributeNothing | etl.py:78 | lines other than NextSong change none of the three relations |
| Logs.CleanUsersFailure | etl.py:93-96 | one file's rows fail the cast exactly when the file has a play with a complete user row whose userId is not integer text within the int64 range |
| Logs.FailureHasBadUserId | etl.py:95-96 | a failing cast of one file's rows points to a play with a complete user row and a userId that is not integer text within the int64 range |
| Logs.BadUserIdFails | etl.py:95-96 | a play with a complete user row and a userId that is not integer text within the int64 range makes the cast of its file's rows fail |
| Logs.LogRunFailsOnlyOnBadUserId | etl.py:95-96 | the run aborts exactly when some file has a play with a complete user row whose userId is not integer text within the int64 range |
| Logs.SongplaysOnePerPlay | etl.py:101-117 | one songplay row per play, in order, copying the rounded ts, raw userId, level, session, location and agent, with the lookup's pair or two nulls |
| Logs.TimeRowsKeys | etl.py:87-90 | the time-of-day keys of the time frame are the clocks of the plays' rounded timestamps |
| Logs.TimeRelationSpec | etl.py:121 | the time relation keeps the first play's row for every time of day, with distinct times of day, and holds exactly the plays' times of day |
| Logs.LaterPlayAtSameClockDropped | etl.py:121 | of two plays at the same clock second on different dates, when no play before the earlier one has that clock, the earlier play's row is kept and the later play's row is absent |
| Logs.UserRelationOfLogs | etl.py:93-119 | the user relation of the log run is clean and unique by userId, and keeps the last row of the earliest file holding each userId |
| Songs.SongRowOf | etl.py:43 | no contract of its own; the song columns of a record, which `Songs.KeptSongsAreFirst` relates to the song relation |
| Songs.ArtistRowOf | etl.py:45 | no contract of its own; the artist columns of a record, which `Songs.KeptArtistsAreFirst` relates to the artist relation |
| Songs.SongRows | etl.py:43-44 | no contract of its own; `Songs.AccumulateSongsShape` shows the song frame is it over all records |
| Songs.ArtistRows | etl.py:45-46 | no contract of its own; `Songs.AccumulateSongsShape` shows the artist frame is it over all records |
| Songs.SongFileStep | etl.py:42-46 | no contract of its own; one iteration of the loop over song files, characterised by `Songs.AccumulateSongsShape` |
| Songs.AccumulateSongs | etl.py:41-46 | no contract of its own; `Songs.AccumulateSongsShape` characterises it |
| Songs.ProcessSongFiles | etl.py:23-54 | no contract of its own; `Songs.SongRelationSpec`, `Songs.ArtistRelationSpec` and `Songs.SongArtistsAreListed` characterise it |
| Songs.AccumulateSongsShape | etl.py:41-46 | the loop's frames are the song and artist projections of all records, file after file |
| Songs.SongRelationSpec | etl.py:50 | the song relation is unique by song_id, holds every record's song_id, and keeps each one's first row in order |
| Songs.KeptSongsAreFirst | etl.py:50 | every row kept by the song deduplication is the row of the first record with its song_id |
| Songs.ArtistRelationSpec | etl.py:51 | the artist relation is unique by artist_id, holds every record's artist_id, and keeps each one's first row in order |
| Songs.KeptArtistsAreFirst | etl.py:51 | every row kept by the artist deduplication is the row of the first record with its artist_id |
| Songs.SongArtistsAreListed | etl.py:43-51 | every artist_id in the song relation has a row in the artist relation |
| Songs.RepeatedSongIsDropped | etl.py:50 | when a song_id is read again with other columns, the first row is kept and the later one is absent |
| Scenario.SongScenario | etl.py:41-51 | one song file with one song gives one song row and one artist row, holding its columns |
| Scenario.LogScenario | etl.py:73-121 | a play of a known song and a non-play page view give one time row, one user row with userId 7, and one songplay row with both ids |
| Scenario.EmptyUserIdStillPlays | etl.py:95-114 | a play with an empty userId gives a songplay row with that raw userId but no user row |
| Scenario.EarliestFileWins | etl.py:94-119 | a user who is "free" in the first file and "paid" in the second keeps the first file's "free" row |
| Scenario.OverflowingUserIdAborts | etl.py:96 | a play whose userId is the decimal text of an integer outside the int64 range aborts the run |

## Left out

- Database I/O: the psycopg2 cursor, the `copy_expert` bulk loads and `commit` (etl.py:52-54, 122-125). The model stops at the relations handed to the loader.
- The `song_select` query itself, including its matching and its float comparison on length. It reads the songs and artists tables that `process_song_file` loads and commits earlier in the same run (etl.py:52-54, 152-153). No statement of the log loop writes those tables, so the query answers the same way for the whole loop, and the model takes it as one fixed function `Lookup`. The model does not tie `Lookup` to the output of `Songs.ProcessSongFiles`.
- Empty input files. `read_json` on a file with no lines gives a frame with no columns, so `df[['song_id', ...]]` (etl.py:43) or `df['page']` (etl.py:78) raises `KeyError` and the run aborts. In the model, a file with no records contributes no rows and the run goes on.
- Directory walking (`process_data`) and `main`. The files arrive as a sequence in discovery order.
- JSON parsing by `read_json`, including its type inference. Records start as parsed datatypes. Cell models the cases the code distinguishes: null, text and integer.
- CSV serialisation (`bulk_copy`, `to_csv`) and the `./user.csv` side file. These are output formatting and file output.
- Progress `print` calls.
- Float columns (duration, length, latitude, longitude). They are opaque type parameters that are only copied or handed to the lookup.
- Calendar.RoundToSecond: ignores the nanosecond-based range of pandas timestamps (about the years 1677 to 2262). Integers and the proleptic calendar are unbounded here.
- Decimal.ParseInt: accepts only an optional sign followed by ASCII digits. Python's `int()` also allows surrounding whitespace, underscores between digits and non-ASCII digits.
- `t.dt.weekofyear` no longer exists in recent pandas versions. The model gives it the ISO-week meaning it had, the same as `isocalendar().week`.
- Column dtypes of the output frames (object versus int64). The model keeps cell values and compares them by value.
