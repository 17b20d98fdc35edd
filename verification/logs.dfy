/**
 * The log pipeline: every activity-log file is masked to its NextSong lines; those feed the
 * time frame and the songplay frame (appended file after file) and the user frame (see Users).
 * At the end the time frame is deduplicated on its time-of-day column and the user frame on
 * userId.
 */
module Logs {
  import opened Results
  import opened Seqs
  import opened Dedup
  import opened Cells
  import opened Calendar
  import opened Users

  /** One parsed activity-log line; L is the type of the track length, compared only by the lookup. */
  datatype LogRecord<L> = LogRecord(
    page: string, ts: int, userId: Cell, firstName: Cell, lastName: Cell, gender: Cell,
    level: Cell, sessionId: int, location: Cell, userAgent: Cell,
    song: Cell, artist: Cell, length: L)

  /** The song_select query: (title, artist name, length) to (song_id, artist_id), if a row matches. */
  type Lookup<-L> = (Cell, Cell, L) -> Option<(string, string)>

  datatype TimeRow = TimeRow(time: Clock, hour: int, day: int, week: int, month: int, year: int, weekday: int)

  datatype SongplayRow = SongplayRow(
    ts: int, userId: Cell, level: Cell, songId: Option<string>, artistId: Option<string>,
    sessionId: int, location: Cell, userAgent: Cell)

  /** The three frames the loop grows; after deduplication, the three relations handed to the loader. */
  datatype LogTables = LogTables(times: seq<TimeRow>, users: seq<UserRow>, songplays: seq<SongplayRow>)

  predicate IsPlay<L>(r: LogRecord<L>) {
    r.page == "NextSong"
  }

  /** The lines of a file that record a song being played. */
  function Plays<L>(file: seq<LogRecord<L>>): seq<LogRecord<L>> {
    Filter(file, IsPlay)
  }

  /** The time row of an epoch second: its clock, calendar date, ISO week and weekday. */
  function TimeRowOf(s: int): TimeRow {
    var o := OrdinalOf(s);
    var d := OrdinalToDate(o);
    var c := ClockOf(s);
    TimeRow(c, c.hour, d.day, IsoWeek(o), d.month, d.year, Weekday(o))
  }

  /** A time row's clock is a valid time of day, its hour is the clock's, and with its date it gives back the second. */
  lemma TimeRowClock(s: int)
    ensures var t := TimeRowOf(s);
      && ValidClock(t.time) && t.hour == t.time.hour && 0 <= t.hour <= 23
      && 1 <= t.month <= 12
      && EpochSecond(Date(t.year, t.month, t.day), t.time) == s
  {
    SplitRoundTrip(s);
  }

  /** A time row's date is a valid date, and its weekday and ISO week are that date's. */
  lemma TimeRowCalendar(s: int)
    ensures var t := TimeRowOf(s);
      && ValidDate(Date(t.year, t.month, t.day)) && 1 <= t.month <= 12 && 1 <= t.day <= 31
      && 0 <= t.weekday <= 6 && t.weekday == Weekday(DateToOrdinal(Date(t.year, t.month, t.day)))
      && 1 <= t.week <= 53 && t.week == IsoWeek(DateToOrdinal(Date(t.year, t.month, t.day)))
  {
  }

  function PlayTime<L>(r: LogRecord<L>): TimeRow {
    TimeRowOf(RoundToSecond(r.ts))
  }

  function TimeKey(t: TimeRow): Clock {
    t.time
  }

  function TimeRows<L>(df: seq<LogRecord<L>>): seq<TimeRow> {
    Map(df, PlayTime)
  }

  function UserRowOf<L>(r: LogRecord<L>): UserRow {
    UserRow(r.userId, r.firstName, r.lastName, r.gender, r.level)
  }

  function UserRows<L>(df: seq<LogRecord<L>>): seq<UserRow> {
    Map(df, UserRowOf)
  }

  /** The songplay row of one play: song_id and artist_id come from the lookup, both or neither. */
  function SongplayOf<L>(r: LogRecord<L>, lookup: Lookup<L>): (p: SongplayRow)
    ensures p.songId.Some? <==> p.artistId.Some?
  {
    var (songId, artistId) :=
      match lookup(r.song, r.artist, r.length)
      case Some((s, a)) => (Some(s), Some(a))
      case None => (None, None);
    SongplayRow(RoundToSecond(r.ts), r.userId, r.level, songId, artistId, r.sessionId, r.location, r.userAgent)
  }

  /** The row-by-row songplay builder of one log run, with its lookup fixed. */
  function SongplayWith<L>(lookup: Lookup<L>): LogRecord<L> -> SongplayRow {
    r => SongplayOf(r, lookup)
  }

  function Songplays<L>(df: seq<LogRecord<L>>, lookup: Lookup<L>): seq<SongplayRow> {
    Map(df, SongplayWith(lookup))
  }

  /** One iteration of the loop over log files (the body of the loop in process_log_file). */
  function LogFileStep<L>(frames: LogTables, file: seq<LogRecord<L>>, lookup: Lookup<L>)
    : Result<LogTables, LoadError>
  {
    var df := Plays(file);
    var times := frames.times + TimeRows(df);
    var users :- UserStep(frames.users, UserRows(df));
    var songplays := frames.songplays + Songplays(df, lookup);
    Success(LogTables(times, users, songplays))
  }

  /** The frames after reading every file in discovery order. */
  function AccumulateLogs<L>(files: seq<seq<LogRecord<L>>>, lookup: Lookup<L>): Result<LogTables, LoadError>
    decreases |files|
  {
    if |files| == 0 then Success(LogTables([], [], []))
    else
      var frames :- AccumulateLogs(files[..|files| - 1], lookup);
      LogFileStep(frames, files[|files| - 1], lookup)
  }

  /** The whole log pipeline, up to the bulk load. */
  function ProcessLogFiles<L>(files: seq<seq<LogRecord<L>>>, lookup: Lookup<L>): Result<LogTables, LoadError> {
    var frames :- AccumulateLogs(files, lookup);
    Success(LogTables(KeepFirst(frames.times, TimeKey), UserRelation(frames.users), frames.songplays))
  }

  /** The NextSong lines of all files, file after file and line after line. */
  function AllPlays<L>(files: seq<seq<LogRecord<L>>>): seq<LogRecord<L>> {
    Plays(Flatten(files))
  }

  /** The user columns of each file's NextSong lines. */
  function UserFiles<L>(files: seq<seq<LogRecord<L>>>): (u: seq<seq<UserRow>>)
    ensures |u| == |files|
  {
    seq(|files|, i requires 0 <= i < |files| => UserRows(Plays(files[i])))
  }

  /** Every file cut down to its NextSong lines. */
  function PlaysOnly<L>(files: seq<seq<LogRecord<L>>>): seq<seq<LogRecord<L>>> {
    seq(|files|, i requires 0 <= i < |files| => Plays(files[i]))
  }

  /** A surviving play whose complete user row carries a userId that astype(int) rejects: not integer text, or outside int64. */
  ghost predicate HasBadUserId<L>(r: LogRecord<L>) {
    IsPlay(r) && Complete(UserRowOf(r)) && CoerceId(r.userId).Failure?
  }

  /** Some NextSong line of the file has a complete user row with a userId that astype(int) rejects. */
  ghost predicate FileHasBadUserId<L>(file: seq<LogRecord<L>>) {
    exists r :: r in file && HasBadUserId(r)
  }

  /** What the songplay row of play r holds: r's own columns and the lookup's pair, or two nulls. */
  ghost predicate RecordsPlay<L>(p: SongplayRow, r: LogRecord<L>, lookup: Lookup<L>) {
    && p.ts == RoundToSecond(r.ts)
    && p.userId == r.userId && p.level == r.level && p.sessionId == r.sessionId
    && p.location == r.location && p.userAgent == r.userAgent
    && match lookup(r.song, r.artist, r.length)
       case Some((s, a)) => p.songId == Some(s) && p.artistId == Some(a)
       case None => p.songId == None && p.artistId == None
  }

  /**
   * The loop's frames: the time and songplay frames are those of all NextSong lines in order,
   * and the user frame is the one Users describes; the loop fails exactly when that does.
   */
  lemma {:induction false} AccumulateLogsShape<L>(files: seq<seq<LogRecord<L>>>, lookup: Lookup<L>)
    ensures AccumulateLogs(files, lookup).Success? <==> AccumulateUsers(UserFiles(files)).Success?
    ensures AccumulateLogs(files, lookup).Success? ==>
      AccumulateLogs(files, lookup).value == LogTables(
        TimeRows(AllPlays(files)), AccumulateUsers(UserFiles(files)).value, Songplays(AllPlays(files), lookup))
    decreases |files|
  {
    if |files| > 0 {
      var init := files[..|files| - 1];
      var last := files[|files| - 1];
      AccumulateLogsShape(init, lookup);
      assert UserFiles(files)[..|files| - 1] == UserFiles(init);
      assert Flatten(files) == Flatten(init) + last;
      FilterAppend(Flatten(init), last, IsPlay);
      MapAppend(AllPlays(init), Plays(last), PlayTime);
      MapAppend(AllPlays(init), Plays(last), SongplayWith(lookup));
    }
  }

  lemma {:induction false} AccumulateIgnoresNonPlays<L>(files: seq<seq<LogRecord<L>>>, lookup: Lookup<L>)
    ensures AccumulateLogs(PlaysOnly(files), lookup) == AccumulateLogs(files, lookup)
    decreases |files|
  {
    if |files| > 0 {
      var init := files[..|files| - 1];
      var last := files[|files| - 1];
      AccumulateIgnoresNonPlays(init, lookup);
      PlaysOnlySnoc(files);
      if AccumulateLogs(init, lookup).Success? {
        FileIgnoresNonPlays(AccumulateLogs(init, lookup).value, last, lookup);
      }
    }
  }

  lemma PlaysOnlySnoc<L>(files: seq<seq<LogRecord<L>>>)
    requires |files| > 0
    ensures |PlaysOnly(files)| == |files|
    ensures PlaysOnly(files)[..|files| - 1] == PlaysOnly(files[..|files| - 1])
    ensures PlaysOnly(files)[|files| - 1] == Plays(files[|files| - 1])
  {
  }

  lemma FileIgnoresNonPlays<L>(frames: LogTables, file: seq<LogRecord<L>>, lookup: Lookup<L>)
    ensures LogFileStep(frames, Plays(file), lookup) == LogFileStep(frames, file, lookup)
  {
    FilterIdempotent(file, IsPlay);
  }

  /** Lines other than NextSong contribute nothing: dropping them first leaves every output unchanged. */
  lemma NonPlaysContributeNothing<L>(files: seq<seq<LogRecord<L>>>, lookup: Lookup<L>)
    ensures ProcessLogFiles(PlaysOnly(files), lookup) == ProcessLogFiles(files, lookup)
  {
    AccumulateIgnoresNonPlays(files, lookup);
  }

  /**
   * The run aborts exactly when some file has a NextSong line with a complete user row whose
   * userId is not integer text within the int64 range.
   */
  lemma LogRunFailsOnlyOnBadUserId<L>(files: seq<seq<LogRecord<L>>>, lookup: Lookup<L>)
    ensures ProcessLogFiles(files, lookup).Failure? <==>
      exists i :: 0 <= i < |files| && FileHasBadUserId(files[i])
  {
    AccumulateLogsShape(files, lookup);
    AccumulateUsersShape(UserFiles(files));
    forall i | 0 <= i < |files|
      ensures CleanUsers(UserFiles(files)[i]).Failure? <==> FileHasBadUserId(files[i])
    {
      CleanUsersFailure(files[i]);
    }
  }

  lemma CleanUsersFailure<L>(file: seq<LogRecord<L>>)
    ensures CleanUsers(UserRows(Plays(file))).Failure? <==> FileHasBadUserId(file)
  {
    if CleanUsers(UserRows(Plays(file))).Failure? {
      FailureHasBadUserId(file);
    }
    if FileHasBadUserId(file) {
      BadUserIdFails(file);
    }
  }

  lemma FailureHasBadUserId<L>(file: seq<LogRecord<L>>)
    requires CleanUsers(UserRows(Plays(file))).Failure?
    ensures FileHasBadUserId(file)
  {
    var df := Plays(file);
    var kept := DropIncomplete(UserRows(df));
    var i :| 0 <= i < |kept| && CoerceId(kept[i].userId).Failure?;
    FilterMember(UserRows(df), Complete, kept[i]);
    var j :| 0 <= j < |df| && UserRows(df)[j] == kept[i];
    FilterMember(file, IsPlay, df[j]);
    assert HasBadUserId(df[j]);
  }

  lemma BadUserIdFails<L>(file: seq<LogRecord<L>>)
    requires FileHasBadUserId(file)
    ensures CleanUsers(UserRows(Plays(file))).Failure?
  {
    var df := Plays(file);
    var kept := DropIncomplete(UserRows(df));
    var r :| r in file && HasBadUserId(r);
    FilterMember(file, IsPlay, r);
    var j :| 0 <= j < |df| && df[j] == r;
    assert UserRows(df)[j] == UserRowOf(r);
    FilterMember(UserRows(df), Complete, UserRowOf(r));
    var i :| 0 <= i < |kept| && kept[i] == UserRowOf(r);
    assert !CoerceId(kept[i].userId).Success?;
  }

  /** The songplay relation has one row per NextSong line of all files, in order, never deduplicated. */
  lemma SongplaysOnePerPlay<L>(files: seq<seq<LogRecord<L>>>, lookup: Lookup<L>)
    requires ProcessLogFiles(files, lookup).Success?
    ensures var t := ProcessLogFiles(files, lookup).value; var plays := AllPlays(files);
      && |t.songplays| == |plays|
      && (forall i :: 0 <= i < |plays| ==> IsPlay(plays[i]) && RecordsPlay(t.songplays[i], plays[i], lookup))
  {
    AccumulateLogsShape(files, lookup);
    var plays := AllPlays(files);
    var t := ProcessLogFiles(files, lookup).value;
    assert t.songplays == Songplays(plays, lookup);
    forall i | 0 <= i < |plays|
      ensures IsPlay(plays[i]) && RecordsPlay(t.songplays[i], plays[i], lookup)
    {
      assert t.songplays[i] == SongplayOf(plays[i], lookup);
    }
  }

  /** The time-of-day keys of a time frame are the clocks of its plays' rounded timestamps. */
  lemma TimeRowsKeys<L>(plays: seq<LogRecord<L>>)
    ensures forall c :: c in Keys(TimeRows(plays), TimeKey) <==>
      exists j :: 0 <= j < |plays| && ClockOf(RoundToSecond(plays[j].ts)) == c
  {
    var rows := TimeRows(plays);
    var clocks := seq(|plays|, j requires 0 <= j < |plays| => ClockOf(RoundToSecond(plays[j].ts)));
    forall i | 0 <= i < |rows|
      ensures TimeKey(rows[i]) == clocks[i]
    {
      PlayClock(plays[i]);
    }
    KeysOfProjection(rows, TimeKey, clocks);
  }

  /** The time-of-day key of a play's time row is the clock of its rounded timestamp. */
  lemma PlayClock<L>(r: LogRecord<L>)
    ensures TimeKey(PlayTime(r)) == ClockOf(RoundToSecond(r.ts))
  {
  }

  /** The time relation holds the first play's row for every time of day that some play has. */
  lemma TimeRelationSpec<L>(files: seq<seq<LogRecord<L>>>, lookup: Lookup<L>)
    requires ProcessLogFiles(files, lookup).Success?
    ensures var t := ProcessLogFiles(files, lookup).value; var plays := AllPlays(files);
      && IsFirstPerKey(t.times, TimeRows(plays), TimeKey)
      && (forall c :: c in Keys(t.times, TimeKey) <==>
            exists j :: 0 <= j < |plays| && ClockOf(RoundToSecond(plays[j].ts)) == c)
  {
    AccumulateLogsShape(files, lookup);
    var plays := AllPlays(files);
    var t := ProcessLogFiles(files, lookup).value;
    assert t.times == KeepFirst(TimeRows(plays), TimeKey);
    KeepFirstIsFirstPerKey(TimeRows(plays), TimeKey);
    TimeRowsKeys(plays);
  }

  /**
   * Deduplicating on the time of day merges plays from different dates: of two plays at the
   * same clock second, when no play before the earlier one has that clock, the earlier one's
   * row is kept and the later one's is gone.
   */
  lemma LaterPlayAtSameClockDropped<L>(files: seq<seq<LogRecord<L>>>, lookup: Lookup<L>, i: nat, j: nat)
    requires ProcessLogFiles(files, lookup).Success?
    requires i < j < |AllPlays(files)|
    requires var plays := AllPlays(files);
      && ClockOf(RoundToSecond(plays[i].ts)) == ClockOf(RoundToSecond(plays[j].ts))
      && RoundToSecond(plays[i].ts) != RoundToSecond(plays[j].ts)
      && forall l :: 0 <= l < i ==> ClockOf(RoundToSecond(plays[l].ts)) != ClockOf(RoundToSecond(plays[i].ts))
    ensures var t := ProcessLogFiles(files, lookup).value; var plays := AllPlays(files);
      PlayTime(plays[i]) in t.times && PlayTime(plays[j]) !in t.times
  {
    var t := ProcessLogFiles(files, lookup).value;
    var plays := AllPlays(files);
    var rows := TimeRows(plays);
    TimeRelationSpec(files, lookup);
    assert rows[i] == PlayTime(plays[i]) && rows[j] == PlayTime(plays[j]);
    forall l | 0 <= l < i
      ensures TimeKey(rows[l]) != TimeKey(rows[i])
    {
      assert rows[l] == PlayTime(plays[l]);
    }
    FirstPerKeyHoldsFirst(t.times, rows, TimeKey, i);
    TimeRowClock(RoundToSecond(plays[i].ts));
    TimeRowClock(RoundToSecond(plays[j].ts));
    assert rows[j] != rows[i];
  }

  /**
   * The user relation: complete rows with int64 userIds only, one per userId, every userId of
   * a surviving row present, and the kept row is the last one of the earliest file holding it.
   */
  lemma UserRelationOfLogs<L>(files: seq<seq<LogRecord<L>>>, lookup: Lookup<L>)
    requires ProcessLogFiles(files, lookup).Success?
    ensures forall i :: 0 <= i < |files| ==> CleanUsers(UserFiles(files)[i]).Success?
    ensures var rel := ProcessLogFiles(files, lookup).value.users; var cs := CleanedFiles(UserFiles(files));
      && (forall i :: 0 <= i < |rel| ==> Loaded(rel[i]))
      && DistinctKeys(rel, UserKey)
      && (forall k :: k in Keys(rel, UserKey) <==> InSomeFile(cs, k))
      && (forall i :: 0 <= i < |rel| ==> InSomeFile(cs, rel[i].userId) && rel[i] == UserWinner(cs, rel[i].userId))
  {
    AccumulateLogsShape(files, lookup);
    UserRelationSpec(UserFiles(files));
  }
}
