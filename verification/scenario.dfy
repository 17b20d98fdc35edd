/**
 * A small end-to-end run of both pipelines: one song file with one song, and one log file with
 * a play of that song followed by a page view that is not a play.
 */
module Scenario {
  import opened Results
  import opened Cells
  import opened Users
  import opened Songs
  import opened Logs
  import opened Dedup
  import opened Seqs
  import Decimal

  /** Durations and lengths are kept as whole numbers here; the pipeline only copies and compares them. */
  const Song := SongRecord(Str("S1"), Str("X"), Str("A1"), Num(2000), 200, Str("Band"), Str(""), 0, 0)

  /** The song_select query against a database holding just Song. */
  function SongSelect(song: Cell, artist: Cell, length: int): Option<(string, string)> {
    if song == Str("X") && artist == Str("Band") && length == 200 then Some(("S1", "A1")) else None
  }

  function Line(page: string, ts: int, userId: Cell): LogRecord<int> {
    LogRecord(page, ts, userId, Str("Ann"), Str("Lee"), Str("F"), Str("free"), 39,
      Str("Here"), Str("Agent"), Str("X"), Str("Band"), 200)
  }

  lemma SingleRowKept<T, K>(s: seq<T>, key: T -> K)
    requires |s| == 1
    ensures KeepFirst(s, key) == s
  {
    assert s[1..] == [];
    assert KeepFirstFrom(s[1..], key, {} + {key(s[0])}) == [];
    assert s == [s[0]];
  }

  /** The song file yields one song row and one artist row. */
  lemma SongScenario()
    ensures ProcessSongFiles([[Song]]) ==
      SongTables([SongRow(Str("S1"), Str("X"), Str("A1"), Num(2000), 200)],
                 [ArtistRow(Str("A1"), Str("Band"), Str(""), 0, 0)])
  {
    var songFiles := [[Song]];
    assert songFiles[..0] == [];
    assert AccumulateSongs(songFiles) == SongTables(SongRows([Song]), ArtistRows([Song]));
    assert SongRows([Song]) == [SongRowOf(Song)];
    assert ArtistRows([Song]) == [ArtistRowOf(Song)];
    SingleRowKept([SongRowOf(Song)], SongKey);
    SingleRowKept([ArtistRowOf(Song)], ArtistKey);
  }

  /** The play lands in every log relation with the looked-up ids; the page view lands nowhere. */
  lemma LogScenario(ts: int)
    ensures var run := ProcessLogFiles([[Line("NextSong", ts, Str("7")), Line("Home", ts + 1000, Str("7"))]], SongSelect);
      && run.Success?
      && |run.value.times| == 1
      && run.value.users == [UserRow(Num(7), Str("Ann"), Str("Lee"), Str("F"), Str("free"))]
      && |run.value.songplays| == 1
      && run.value.songplays[0].songId == Some("S1") && run.value.songplays[0].artistId == Some("A1")
  {
    var play, view := Line("NextSong", ts, Str("7")), Line("Home", ts + 1000, Str("7"));
    OneFileRun([play, view], SongSelect);
    OnlyThePlay(play, view);
    var u7 := UserRowOf(play).(userId := Num(7));
    assert UserRows([play]) == [UserRowOf(play)];
    CleanSeven(UserRowOf(play));
    assert KeepLast([u7], UserKey) == [u7];
    SingleRowKept(TimeRows([play]), TimeKey);
  }

  /** A run over a single log file: its plays' rows, deduplicated, or the failure of its user cast. */
  lemma OneFileRun<L>(file: seq<LogRecord<L>>, lookup: Lookup<L>)
    ensures var df := Plays(file);
      ProcessLogFiles([file], lookup) ==
        match CleanUsers(UserRows(df))
        case Success(u) =>
          Success(LogTables(KeepFirst(TimeRows(df), TimeKey), UserRelation(u), Songplays(df, lookup)))
        case Failure(e) => Failure(e)
  {
    var df := Plays(file);
    var empty := LogTables([], [], []);
    assert [file][..0] == [];
    assert AccumulateLogs([file], lookup) == LogFileStep(empty, file, lookup);
    assert UserRows(df) + [] == UserRows(df);
    assert UserStep([], UserRows(df)) == CleanUsers(UserRows(df));
    if CleanUsers(UserRows(df)).Success? {
      var u := CleanUsers(UserRows(df)).value;
      assert [] + TimeRows(df) == TimeRows(df);
      assert [] + Songplays(df, lookup) == Songplays(df, lookup);
      assert LogFileStep(empty, file, lookup) == Success(LogTables(TimeRows(df), u, Songplays(df, lookup)));
    }
  }

  lemma OnlyThePlay(play: LogRecord<int>, view: LogRecord<int>)
    requires IsPlay(play) && !IsPlay(view)
    ensures Plays([play, view]) == [play]
  {
    assert [play, view][1..] == [view];
    assert [view][1..] == [];
    assert Filter([view], IsPlay) == [];
  }

  lemma CleanSeven(u: UserRow)
    requires u.userId == Str("7") && Complete(u)
    ensures CleanUsers([u]) == Success([u.(userId := Num(7))])
  {
    assert Decimal.ParseInt("7") == Some(7) by {
      assert Decimal.DigitsValue("7") == 7 by {
        assert "7"[..0] == "";
      }
    }
    var u7 := u.(userId := Num(7));
    assert CoerceId(u.userId) == Success(7);
    assert CoerceIds([u]).Success?;
    var r := CoerceIds([u]).value;
    assert |r| == 1 && r[0] == u7;
    assert r == [u7];
    assert DropIncomplete([u]) == [u] by {
      assert [u][1..] == [];
    }
  }

  /**
   * The user tie-break: user 7 is "free" in the first file and "paid" in the second, and the
   * relation keeps the first file's "free" row, not the more recent level.
   */
  lemma EarliestFileWins()
    ensures var free := UserRow(Str("7"), Str("Ann"), Str("Lee"), Str("F"), Str("free"));
      var paid := free.(level := Str("paid"));
      && AccumulateUsers([[free], [paid]]).Success?
      && UserRelation(AccumulateUsers([[free], [paid]]).value) == [free.(userId := Num(7))]
  {
    var free := UserRow(Str("7"), Str("Ann"), Str("Lee"), Str("F"), Str("free"));
    var paid := free.(level := Str("paid"));
    var free7, paid7 := free.(userId := Num(7)), paid.(userId := Num(7));
    var files := [[free], [paid]];
    CleanSeven(free);
    CleanSeven(paid);
    assert files[..1][..0] == [];
    assert [free] + [] == [free];
    assert AccumulateUsers(files[..1]) == Success([free7]);
    UserStepIsIncremental([free7], [paid]);
    assert [paid7] + [free7] == [paid7, free7];
    assert UserStep([free7], [paid]) == Success([paid7, free7]);
    assert files[|files| - 1] == [paid];
    assert AccumulateUsers(files) == Success([paid7, free7]);
    assert KeepLast([free7], UserKey) == [free7];
    assert KeepLast([paid7, free7], UserKey) == [free7];
    assert [paid7, free7][1..] == [free7];
    assert UserKey(paid7) in Keys([free7], UserKey);
    assert [free7][1..] == [];
  }

  /** A play whose userId is the empty text still gives a songplay row, with the raw userId, but no user row. */
  lemma EmptyUserIdStillPlays(ts: int)
    ensures var run := ProcessLogFiles([[Line("NextSong", ts, Str(""))]], SongSelect);
      && run.Success?
      && run.value.users == []
      && |run.value.songplays| == 1 && run.value.songplays[0].userId == Str("")
  {
    var play := Line("NextSong", ts, Str(""));
    OneFileRun([play], SongSelect);
    assert Plays([play]) == [play] by {
      assert [play][1..] == [];
    }
    assert UserRows([play]) == [UserRowOf(play)];
    assert DropIncomplete([UserRowOf(play)]) == [] by {
      assert [UserRowOf(play)][1..] == [];
    }
  }

  /** A play whose userId is integer text too large for an int64 aborts the run, as numpy's OverflowError does. */
  lemma OverflowingUserIdAborts(ts: int, n: int)
    requires !InInt64(n)
    ensures ProcessLogFiles([[Line("NextSong", ts, Str(Decimal.ShowInt(n)))]], SongSelect).Failure?
  {
    var play := Line("NextSong", ts, Str(Decimal.ShowInt(n)));
    CoerceIdOfInteger(n);
    assert play in [play] && HasBadUserId(play);
    assert FileHasBadUserId([play]);
    assert [[play]][0] == [play];
    LogRunFailsOnlyOnBadUserId([[play]], SongSelect);
  }
}
