/**
 * The song pipeline: every song-metadata file contributes its song columns to the song frame
 * and its artist columns to the artist frame, file after file; at the end each frame keeps the
 * first row of every song_id (resp. artist_id).
 */
module Songs {
  import opened Seqs
  import opened Dedup
  import opened Cells

  /**
   * One song-metadata line. F is the type of the floating-point columns (duration, latitude,
   * longitude), which the pipeline only copies.
   */
  datatype SongRecord<F> = SongRecord(
    songId: Cell, title: Cell, artistId: Cell, year: Cell, duration: F,
    artistName: Cell, artistLocation: Cell, artistLatitude: F, artistLongitude: F)

  datatype SongRow<F> = SongRow(songId: Cell, title: Cell, artistId: Cell, year: Cell, duration: F)

  datatype ArtistRow<F> = ArtistRow(artistId: Cell, name: Cell, location: Cell, latitude: F, longitude: F)

  /** The two frames the loop grows; after deduplication, the two relations handed to the loader. */
  datatype SongTables<F> = SongTables(songs: seq<SongRow<F>>, artists: seq<ArtistRow<F>>)

  function SongRowOf<F>(r: SongRecord<F>): SongRow<F> {
    SongRow(r.songId, r.title, r.artistId, r.year, r.duration)
  }

  function ArtistRowOf<F>(r: SongRecord<F>): ArtistRow<F> {
    ArtistRow(r.artistId, r.artistName, r.artistLocation, r.artistLatitude, r.artistLongitude)
  }

  function SongRows<F>(df: seq<SongRecord<F>>): seq<SongRow<F>> {
    Map(df, SongRowOf)
  }

  function ArtistRows<F>(df: seq<SongRecord<F>>): seq<ArtistRow<F>> {
    Map(df, ArtistRowOf)
  }

  function SongKey<F>(r: SongRow<F>): Cell {
    r.songId
  }

  function ArtistKey<F>(a: ArtistRow<F>): Cell {
    a.artistId
  }

  /** row is the song row of the first record of all that carries its song_id. */
  ghost predicate SongRowReadFirst<F>(all: seq<SongRecord<F>>, row: SongRow<F>) {
    exists j :: 0 <= j < |all| && row == SongRowOf(all[j])
      && forall l :: 0 <= l < j ==> all[l].songId != row.songId
  }

  /** row is the artist row of the first record of all that carries its artist_id. */
  ghost predicate ArtistRowReadFirst<F>(all: seq<SongRecord<F>>, row: ArtistRow<F>) {
    exists j :: 0 <= j < |all| && row == ArtistRowOf(all[j])
      && forall l :: 0 <= l < j ==> all[l].artistId != row.artistId
  }

  /** One iteration of the loop in process_song_file: both column selections are appended. */
  function SongFileStep<F>(frames: SongTables<F>, file: seq<SongRecord<F>>): SongTables<F> {
    SongTables(frames.songs + SongRows(file), frames.artists + ArtistRows(file))
  }

  /** The frames after reading every file in discovery order. */
  function AccumulateSongs<F>(files: seq<seq<SongRecord<F>>>): SongTables<F>
    decreases |files|
  {
    if |files| == 0 then SongTables([], [])
    else SongFileStep(AccumulateSongs(files[..|files| - 1]), files[|files| - 1])
  }

  /** The whole song pipeline, up to the bulk load. */
  function ProcessSongFiles<F>(files: seq<seq<SongRecord<F>>>): SongTables<F> {
    var frames := AccumulateSongs(files);
    SongTables(KeepFirst(frames.songs, SongKey), KeepFirst(frames.artists, ArtistKey))
  }

  /** The loop's frames are the column selections of all records, file after file and line after line. */
  lemma {:induction false} AccumulateSongsShape<F>(files: seq<seq<SongRecord<F>>>)
    ensures AccumulateSongs(files) == SongTables(SongRows(Flatten(files)), ArtistRows(Flatten(files)))
    decreases |files|
  {
    if |files| > 0 {
      var init := files[..|files| - 1];
      AccumulateSongsShape(init);
      assert Flatten(files) == Flatten(init) + files[|files| - 1];
      MapAppend(Flatten(init), files[|files| - 1], SongRowOf);
      MapAppend(Flatten(init), files[|files| - 1], ArtistRowOf);
    }
  }

  /**
   * The song relation: one row per song_id, every song_id of every record present, each row the
   * first one read with its song_id, and the rows in the order their song_ids first appear.
   */
  lemma SongRelationSpec<F>(files: seq<seq<SongRecord<F>>>)
    ensures var all := Flatten(files); var songs := ProcessSongFiles(files).songs;
      && IsFirstPerKey(songs, SongRows(all), SongKey)
      && (forall i :: 0 <= i < |all| ==> all[i].songId in Keys(songs, SongKey))
      && (forall i :: 0 <= i < |songs| ==>
            SongRowReadFirst(all, songs[i]))
  {
    SongRelationIsFirstPerKey(files);
    var all := Flatten(files);
    var kept := ProcessSongFiles(files).songs;
    KeptSongsCoverRecords(all, kept);
    KeptSongsAreFirst(all, kept);
  }

  lemma SongRelationIsFirstPerKey<F>(files: seq<seq<SongRecord<F>>>)
    ensures IsFirstPerKey(ProcessSongFiles(files).songs, SongRows(Flatten(files)), SongKey)
  {
    AccumulateSongsShape(files);
    KeepFirstIsFirstPerKey(SongRows(Flatten(files)), SongKey);
  }

  lemma KeptSongsCoverRecords<F>(all: seq<SongRecord<F>>, kept: seq<SongRow<F>>)
    requires IsFirstPerKey(kept, SongRows(all), SongKey)
    ensures forall i :: 0 <= i < |all| ==> all[i].songId in Keys(kept, SongKey)
  {
    var rows := SongRows(all);
    forall i | 0 <= i < |all|
      ensures all[i].songId in Keys(kept, SongKey)
    {
      assert SongKey(rows[i]) == all[i].songId;
    }
  }

  lemma KeptSongsAreFirst<F>(all: seq<SongRecord<F>>, kept: seq<SongRow<F>>)
    requires IsFirstPerKey(kept, SongRows(all), SongKey)
    ensures forall i :: 0 <= i < |kept| ==> SongRowReadFirst(all, kept[i])
  {
    var rows := SongRows(all);
    forall i | 0 <= i < |kept|
      ensures SongRowReadFirst(all, kept[i])
    {
      var j := FirstIndex(rows, SongKey, SongKey(kept[i]));
      assert kept[i] == rows[j] == SongRowOf(all[j]);
      assert forall l :: 0 <= l < j ==> SongKey(rows[l]) == all[l].songId;
    }
  }

  /**
   * The artist relation: one row per artist_id, every artist_id of every record present, each
   * row the first one read with its artist_id, in order of first appearance.
   */
  lemma ArtistRelationSpec<F>(files: seq<seq<SongRecord<F>>>)
    ensures var all := Flatten(files); var artists := ProcessSongFiles(files).artists;
      && IsFirstPerKey(artists, ArtistRows(all), ArtistKey)
      && (forall i :: 0 <= i < |all| ==> all[i].artistId in Keys(artists, ArtistKey))
      && (forall i :: 0 <= i < |artists| ==>
            ArtistRowReadFirst(all, artists[i]))
  {
    ArtistRelationIsFirstPerKey(files);
    var all := Flatten(files);
    var kept := ProcessSongFiles(files).artists;
    KeptArtistsCoverRecords(all, kept);
    KeptArtistsAreFirst(all, kept);
  }

  lemma ArtistRelationIsFirstPerKey<F>(files: seq<seq<SongRecord<F>>>)
    ensures IsFirstPerKey(ProcessSongFiles(files).artists, ArtistRows(Flatten(files)), ArtistKey)
  {
    AccumulateSongsShape(files);
    KeepFirstIsFirstPerKey(ArtistRows(Flatten(files)), ArtistKey);
  }

  lemma KeptArtistsCoverRecords<F>(all: seq<SongRecord<F>>, kept: seq<ArtistRow<F>>)
    requires IsFirstPerKey(kept, ArtistRows(all), ArtistKey)
    ensures forall i :: 0 <= i < |all| ==> all[i].artistId in Keys(kept, ArtistKey)
  {
    var rows := ArtistRows(all);
    forall i | 0 <= i < |all|
      ensures all[i].artistId in Keys(kept, ArtistKey)
    {
      assert ArtistKey(rows[i]) == all[i].artistId;
    }
  }

  lemma KeptArtistsAreFirst<F>(all: seq<SongRecord<F>>, kept: seq<ArtistRow<F>>)
    requires IsFirstPerKey(kept, ArtistRows(all), ArtistKey)
    ensures forall i :: 0 <= i < |kept| ==> ArtistRowReadFirst(all, kept[i])
  {
    var rows := ArtistRows(all);
    forall i | 0 <= i < |kept|
      ensures ArtistRowReadFirst(all, kept[i])
    {
      var j := FirstIndex(rows, ArtistKey, ArtistKey(kept[i]));
      assert kept[i] == rows[j] == ArtistRowOf(all[j]);
      assert forall l :: 0 <= l < j ==> ArtistKey(rows[l]) == all[l].artistId;
    }
  }

  /**
   * Every song's artist has an artist row: the song relation's artist_ids are among the artist
   * relation's, since both come from the same records.
   */
  lemma SongArtistsAreListed<F>(files: seq<seq<SongRecord<F>>>)
    ensures var t := ProcessSongFiles(files);
      forall i :: 0 <= i < |t.songs| ==> t.songs[i].artistId in Keys(t.artists, ArtistKey)
  {
    SongRelationSpec(files);
    ArtistRelationSpec(files);
  }

  /**
   * Keep-first, not keep-last: when a song_id is read again with different columns, the later
   * row is not in the song relation and the first one is.
   */
  lemma RepeatedSongIsDropped<F>(files: seq<seq<SongRecord<F>>>, i: nat, j: nat)
    requires i < j < |Flatten(files)|
    requires Flatten(files)[i].songId == Flatten(files)[j].songId
    requires forall l :: 0 <= l < i ==> Flatten(files)[l].songId != Flatten(files)[i].songId
    requires SongRowOf(Flatten(files)[i]) != SongRowOf(Flatten(files)[j])
    ensures SongRowOf(Flatten(files)[i]) in ProcessSongFiles(files).songs
    ensures SongRowOf(Flatten(files)[j]) !in ProcessSongFiles(files).songs
  {
    var all := Flatten(files);
    var rows := SongRows(all);
    var songs := ProcessSongFiles(files).songs;
    SongRelationSpec(files);
    var k := all[i].songId;
    assert forall l :: 0 <= l < i ==> SongKey(rows[l]) != k;
    FirstIndexIs(rows, SongKey, k, i);
    var m :| 0 <= m < |songs| && SongKey(songs[m]) == k;
    assert songs[m] == rows[i];
  }
}
