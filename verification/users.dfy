/**
 * The user relation of the log pipeline. Each file's user columns are put in FRONT of the
 * frame gathered so far, the whole frame is masked (userId not empty, no null column) and
 * its userId cast to integers, and once all files are read duplicates are dropped keeping
 * the LAST row per userId.
 */
module Users {
  import opened Results
  import opened Seqs
  import opened Dedup
  import opened Cells
  import Decimal

  datatype UserRow = UserRow(userId: Cell, firstName: Cell, lastName: Cell, gender: Cell, level: Cell)

  /** astype(int) met a userId that is not integer text or does not fit in an int64; the run aborts. */
  datatype LoadError = UserIdNotInteger(value: Cell)

  function UserKey(u: UserRow): Cell {
    u.userId
  }

  /** The row mask: userId is not the empty text, and dropna finds no null in any column. */
  predicate Complete(u: UserRow) {
    && u.userId != Str("") && u.userId != Null
    && u.firstName != Null && u.lastName != Null && u.gender != Null && u.level != Null
  }

  /** The range of the int64 column astype(int) builds. */
  const Int64Min: int := -0x8000_0000_0000_0000
  const Int64Max: int := 0x7FFF_FFFF_FFFF_FFFF

  predicate InInt64(n: int) {
    Int64Min <= n <= Int64Max
  }

  /** A row as the cleaned frame holds it: complete, with an int64 userId. */
  predicate Loaded(u: UserRow) {
    Complete(u) && u.userId.Num? && InInt64(u.userId.n)
  }

  function DropIncomplete(frame: seq<UserRow>): seq<UserRow> {
    Filter(frame, Complete)
  }

  /**
   * astype(int) applied to one userId cell: int() of the value, which must then fit in an int64
   * (numpy raises OverflowError otherwise).
   */
  function CoerceId(c: Cell): (r: Result<int, LoadError>)
    ensures r.Success? ==> InInt64(r.value)
    ensures r.Failure? ==> r.error == UserIdNotInteger(c)
    ensures c.Null? ==> r.Failure?
  {
    match c
    case Num(n) => if InInt64(n) then Success(n) else Failure(UserIdNotInteger(c))
    case Str(s) =>
      (match Decimal.ParseInt(s)
       case Some(n) => if InInt64(n) then Success(n) else Failure(UserIdNotInteger(c))
       case None => Failure(UserIdNotInteger(c)))
    case Null => Failure(UserIdNotInteger(c))
  }

  /**
   * Text converts exactly when int() reads it as an integer that fits in an int64, and then to
   * that integer.
   */
  lemma CoerceIdOfText(s: string)
    ensures CoerceId(Str(s)).Success? <==>
      Decimal.ParseInt(s).Some? && InInt64(Decimal.ParseInt(s).value)
    ensures CoerceId(Str(s)).Success? ==> Some(CoerceId(Str(s)).value) == Decimal.ParseInt(s)
  {
  }

  /**
   * An integer, held as a number or as its decimal text, converts to itself exactly when it fits
   * in an int64; any other integer makes the cast fail.
   */
  lemma CoerceIdOfInteger(n: int)
    ensures CoerceId(Num(n)).Success? <==> InInt64(n)
    ensures CoerceId(Str(Decimal.ShowInt(n))).Success? <==> InInt64(n)
    ensures InInt64(n) ==> CoerceId(Num(n)).value == n && CoerceId(Str(Decimal.ShowInt(n))).value == n
  {
    Decimal.ParseShowRoundTrip(n);
  }

  /** astype(int) on the userId column: every cell converts, or the cast fails as a whole. */
  function CoerceIds(frame: seq<UserRow>): (r: Result<seq<UserRow>, LoadError>)
    ensures r.Success? <==> forall i :: 0 <= i < |frame| ==> CoerceId(frame[i].userId).Success?
    ensures r.Success? ==>
      && |r.value| == |frame|
      && (forall i :: 0 <= i < |frame| ==>
            r.value[i] == frame[i].(userId := Num(CoerceId(frame[i].userId).value)))
    decreases |frame|
  {
    if |frame| == 0 then Success([])
    else
      var id :- CoerceId(frame[0].userId);
      var rest :- CoerceIds(frame[1..]);
      Success([frame[0].(userId := Num(id))] + rest)
  }

  /** The cleaned user rows of one file. */
  function CleanUsers(incoming: seq<UserRow>): (r: Result<seq<UserRow>, LoadError>)
    ensures r.Success? ==> forall i :: 0 <= i < |r.value| ==> Loaded(r.value[i])
  {
    CoerceIds(DropIncomplete(incoming))
  }

  /** A complete row as the cast leaves it: only its userId replaced by the integer it converts to. */
  ghost predicate CastOf(u: UserRow, v: UserRow) {
    Complete(v) && CoerceId(v.userId).Success? && u == v.(userId := Num(CoerceId(v.userId).value))
  }

  /**
   * Cleaning a file fails exactly when some complete row's userId does not convert; when it
   * succeeds, the cleaned rows are exactly the complete rows, each with only its userId cast.
   */
  lemma CleanUsersKeepsCompleteRows(incoming: seq<UserRow>)
    ensures CleanUsers(incoming).Success? <==>
      forall i :: 0 <= i < |incoming| && Complete(incoming[i]) ==> CoerceId(incoming[i].userId).Success?
    ensures CleanUsers(incoming).Success? ==>
      forall u :: u in CleanUsers(incoming).value <==> exists v :: v in incoming && CastOf(u, v)
  {
    var kept := DropIncomplete(incoming);
    forall v | v in incoming && Complete(v)
      ensures v in kept
    {
      FilterMember(incoming, Complete, v);
    }
    forall v | v in kept
      ensures v in incoming && Complete(v)
    {
      FilterMember(incoming, Complete, v);
    }
    if CleanUsers(incoming).Success? {
      var r := CleanUsers(incoming).value;
      forall u | u in r
        ensures exists v :: v in incoming && CastOf(u, v)
      {
        var i :| 0 <= i < |r| && r[i] == u;
        assert kept[i] in kept;
        assert CastOf(u, kept[i]);
      }
      forall u, v | v in incoming && CastOf(u, v)
        ensures u in r
      {
        assert v in kept;
        var i :| 0 <= i < |kept| && kept[i] == v;
        assert r[i] == u;
      }
    }
  }

  /** One loop iteration: the file's rows go in front, then the whole frame is masked and cast. */
  function UserStep(frame: seq<UserRow>, incoming: seq<UserRow>): (r: Result<seq<UserRow>, LoadError>)
    ensures r.Success? ==> forall i :: 0 <= i < |r.value| ==> Loaded(r.value[i])
  {
    CoerceIds(DropIncomplete(incoming + frame))
  }

  /** The user frame after reading every file in order. */
  function AccumulateUsers(perFile: seq<seq<UserRow>>): Result<seq<UserRow>, LoadError>
    decreases |perFile|
  {
    if |perFile| == 0 then Success([])
    else
      var frame :- AccumulateUsers(perFile[..|perFile| - 1]);
      UserStep(frame, perFile[|perFile| - 1])
  }

  /** drop_duplicates(subset = 'userId', keep = 'last'). */
  function UserRelation(frame: seq<UserRow>): seq<UserRow> {
    KeepLast(frame, UserKey)
  }

  /** Masking and casting a frame of cleaned rows again changes nothing. */
  lemma CleaningIsIdempotent(frame: seq<UserRow>)
    requires forall i :: 0 <= i < |frame| ==> Loaded(frame[i])
    ensures DropIncomplete(frame) == frame
    ensures CoerceIds(frame) == Success(frame)
  {
    FilterKeepsAll(frame, Complete);
    var r := CoerceIds(frame);
    assert r.value == frame;
  }

  /**
   * Re-applying the mask and the cast to the rows already gathered is harmless: one
   * iteration amounts to cleaning the new file alone and putting it in front.
   */
  lemma UserStepIsIncremental(frame: seq<UserRow>, incoming: seq<UserRow>)
    requires forall i :: 0 <= i < |frame| ==> Loaded(frame[i])
    ensures UserStep(frame, incoming) ==
      match CleanUsers(incoming)
      case Success(c) => Success(c + frame)
      case Failure(e) => Failure(e)
  {
    FilterAppend(incoming, frame, Complete);
    CleaningIsIdempotent(frame);
    var kept := DropIncomplete(incoming);
    assert DropIncomplete(incoming + frame) == kept + frame;
    CoerceIdsAppend(kept, frame);
  }

  lemma {:induction false} CoerceIdsAppend(a: seq<UserRow>, b: seq<UserRow>)
    requires forall i :: 0 <= i < |b| ==> Loaded(b[i])
    ensures CoerceIds(a + b) ==
      match CoerceIds(a)
      case Success(c) => Success(c + b)
      case Failure(e) => Failure(e)
  {
    if CoerceIds(a).Success? {
      CoerceIdsAppendClean(a, b);
    } else {
      CoerceIdsFirstFailure(a, b);
    }
  }

  lemma CoerceIdsAppendClean(a: seq<UserRow>, b: seq<UserRow>)
    requires CoerceIds(a).Success?
    requires forall i :: 0 <= i < |b| ==> Loaded(b[i])
    ensures CoerceIds(a + b) == Success(CoerceIds(a).value + b)
  {
    AllConvertAppend(a, b);
    var r, c := CoerceIds(a + b).value, CoerceIds(a).value;
    forall k | 0 <= k < |r|
      ensures r[k] == (c + b)[k]
    {
      if k < |a| {
        assert (a + b)[k] == a[k];
      } else {
        assert (a + b)[k] == b[k - |a|];
      }
    }
    assert r == c + b;
  }

  lemma AllConvertAppend(a: seq<UserRow>, b: seq<UserRow>)
    requires forall i :: 0 <= i < |a| ==> CoerceId(a[i].userId).Success?
    requires forall i :: 0 <= i < |b| ==> Loaded(b[i])
    ensures forall i :: 0 <= i < |a + b| ==> CoerceId((a + b)[i].userId).Success?
  {
    forall i | 0 <= i < |a + b|
      ensures CoerceId((a + b)[i].userId).Success?
    {
      if i >= |a| {
        assert (a + b)[i] == b[i - |a|];
      }
    }
  }

  lemma {:induction false} CoerceIdsFirstFailure(a: seq<UserRow>, b: seq<UserRow>)
    requires CoerceIds(a).Failure?
    ensures CoerceIds(a + b) == CoerceIds(a)
    decreases |a|
  {
    assert (a + b)[0] == a[0];
    assert (a + b)[1..] == a[1..] + b;
    if CoerceId(a[0].userId).Success? {
      CoerceIdsFirstFailure(a[1..], b);
    }
  }

  /** The frame put together file by file: the latest file first. */
  function PrependAll(cs: seq<seq<UserRow>>): seq<UserRow>
    decreases |cs|
  {
    if |cs| == 0 then [] else cs[|cs| - 1] + PrependAll(cs[..|cs| - 1])
  }

  /** Some file holds a row with userId k. */
  ghost predicate InSomeFile(cs: seq<seq<UserRow>>, k: Cell) {
    exists j :: 0 <= j < |cs| && k in Keys(cs[j], UserKey)
  }

  /** The first file that holds a row with userId k. */
  function EarliestFileWith(cs: seq<seq<UserRow>>, k: Cell): (f: nat)
    requires InSomeFile(cs, k)
    ensures f < |cs| && k in Keys(cs[f], UserKey)
    ensures forall j :: 0 <= j < f ==> k !in Keys(cs[j], UserKey)
    decreases |cs|
  {
    if k in Keys(cs[0], UserKey) then 0
    else
      assert InSomeFile(cs[1..], k) by {
        var j :| 0 <= j < |cs| && k in Keys(cs[j], UserKey);
        assert cs[1..][j - 1] == cs[j];
      }
      1 + EarliestFileWith(cs[1..], k)
  }

  /** The row the source's rule keeps for k: the last row with k in the earliest file holding k. */
  function UserWinner(cs: seq<seq<UserRow>>, k: Cell): UserRow
    requires InSomeFile(cs, k)
  {
    var f := EarliestFileWith(cs, k);
    cs[f][LastIndex(cs[f], UserKey, k)]
  }

  /** The cleaned rows of every file, when all casts succeed. */
  function CleanedFiles(perFile: seq<seq<UserRow>>): (cs: seq<seq<UserRow>>)
    requires forall i :: 0 <= i < |perFile| ==> CleanUsers(perFile[i]).Success?
    ensures |cs| == |perFile|
  {
    seq(|perFile|, i requires 0 <= i < |perFile| => CleanUsers(perFile[i]).value)
  }

  /**
   * The gathered frame fails exactly when the cast fails for some file's cleaned rows; when it
   * succeeds it is the cleaned files stacked latest first.
   */
  lemma {:induction false} AccumulateUsersShape(perFile: seq<seq<UserRow>>)
    ensures AccumulateUsers(perFile).Success? <==>
      forall i :: 0 <= i < |perFile| ==> CleanUsers(perFile[i]).Success?
    ensures AccumulateUsers(perFile).Success? ==>
      AccumulateUsers(perFile).value == PrependAll(CleanedFiles(perFile))
    decreases |perFile|
  {
    if |perFile| > 0 {
      var init := perFile[..|perFile| - 1];
      var last := perFile[|perFile| - 1];
      AccumulateUsersShape(init);
      if AccumulateUsers(init).Success? {
        var frame := AccumulateUsers(init).value;
        UserStepIsIncremental(frame, last);
        if CleanUsers(last).Success? {
          CleanedFilesSnoc(perFile, init);
        }
      } else {
        var i :| 0 <= i < |init| && !CleanUsers(init[i]).Success?;
        assert perFile[i] == init[i];
      }
    }
  }

  /** Cleaning one more file extends the cleaned files by that file's cleaned rows. */
  lemma CleanedFilesSnoc(perFile: seq<seq<UserRow>>, init: seq<seq<UserRow>>)
    requires |perFile| > 0 && init == perFile[..|perFile| - 1]
    requires forall i :: 0 <= i < |init| ==> CleanUsers(init[i]).Success?
    requires CleanUsers(perFile[|perFile| - 1]).Success?
    ensures forall i :: 0 <= i < |perFile| ==> CleanUsers(perFile[i]).Success?
    ensures CleanedFiles(perFile)[..|perFile| - 1] == CleanedFiles(init)
    ensures CleanedFiles(perFile)[|perFile| - 1] == CleanUsers(perFile[|perFile| - 1]).value
  {
    forall i | 0 <= i < |perFile|
      ensures CleanUsers(perFile[i]).Success?
    {
      if i < |perFile| - 1 {
        assert perFile[i] == init[i];
      }
    }
  }

  lemma {:induction false} PrependAllLoaded(cs: seq<seq<UserRow>>)
    requires forall j, i :: 0 <= j < |cs| && 0 <= i < |cs[j]| ==> Loaded(cs[j][i])
    ensures forall i :: 0 <= i < |PrependAll(cs)| ==> Loaded(PrependAll(cs)[i])
    decreases |cs|
  {
    if |cs| > 0 {
      var init := cs[..|cs| - 1];
      PrependAllLoaded(init);
      var last := cs[|cs| - 1];
      forall i | 0 <= i < |PrependAll(cs)|
        ensures Loaded(PrependAll(cs)[i])
      {
        if i >= |last| {
          assert PrependAll(cs)[i] == PrependAll(init)[i - |last|];
        }
      }
    }
  }

  /** The userIds of the stacked frame are those of the files. */
  lemma {:induction false} PrependAllKeys(cs: seq<seq<UserRow>>, k: Cell)
    ensures k in Keys(PrependAll(cs), UserKey) <==> InSomeFile(cs, k)
    decreases |cs|
  {
    if |cs| > 0 {
      var init := cs[..|cs| - 1];
      PrependAllKeys(init, k);
      KeysAppend(cs[|cs| - 1], PrependAll(init), UserKey);
      if InSomeFile(init, k) {
        var j :| 0 <= j < |init| && k in Keys(init[j], UserKey);
        assert cs[j] == init[j];
      }
    }
  }

  /** The last row with userId k in the stacked frame is the source rule's winner. */
  lemma {:induction false} PrependAllLastIsWinner(cs: seq<seq<UserRow>>, k: Cell)
    requires InSomeFile(cs, k)
    ensures k in Keys(PrependAll(cs), UserKey)
    ensures PrependAll(cs)[LastIndex(PrependAll(cs), UserKey, k)] == UserWinner(cs, k)
    decreases |cs|
  {
    var init := cs[..|cs| - 1];
    var last := cs[|cs| - 1];
    PrependAllKeys(cs, k);
    PrependAllKeys(init, k);
    KeysAppend(last, PrependAll(init), UserKey);
    LastIndexAppend(last, PrependAll(init), UserKey, k);
    if InSomeFile(init, k) {
      PrependAllLastIsWinner(init, k);
      var f := EarliestFileWith(init, k);
      assert cs[f] == init[f];
      forall j | 0 <= j < f
        ensures k !in Keys(cs[j], UserKey)
      {
        assert cs[j] == init[j];
      }
      assert EarliestFileWith(cs, k) == f;
    } else {
      forall j | 0 <= j < |cs| - 1
        ensures k !in Keys(cs[j], UserKey)
      {
        assert cs[j] == init[j];
      }
      assert EarliestFileWith(cs, k) == |cs| - 1;
    }
  }

  /**
   * The user relation: only complete rows with int64 userIds, one row per userId, every
   * userId of the cleaned files present, and the row kept for a userId is its last row within
   * the EARLIEST file that holds it.
   */
  lemma UserRelationSpec(perFile: seq<seq<UserRow>>)
    requires AccumulateUsers(perFile).Success?
    ensures forall i :: 0 <= i < |perFile| ==> CleanUsers(perFile[i]).Success?
    ensures var rel := UserRelation(AccumulateUsers(perFile).value);
      && (forall i :: 0 <= i < |rel| ==> Loaded(rel[i]))
      && DistinctKeys(rel, UserKey)
      && (forall k :: k in Keys(rel, UserKey) <==> InSomeFile(CleanedFiles(perFile), k))
      && (forall i :: 0 <= i < |rel| ==>
            InSomeFile(CleanedFiles(perFile), rel[i].userId) &&
            rel[i] == UserWinner(CleanedFiles(perFile), rel[i].userId))
  {
    AccumulateUsersShape(perFile);
    var cs := CleanedFiles(perFile);
    var frame := PrependAll(cs);
    var rel := UserRelation(frame);
    PrependAllLoaded(cs);
    KeepLastIsLastPerKey(frame, UserKey);
    forall k
      ensures k in Keys(rel, UserKey) <==> InSomeFile(cs, k)
    {
      PrependAllKeys(cs, k);
    }
    forall i | 0 <= i < |rel|
      ensures Loaded(rel[i])
      ensures InSomeFile(cs, rel[i].userId) && rel[i] == UserWinner(cs, rel[i].userId)
    {
      var k := rel[i].userId;
      PrependAllKeys(cs, k);
      PrependAllLastIsWinner(cs, k);
    }
  }
}
