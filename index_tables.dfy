/**
 * The SQLite index as in-memory tables: `game`, `game_path`, `backup`,
 * `backup_file` and `meta`, each a sequence of rows in rowid order, plus the
 * connection-wide `last_insert_rowid`. A new row gets the largest rowid of its
 * table plus one (1 in an empty table), as SQLite allocates rowids for a
 * table without AUTOINCREMENT.
 */
module IndexTables {
  import opened Wrappers

  /** A `game` row (the `Game` record of src/models/db.rs once stored). */
  datatype GameRow = GameRow(id: int, externalId: string, name: Option<string>, comment: Option<string>,
                             keepVersions: Option<int>, createdAt: int, updatedAt: int)

  /** A `game_path` row. */
  datatype PathRow = PathRow(id: int, gameId: int, originalPath: string)

  /** A `backup` row. */
  datatype BackupRow = BackupRow(id: int, gameId: int, version: string, timestamp: int)

  /** A `backup_file` row. */
  datatype BackupFileRow = BackupFileRow(id: int, backupId: int, originalPath: string, archivePath: string,
                                         sizeBytes: int, checksum: string)

  /** A `meta` row. */
  datatype MetaRow = MetaRow(id: int, key: string, value: string)

  /** The database behind one open connection. */
  datatype Connection = Connection(games: seq<GameRow>, gamePaths: seq<PathRow>, backups: seq<BackupRow>,
                                   backupFiles: seq<BackupFileRow>, meta: seq<MetaRow>, lastInsertRowid: int)

  /** An empty database, as a fresh connection sees it. */
  const Empty := Connection([], [], [], [], [], 0)

  /** The rowid the next insert into a table with these rowids gets. */
  function NextRowid(ids: seq<int>): (r: int)
    ensures r >= 1
    ensures forall i :: 0 <= i < |ids| ==> ids[i] < r
    decreases |ids|
  {
    if |ids| == 0 then 1
    else
      var rest := NextRowid(ids[1..]);
      assert forall i :: 1 <= i < |ids| ==> ids[i] == ids[1..][i - 1];
      if ids[0] < rest then rest else ids[0] + 1
  }

  /** The position of the first occurrence of `x` in `s`, if any: a row looked up by a column it keeps unique. */
  function Find<T(==)>(s: seq<T>, x: T): (r: Option<nat>)
    ensures r.Some? ==> r.value < |s| && s[r.value] == x
    ensures r.None? <==> forall i :: 0 <= i < |s| ==> s[i] != x
    decreases |s|
  {
    if |s| == 0 then None
    else if s[0] == x then Some(0)
    else match Find(s[1..], x)
      case None => None
      case Some(k) => Some(k + 1)
  }

  function GameIds(rows: seq<GameRow>): (r: seq<int>)
    ensures |r| == |rows| && forall i :: 0 <= i < |rows| ==> r[i] == rows[i].id
  {
    seq(|rows|, i requires 0 <= i < |rows| => rows[i].id)
  }

  function PathIds(rows: seq<PathRow>): (r: seq<int>)
    ensures |r| == |rows| && forall i :: 0 <= i < |rows| ==> r[i] == rows[i].id
  {
    seq(|rows|, i requires 0 <= i < |rows| => rows[i].id)
  }

  function BackupIds(rows: seq<BackupRow>): (r: seq<int>)
    ensures |r| == |rows| && forall i :: 0 <= i < |rows| ==> r[i] == rows[i].id
  {
    seq(|rows|, i requires 0 <= i < |rows| => rows[i].id)
  }

  function BackupFileIds(rows: seq<BackupFileRow>): (r: seq<int>)
    ensures |r| == |rows| && forall i :: 0 <= i < |rows| ==> r[i] == rows[i].id
  {
    seq(|rows|, i requires 0 <= i < |rows| => rows[i].id)
  }

  function MetaIds(rows: seq<MetaRow>): (r: seq<int>)
    ensures |r| == |rows| && forall i :: 0 <= i < |rows| ==> r[i] == rows[i].id
  {
    seq(|rows|, i requires 0 <= i < |rows| => rows[i].id)
  }

  /** `R` holds between every earlier and later element. */
  predicate Pairwise<T>(s: seq<T>, R: (T, T) -> bool) {
    forall i, j :: 0 <= i < j < |s| ==> R(s[i], s[j])
  }

  /** The elements that `keep` accepts, in order: what a `DELETE ... WHERE` leaves. */
  function Filter<T(!new)>(s: seq<T>, keep: T -> bool): (r: seq<T>)
    ensures forall x :: x in r <==> x in s && keep(x)
    ensures |r| <= |s|
    decreases |s|
  {
    if |s| == 0 then []
    else if keep(s[0]) then [s[0]] + Filter(s[1..], keep)
    else Filter(s[1..], keep)
  }

  /** Deleting rows keeps every pairwise constraint. */
  lemma {:induction false} PairwiseFilter<T(!new)>(s: seq<T>, keep: T -> bool, R: (T, T) -> bool)
    requires Pairwise(s, R)
    ensures Pairwise(Filter(s, keep), R)
    decreases |s|
  {
    if |s| > 0 {
      var t := s[1..];
      assert Pairwise(t, R) by {
        assert forall i :: 0 <= i < |t| ==> t[i] == s[i + 1];
      }
      PairwiseFilter(t, keep, R);
      if keep(s[0]) {
        var rest := Filter(t, keep);
        assert forall y :: y in t ==> R(s[0], y) by {
          assert forall i :: 0 <= i < |t| ==> t[i] == s[i + 1];
        }
        PairwiseCons(s[0], rest, R);
      }
    }
  }

  lemma PairwiseCons<T(!new)>(x: T, s: seq<T>, R: (T, T) -> bool)
    requires Pairwise(s, R) && forall y :: y in s ==> R(x, y)
    ensures Pairwise([x] + s, R)
  {
    var r := [x] + s;
    assert forall i :: 1 <= i < |r| ==> r[i] == s[i - 1];
  }

  /** Appending a row unrelated to every earlier one keeps a pairwise constraint. */
  lemma PairwiseAppend<T(!new)>(s: seq<T>, x: T, R: (T, T) -> bool)
    requires Pairwise(s, R) && forall y :: y in s ==> R(y, x)
    ensures Pairwise(s + [x], R)
  {
    var r := s + [x];
    assert forall i :: 0 <= i < |s| ==> r[i] == s[i];
  }

  /** Updating one row in place keeps a pairwise constraint when the new row is unrelated to the others. */
  lemma PairwiseUpdate<T(!new)>(s: seq<T>, k: nat, x: T, R: (T, T) -> bool)
    requires k < |s| && Pairwise(s, R)
    requires forall i :: 0 <= i < |s| && i != k ==> R(s[i], x) && R(x, s[i])
    ensures Pairwise(s[k := x], R)
  {
  }

  predicate GameDistinct(a: GameRow, b: GameRow) {
    a.id != b.id && a.externalId != b.externalId
  }

  predicate PathDistinct(a: PathRow, b: PathRow) {
    a.id != b.id && (a.gameId != b.gameId || a.originalPath != b.originalPath)
  }

  predicate BackupDistinct(a: BackupRow, b: BackupRow) {
    a.id != b.id
  }

  predicate BackupFileDistinct(a: BackupFileRow, b: BackupFileRow) {
    a.id != b.id
  }

  predicate MetaDistinct(a: MetaRow, b: MetaRow) {
    a.id != b.id && a.key != b.key
  }

  /**
   * The constraints the schema's keys impose: rowids are positive and unique
   * in every table, `game.external_id` is unique, `(game_id, original_path)`
   * is unique in `game_path`, and `meta.key` is unique.
   */
  predicate Valid(c: Connection) {
    (forall r :: r in c.games ==> r.id > 0) && Pairwise(c.games, GameDistinct) &&
    (forall r :: r in c.gamePaths ==> r.id > 0) && Pairwise(c.gamePaths, PathDistinct) &&
    (forall r :: r in c.backups ==> r.id > 0) && Pairwise(c.backups, BackupDistinct) &&
    (forall r :: r in c.backupFiles ==> r.id > 0) && Pairwise(c.backupFiles, BackupFileDistinct) &&
    (forall r :: r in c.meta ==> r.id > 0) && Pairwise(c.meta, MetaDistinct) &&
    c.lastInsertRowid >= 0
  }
}
