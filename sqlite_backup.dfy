/**
 * The `backup` and `backup_file` tables of src/db_manager/sqlite/backup.rs:
 * recording a backup, recording its archives in one transaction, and
 * resolving the archive of a path by exact version or by latest time stamp.
 */
module SqliteBackup {
  import opened Wrappers
  import opened StdPath
  import opened IndexTables
  import opened SqliteGamePath
  import PathUtil

  /** A `Backup` record before it is stored: the fields its insert binds. */
  datatype Backup = Backup(gameId: int, version: string, timestamp: int)

  /** A `BackupFile` record: the fields its insert binds besides the backup id. */
  datatype BackupFile = BackupFile(originalPath: string, archivePath: string, sizeBytes: int, checksum: string)

  /** `insert_backup`: one new row with the next rowid; the result is `last_insert_rowid`, that rowid. */
  function InsertBackup(c: Connection, b: Backup): (out: (Connection, int))
    ensures out.0 == c.(backups := c.backups + [BackupRow(out.1, b.gameId, b.version, b.timestamp)],
                        lastInsertRowid := out.1)
    ensures out.1 > 0 && out.1 !in BackupIds(c.backups)
  {
    var id := NextRowid(BackupIds(c.backups));
    (c.(backups := c.backups + [BackupRow(id, b.gameId, b.version, b.timestamp)], lastInsertRowid := id), id)
  }

  /** Recording a backup keeps the index's constraints. */
  lemma InsertBackupValid(c: Connection, b: Backup)
    requires Valid(c)
    ensures Valid(InsertBackup(c, b).0)
  {
    var out := InsertBackup(c, b);
    forall y | y in c.backups ensures BackupDistinct(y, BackupRow(out.1, b.gameId, b.version, b.timestamp)) {
      var k :| 0 <= k < |c.backups| && c.backups[k] == y;
      assert BackupIds(c.backups)[k] == y.id;
    }
    PairwiseAppend(c.backups, BackupRow(out.1, b.gameId, b.version, b.timestamp), BackupDistinct);
  }

  /** The stored row records this file of this backup. */
  predicate RowOf(r: BackupFileRow, backupId: int, f: BackupFile) {
    r.backupId == backupId && r.originalPath == f.originalPath && r.archivePath == f.archivePath &&
    r.sizeBytes == f.sizeBytes && r.checksum == f.checksum
  }

  /**
   * The statements of the transaction, in order: each inserts one row, and
   * `rejects(backupId, f)` says the insert of `f` fails; the first failure
   * stops the loop with the working state reached so far.
   */
  function InsertFiles(c: Connection, backupId: int, files: seq<BackupFile>,
                       rejects: (int, BackupFile) -> bool): (out: (Connection, Result<()>))
    ensures out.0 == c.(backupFiles := out.0.backupFiles, lastInsertRowid := out.0.lastInsertRowid)
    ensures out.1.Ok? <==> forall i :: 0 <= i < |files| ==> !rejects(backupId, files[i])
    decreases |files|
  {
    if |files| == 0 then (c, Ok(()))
    else if rejects(backupId, files[0]) then (c, Err(Database("insert into backup_file failed")))
    else
      var f := files[0];
      var id := NextRowid(BackupFileIds(c.backupFiles));
      var row := BackupFileRow(id, backupId, f.originalPath, f.archivePath, f.sizeBytes, f.checksum);
      assert forall i :: 1 <= i < |files| ==> files[i] == files[1..][i - 1];
      InsertFiles(c.(backupFiles := c.backupFiles + [row], lastInsertRowid := id), backupId, files[1..], rejects)
  }

  /** `insert_backup_file`: the loop in one transaction; on failure every table is rolled back. */
  function InsertBackupFile(c: Connection, backupId: int, files: seq<BackupFile>,
                            rejects: (int, BackupFile) -> bool): (out: (Connection, Result<()>))
    ensures out.0 == c.(backupFiles := out.0.backupFiles, lastInsertRowid := out.0.lastInsertRowid)
  {
    var w := InsertFiles(c, backupId, files, rejects);
    if w.1.Err? then (c.(lastInsertRowid := w.0.lastInsertRowid), w.1) else w
  }

  /** On success the loop appended exactly one row per file, in order, each tagged with the backup id. */
  lemma {:induction false} InsertFilesRows(c: Connection, backupId: int, files: seq<BackupFile>,
                                           rejects: (int, BackupFile) -> bool)
    ensures var out := InsertFiles(c, backupId, files, rejects);
      out.1.Ok? ==>
        |out.0.backupFiles| == |c.backupFiles| + |files| && c.backupFiles <= out.0.backupFiles &&
        forall i :: 0 <= i < |files| ==> RowOf(out.0.backupFiles[|c.backupFiles| + i], backupId, files[i])
    decreases |files|
  {
    if |files| > 0 && !rejects(backupId, files[0]) {
      var f := files[0];
      var id := NextRowid(BackupFileIds(c.backupFiles));
      var row := BackupFileRow(id, backupId, f.originalPath, f.archivePath, f.sizeBytes, f.checksum);
      var c1 := c.(backupFiles := c.backupFiles + [row], lastInsertRowid := id);
      InsertFilesRows(c1, backupId, files[1..], rejects);
      var out := InsertFiles(c, backupId, files, rejects);
      if out.1.Ok? {
        assert out == InsertFiles(c1, backupId, files[1..], rejects);
        assert out.0.backupFiles[|c.backupFiles|] == row by {
          assert c1.backupFiles[|c.backupFiles|] == row;
        }
        forall i | 1 <= i < |files|
          ensures RowOf(out.0.backupFiles[|c.backupFiles| + i], backupId, files[i])
        {
          assert files[1..][i - 1] == files[i];
          assert |c1.backupFiles| + (i - 1) == |c.backupFiles| + i;
        }
      }
    }
  }

  /**
   * `insert_backup_file` succeeds iff no insert fails; then it appends one
   * row per file in order, each tagged with the backup id; on failure the
   * tables are as before the call.
   */
  lemma InsertBackupFileSpec(c: Connection, backupId: int, files: seq<BackupFile>,
                             rejects: (int, BackupFile) -> bool)
    ensures var out := InsertBackupFile(c, backupId, files, rejects);
      (out.1.Ok? <==> forall i :: 0 <= i < |files| ==> !rejects(backupId, files[i])) &&
      (out.1.Ok? ==>
        |out.0.backupFiles| == |c.backupFiles| + |files| && c.backupFiles <= out.0.backupFiles &&
        forall i :: 0 <= i < |files| ==> RowOf(out.0.backupFiles[|c.backupFiles| + i], backupId, files[i])) &&
      (out.1.Err? ==> out.0 == c.(lastInsertRowid := out.0.lastInsertRowid))
  {
    InsertFilesRows(c, backupId, files, rejects);
  }

  /** The loop keeps the index's constraints: every new row gets a fresh positive rowid. */
  lemma {:induction false} InsertFilesValid(c: Connection, backupId: int, files: seq<BackupFile>,
                                            rejects: (int, BackupFile) -> bool)
    requires Valid(c)
    ensures Valid(InsertFiles(c, backupId, files, rejects).0)
    decreases |files|
  {
    if |files| > 0 && !rejects(backupId, files[0]) {
      var f := files[0];
      var id := NextRowid(BackupFileIds(c.backupFiles));
      var row := BackupFileRow(id, backupId, f.originalPath, f.archivePath, f.sizeBytes, f.checksum);
      forall y | y in c.backupFiles ensures BackupFileDistinct(y, row) {
        var k :| 0 <= k < |c.backupFiles| && c.backupFiles[k] == y;
        assert BackupFileIds(c.backupFiles)[k] == y.id;
      }
      PairwiseAppend(c.backupFiles, row, BackupFileDistinct);
      InsertFilesValid(c.(backupFiles := c.backupFiles + [row], lastInsertRowid := id), backupId, files[1..], rejects);
    }
  }

  lemma InsertBackupFileValid(c: Connection, backupId: int, files: seq<BackupFile>,
                              rejects: (int, BackupFile) -> bool)
    requires Valid(c)
    ensures Valid(InsertBackupFile(c, backupId, files, rejects).0)
  {
    InsertFilesValid(c, backupId, files, rejects);
  }

  /** One row of the query's join: the backup's time stamp and the file's archive path. */
  datatype Hit = Hit(timestamp: int, archivePath: string)

  /** The `WHERE` of the query: the join condition, the game, the version if given, the path. */
  predicate Matches(b: BackupRow, f: BackupFileRow, gameId: int, version: Option<string>, path: string) {
    b.id == f.backupId && b.gameId == gameId && (version.Some? ==> b.version == version.value) &&
    f.originalPath == path
  }

  /** The join rows of one backup, in file rowid order. */
  function FileHits(b: BackupRow, files: seq<BackupFileRow>, gameId: int, version: Option<string>,
                    path: string): (r: seq<Hit>)
    ensures forall h :: h in r <==>
      exists f :: f in files && Matches(b, f, gameId, version, path) && h == Hit(b.timestamp, f.archivePath)
    decreases |files|
  {
    if |files| == 0 then []
    else
      var rest := FileHits(b, files[1..], gameId, version, path);
      assert forall f :: f in files <==> f == files[0] || f in files[1..];
      if Matches(b, files[0], gameId, version, path) then [Hit(b.timestamp, files[0].archivePath)] + rest
      else rest
  }

  /** The join rows, backup by backup in rowid order. */
  function Hits(backups: seq<BackupRow>, files: seq<BackupFileRow>, gameId: int, version: Option<string>,
                path: string): (r: seq<Hit>)
    ensures forall h :: h in r <==>
      exists b, f :: b in backups && f in files && Matches(b, f, gameId, version, path) &&
                     h == Hit(b.timestamp, f.archivePath)
    decreases |backups|
  {
    if |backups| == 0 then []
    else
      assert forall b :: b in backups <==> b == backups[0] || b in backups[1..];
      FileHits(backups[0], files, gameId, version, path) + Hits(backups[1..], files, gameId, version, path)
  }

  /** `ORDER BY b.timestamp DESC LIMIT 1`: the first row with the greatest time stamp. */
  function Latest(hits: seq<Hit>): (r: Hit)
    requires |hits| > 0
    ensures r in hits && forall h :: h in hits ==> h.timestamp <= r.timestamp
    decreases |hits|
  {
    if |hits| == 1 then hits[0]
    else
      var rest := Latest(hits[1..]);
      assert forall h :: h in hits ==> h == hits[0] || h in hits[1..];
      if hits[0].timestamp >= rest.timestamp then hits[0] else rest
  }

  /**
   * `get_archive_file_path`. With a version, the archive of a row matching
   * game, version and path; without one, the archive of a matching row of
   * the latest backup. No matching row is an error. The stored text is
   * read back as a path with a leading `~` expanded to `home`.
   */
  function GetArchiveFilePath(c: Connection, home: Option<Path>, gameId: int, version: Option<string>,
                              originalPath: Path): (r: Result<Path>)
    ensures r.Err? <==> forall b, f :: b in c.backups && f in c.backupFiles ==>
                                       !Matches(b, f, gameId, version, PathText(originalPath))
    ensures r.Err? ==> r.error == QueryReturnedNoRows
    ensures r.Ok? ==> exists b, f :: b in c.backups && f in c.backupFiles &&
                                     Matches(b, f, gameId, version, PathText(originalPath)) &&
                                     r.value == PathUtil.ExpandPath(home, Parse(f.archivePath)) &&
                                     (version.None? ==>
                                        forall b', f' :: b' in c.backups && f' in c.backupFiles &&
                                                         Matches(b', f', gameId, version, PathText(originalPath)) ==>
                                                         b'.timestamp <= b.timestamp)
  {
    var path := PathText(originalPath);
    var hits := Hits(c.backups, c.backupFiles, gameId, version, path);
    if |hits| == 0 then
      assert forall b, f :: b in c.backups && f in c.backupFiles && Matches(b, f, gameId, version, path) ==>
        Hit(b.timestamp, f.archivePath) in hits;
      Err(QueryReturnedNoRows)
    else
      var h := if version.Some? then hits[0] else Latest(hits);
      assert h in hits;
      var b, f :| b in c.backups && f in c.backupFiles && Matches(b, f, gameId, version, path) &&
                  h == Hit(b.timestamp, f.archivePath);
      assert forall b', f' :: b' in c.backups && f' in c.backupFiles && Matches(b', f', gameId, version, path) ==>
        Hit(b'.timestamp, f'.archivePath) in hits;
      Ok(PathUtil.ExpandPath(home, Parse(f.archivePath)))
  }

  /**
   * An archive path stored in the form `shrink_path` gives (`~` for the home
   * directory) comes back as the original absolute path.
   */
  lemma StoredTildePathExpands(home: Path, p: Path)
    requires StartsWith(p, home) && ValidComponents(p.comps)
    ensures PathUtil.ExpandPath(Some(home), Parse(Display(PathUtil.ShrinkPath(Some(home), p)))) == p
  {
    var s := PathUtil.ShrinkPath(Some(home), p);
    assert s.comps == ["~"] + p.comps[|home.comps|..];
    assert ValidComponents(s.comps) by {
      forall i | 0 <= i < |s.comps| ensures ValidComponent(s.comps[i]) {
        if i > 0 { assert s.comps[i] == p.comps[|home.comps| + i - 1]; }
      }
    }
    ParseDisplay(s);
    PathUtil.ExpandShrink(home, p);
  }
}
