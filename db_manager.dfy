/**
 * The `DbManager` of src/db_manager/sqlite: one open connection whose
 * methods change the index step by step, as the trait implementations in
 * game.rs, game_path.rs, meta.rs, backup.rs, sync.rs and connection.rs do.
 * Each method is proved equal to the function that specifies it, and the
 * properties are lemmas about those functions. Every method keeps the
 * schema's constraints (`Valid`), except where it applies the schema
 * script, which is a parameter and may produce any tables.
 */
module Sqlite {
  import opened Wrappers
  import opened StdPath
  import IndexTables
  import SqliteMeta
  import SqliteGamePath
  import SqliteGame
  import SqliteBackup
  import SqliteSync
  import SqliteConnection
  import VaultConfigs

  class DbManager {
    var conn: IndexTables.Connection

    constructor (c: IndexTables.Connection)
      ensures conn == c
    {
      conn := c;
    }

    predicate Valid()
      reads this
    {
      IndexTables.Valid(conn)
    }

    /** `update_meta_value`. */
    method UpdateMetaValue(key: string, value: string)
      modifies this
      ensures conn == SqliteMeta.UpdateMetaValue(old(conn), key, value)
      ensures old(Valid()) ==> Valid()
    {
      if Valid() {
        SqliteMeta.UpdateKeepsValid(conn, key, value);
      }
      conn := SqliteMeta.UpdateMetaValue(conn, key, value);
    }

    /** `upsert_game`. */
    method UpsertGame(game: SqliteGame.Game) returns (id: Option<int>)
      modifies this
      ensures (conn, id) == SqliteGame.UpsertGame(old(conn), game)
      ensures old(Valid()) ==> Valid()
    {
      if Valid() {
        SqliteGame.UpsertGameValid(conn, game);
      }
      var out := SqliteGame.UpsertGame(conn, game);
      conn, id := out.0, out.1;
    }

    /** `upsert_paths`: the inserts in one transaction, rolled back on the first failure. */
    method UpsertPaths(gameId: int, paths: seq<Path>, rejects: (int, string) -> bool) returns (r: Result<()>)
      modifies this
      ensures (conn, r) == SqliteGamePath.UpsertPaths(old(conn), gameId, paths, rejects)
      ensures old(Valid()) ==> Valid()
    {
      if Valid() {
        SqliteGamePath.UpsertPathsValid(conn, gameId, paths, rejects);
      }
      var saved := conn;
      var i := 0;
      while i < |paths|
        invariant 0 <= i <= |paths|
        invariant SqliteGamePath.InsertPaths(saved, gameId, paths, rejects) ==
                  SqliteGamePath.InsertPaths(conn, gameId, paths[i..], rejects)
      {
        assert paths[i..][0] == paths[i] && paths[i..][1..] == paths[i + 1..];
        var step := SqliteGamePath.InsertPath(conn, gameId, SqliteGamePath.PathText(paths[i]), rejects);
        if step.Err? {
          conn := saved.(lastInsertRowid := conn.lastInsertRowid);
          return Err(step.error);
        }
        conn := step.value;
        i := i + 1;
      }
      assert paths[i..] == [];
      r := Ok(());
    }

    /**
     * `upsert_games_from_config`, corrected: each game is upserted, its rowid
     * is looked up by external id, and its paths are stored under that
     * rowid; the first error stops the loop.
     */
    method UpsertGamesFromConfig(config: VaultConfigs.VaultConfig, now: int, rejects: (int, string) -> bool)
        returns (r: Result<()>)
      modifies this
      ensures (conn, r) == SqliteGame.UpsertGames(old(conn), config.games, now, rejects)
      ensures old(Valid()) ==> Valid()
    {
      if Valid() {
        SqliteGame.UpsertGamesValid(conn, config.games, now, rejects);
      }
      var games := config.games;
      var i := 0;
      while i < |games|
        invariant 0 <= i <= |games|
        invariant SqliteGame.UpsertGames(old(conn), games, now, rejects) ==
                  SqliteGame.UpsertGames(conn, games[i..], now, rejects)
      {
        assert games[i..][0] == games[i] && games[i..][1..] == games[i + 1..];
        SqliteGame.UpsertGamesStep(conn, games[i..], now, rejects);
        var before := conn;
        var returned := UpsertGame(SqliteGame.GameFromConfig(games[i], now));
        var found := SqliteGame.FindGameWithExternalId(conn, games[i].id);
        if found.Err? {
          return Err(found.error);
        }
        r := UpsertPaths(found.value, games[i].paths, rejects);
        assert (conn, r) == SqliteGame.UpsertOne(before, games[i], now, rejects);
        if r.Err? {
          return;
        }
        i := i + 1;
      }
      assert games[i..] == [];
      r := Ok(());
    }

    /** The loop of `prune_obsolete_games`: delete, by rowid, each listed game whose external id is not in `ids`. */
    method PruneGames(ids: set<string>, listing: seq<IndexTables.GameRow>) returns (pruned: seq<string>)
      modifies this
      ensures (conn, pruned) == SqliteGame.PruneGames(old(conn), ids, listing)
      ensures old(Valid()) ==> Valid()
    {
      if Valid() {
        SqliteGame.PruneGamesValid(conn, ids, listing);
      }
      ghost var whole := SqliteGame.PruneGames(conn, ids, listing);
      pruned := [];
      var i := 0;
      assert listing[i..] == listing;
      while i < |listing|
        invariant 0 <= i <= |listing|
        invariant SqliteGame.PruneGames(conn, ids, listing[i..]).0 == whole.0
        invariant pruned + SqliteGame.PruneGames(conn, ids, listing[i..]).1 == whole.1
      {
        assert listing[i..][0] == listing[i] && listing[i..][1..] == listing[i + 1..];
        SqliteGame.PruneGamesStep(conn, ids, listing[i..]);
        var game := listing[i];
        if game.externalId !in ids {
          conn := SqliteGame.DeleteGame(conn, game.id);
          pruned := pruned + [game.externalId];
        }
        i := i + 1;
      }
      assert listing[i..] == [];
      assert pruned + [] == pruned;
    }

    /** `prune_obsolete_games`: list the games by name, then prune those the config does not name. */
    method PruneObsoleteGames(config: VaultConfigs.VaultConfig) returns (pruned: seq<string>)
      modifies this
      ensures (conn, pruned) == SqliteGame.PruneObsoleteGames(old(conn), config)
      ensures old(Valid()) ==> Valid()
    {
      var listing := SqliteGame.GetDbGameList(conn);
      var ids := VaultConfigs.IdSet(config);
      pruned := PruneGames(ids, listing);
    }

    /** The loop of `prune_obsolete_paths`: delete, by rowid, each listed path whose pair is not in `pairs`. */
    method PrunePaths(pairs: set<(string, string)>, listing: seq<SqliteGamePath.DbPathInfo>)
        returns (pruned: seq<(string, string)>)
      modifies this
      ensures (conn, pruned) == SqliteGamePath.PrunePaths(old(conn), pairs, listing)
      ensures old(Valid()) ==> Valid()
    {
      if Valid() {
        SqliteGamePath.PrunePathsValid(conn, pairs, listing);
      }
      ghost var whole := SqliteGamePath.PrunePaths(conn, pairs, listing);
      pruned := [];
      var i := 0;
      assert listing[i..] == listing;
      while i < |listing|
        invariant 0 <= i <= |listing|
        invariant SqliteGamePath.PrunePaths(conn, pairs, listing[i..]).0 == whole.0
        invariant pruned + SqliteGamePath.PrunePaths(conn, pairs, listing[i..]).1 == whole.1
      {
        assert listing[i..][0] == listing[i] && listing[i..][1..] == listing[i + 1..];
        SqliteGamePath.PrunePathsStep(conn, pairs, listing[i..]);
        var info := listing[i];
        if SqliteGamePath.Pair(info) !in pairs {
          conn := SqliteGamePath.DeletePath(conn, info.id);
          pruned := pruned + [SqliteGamePath.Pair(info)];
        }
        i := i + 1;
      }
      assert listing[i..] == [];
      assert pruned + [] == pruned;
    }

    /** `prune_obsolete_paths`: list the paths joined with their games, then prune those outside the config's pairs. */
    method PruneObsoletePaths(config: VaultConfigs.VaultConfig) returns (pruned: seq<(string, string)>)
      modifies this
      ensures (conn, pruned) == SqliteGamePath.PruneObsoletePaths(old(conn), config)
      ensures old(Valid()) ==> Valid()
    {
      var listing := SqliteGamePath.GetAllDbPaths(conn);
      var pairs := SqliteGamePath.ConfigPairs(config);
      pruned := PrunePaths(pairs, listing);
    }

    /** `insert_backup`. */
    method InsertBackup(backup: SqliteBackup.Backup) returns (id: int)
      modifies this
      ensures (conn, id) == SqliteBackup.InsertBackup(old(conn), backup)
      ensures old(Valid()) ==> Valid()
    {
      if Valid() {
        SqliteBackup.InsertBackupValid(conn, backup);
      }
      var out := SqliteBackup.InsertBackup(conn, backup);
      conn, id := out.0, out.1;
    }

    /** `insert_backup_file`: the inserts in one transaction, rolled back on the first failure. */
    method InsertBackupFile(backupId: int, files: seq<SqliteBackup.BackupFile>,
                            rejects: (int, SqliteBackup.BackupFile) -> bool) returns (r: Result<()>)
      modifies this
      ensures (conn, r) == SqliteBackup.InsertBackupFile(old(conn), backupId, files, rejects)
      ensures old(Valid()) ==> Valid()
    {
      if Valid() {
        SqliteBackup.InsertBackupFileValid(conn, backupId, files, rejects);
      }
      var saved := conn;
      var i := 0;
      while i < |files|
        invariant 0 <= i <= |files|
        invariant SqliteBackup.InsertFiles(saved, backupId, files, rejects) ==
                  SqliteBackup.InsertFiles(conn, backupId, files[i..], rejects)
      {
        assert files[i..][0] == files[i] && files[i..][1..] == files[i + 1..];
        var file := files[i];
        if rejects(backupId, file) {
          conn := saved.(lastInsertRowid := conn.lastInsertRowid);
          return Err(Database("insert into backup_file failed"));
        }
        var id := IndexTables.NextRowid(IndexTables.BackupFileIds(conn.backupFiles));
        var row := IndexTables.BackupFileRow(id, backupId, file.originalPath, file.archivePath, file.sizeBytes, file.checksum);
        conn := conn.(backupFiles := conn.backupFiles + [row], lastInsertRowid := id);
        i := i + 1;
      }
      assert files[i..] == [];
      r := Ok(());
    }

    /** `perform_sync`: read the config, upsert, prune games, prune paths, then store the new hash. */
    method PerformSync(loaded: Result<VaultConfigs.VaultConfig>, newHash: string, now: int,
                       rejects: (int, string) -> bool) returns (r: Result<()>)
      modifies this
      ensures (conn, r) == SqliteSync.PerformSync(old(conn), loaded, newHash, now, rejects)
      ensures old(Valid()) ==> Valid()
    {
      if loaded.Err? {
        return Err(loaded.error);
      }
      var config := loaded.value;
      SqliteSync.PerformSyncUnfold(conn, config, newHash, now, rejects);
      r := UpsertGamesFromConfig(config, now, rejects);
      if r.Err? {
        return;
      }
      var prunedGames := PruneObsoleteGames(config);
      var prunedPaths := PruneObsoletePaths(config);
      UpdateMetaValue(SqliteSync.HashKey, newHash);
      r := Ok(());
    }

    /** `sync`: the hash gate, then `perform_sync`. */
    method Sync(fileHash: Option<string>, loaded: Result<VaultConfigs.VaultConfig>, force: bool, now: int,
                rejects: (int, string) -> bool) returns (r: Result<()>)
      modifies this
      ensures (conn, r) == SqliteSync.Sync(old(conn), fileHash, loaded, force, now, rejects)
      ensures old(Valid()) ==> Valid()
    {
      var dbHash := ToOption(SqliteMeta.GetMetaValue(conn, SqliteSync.HashKey));
      if SqliteSync.SyncNeeded(force, fileHash, dbHash) {
        if fileHash.None? {
          return Err(Panic(SqliteSync.MissingHash));
        }
        r := PerformSync(loaded, fileHash.value, now, rejects);
      } else {
        r := Ok(());
      }
    }

    /** `ensure_initialized`: apply the schema iff reading the schema version fails. */
    method EnsureInitialized(schema: IndexTables.Connection -> Result<IndexTables.Connection>) returns (r: Result<()>)
      modifies this
      ensures var init := SqliteConnection.EnsureInitialized(old(conn), schema);
        (r.Ok? <==> init.Ok?) && (init.Ok? ==> conn == init.value) &&
        (init.Err? ==> conn == old(conn) && r.error == init.error)
      ensures old(Valid()) && (r.Err? || SqliteMeta.GetMetaValue(old(conn), SqliteConnection.SchemaVersionKey).Ok?) ==>
                Valid()
    {
      if SqliteMeta.GetMetaValue(conn, SqliteConnection.SchemaVersionKey).Err? {
        var applied := schema(conn);
        if applied.Err? {
          return Err(applied.error);
        }
        conn := applied.value;
      }
      r := Ok(());
    }

    /** `DbManager::new`: open a fresh connection, initialize, then sync without forcing. */
    static method New(stored: Result<IndexTables.Connection>,
                      schema: IndexTables.Connection -> Result<IndexTables.Connection>,
                      fileHash: Option<string>, loaded: Result<VaultConfigs.VaultConfig>, now: int,
                      rejects: (int, string) -> bool) returns (r: Result<DbManager>)
      ensures var spec := SqliteConnection.New(stored, schema, fileHash, loaded, now, rejects);
        (r.Ok? <==> spec.Ok?) && (r.Ok? ==> fresh(r.value) && r.value.conn == spec.value) &&
        (r.Err? ==> r.error == spec.error)
      ensures stored.Ok? && IndexTables.Valid(stored.value) &&
              SqliteMeta.GetMetaValue(stored.value, SqliteConnection.SchemaVersionKey).Ok? && r.Ok? ==>
                r.value.Valid()
    {
      var connected := SqliteConnection.Open(stored);
      if connected.Err? {
        return Err(connected.error);
      }
      var manager := new DbManager(connected.value);
      assert stored.Ok? ==> SqliteMeta.GetMetaValue(manager.conn, SqliteConnection.SchemaVersionKey) ==
                            SqliteMeta.GetMetaValue(stored.value, SqliteConnection.SchemaVersionKey);
      var init := manager.EnsureInitialized(schema);
      if init.Err? {
        return Err(init.error);
      }
      var synced := manager.Sync(fileHash, loaded, false, now, rejects);
      if synced.Err? {
        return Err(synced.error);
      }
      r := Ok(manager);
    }
  }
}
