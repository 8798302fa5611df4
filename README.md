# kaguya: a verified model of the game-save index and its helpers

kaguya backs up game saves. A declarative games file lists each game's id
and its save paths. An SQLite index mirrors that list and records the
backups. Archives are written to a vault directory and can be restored
from it. This project models the core of that program in Dafny and proves
what the core promises.

- **The index** (modules `IndexTables`, `SqliteMeta`, `SqliteGame`,
  `SqliteGamePath`, `SqliteBackup`, `SqliteSync`, `SqliteConnection`).
  - It holds the five tables `game`, `game_path`, `backup`, `backup_file`
    and `meta` as sequences of rows in rowid order.
  - It also holds the connection-wide `last_insert_rowid`. Every row
    actually inserted sets it, even by the `INSERT OR REPLACE` into `meta`.
    An upsert that updates or does nothing leaves it as it was. A rollback
    does not restore it. A fresh connection starts at 0.
  - SQL statements are written as table updates:
    - a new rowid is the table's largest rowid plus one;
    - `ON CONFLICT` clauses and `DELETE ... WHERE id = ?` are written out;
    - the join and `ORDER BY` are listings in a fixed order.
  - `Valid` gathers the schema's key constraints. Every operation that
    writes the tables is proved to keep them. Applying the schema script is
    the exception: the script is a parameter and may give any tables.
- **`DbManager`** (module `Sqlite`). It is a class whose one field is the
  connection.
  - Its methods are the loops and transactions of the source.
  - Each method is proved equal to the function that specifies it.
  - Each method that writes the tables is also proved to keep `Valid`.
    `EnsureInitialized` keeps it when it does not apply the schema or when
    that fails. `New` gives a valid manager when the stored tables are
    valid and already initialized.
- **The games file** (modules `Requests`, `GameConfigs`, `VaultConfigs`,
  `TomlStore`) covers:
  - the entries built from an add request;
  - the duplicate-rejecting append.
- **Path helpers** (modules `StdPath`, `PathUtil`, `CoreUtils`) cover:
  - tilde shrinking and expansion over lists of components;
  - file names;
  - default directories, with the platform directories as parameters.
- **Checksums** (modules `Hash`, `BTreeMap`).
  - SHA-256 is an uninterpreted function `sha`.
  - A file is read in 8192-byte chunks.
  - A directory's checksum hashes its `(relative path, file hash)` pairs in
    key order.
- **Restore and backup** (modules `FileTree`, `Restore`, `VaultService`).
  - They run over an abstract file tree of files, directories and other
    entries.
  - Decompression, compression, the process id, the random characters and
    the clock are parameters.

Statement failures that the model injects are parameters as well:
- `rejects` says which `game_path` or `backup_file` insert fails;
- `schema` is the result of running the schema script;
- `stored` is the result of opening the database file;
- `loaded` is the result of reading the games file.

Where the source files disagree with each other, the model follows each
file's own code:
- The sync stores its hash under the meta key `game_config_file_hash`
  (src/db_manager/sqlite/sync.rs:29,56). The constant
  `KEY_VAULT_CONFIG_HASH` says `vault_config_hash` but is not used.
- Two `GameConfig` types exist:
  - src/models/game_config.rs has an optional name and `u32` retention;
  - src/models/vault_config.rs has a mandatory name and `i64` retention.

  Both are modelled. `GameConfigs.GameConfig` is the first and serves the
  add path and the backup service. `VaultConfigs.GameConfig` is the second
  and serves the index synchronisation.
- `Game::from(&GameConfig)` is used at src/db_manager/sqlite/game.rs:34,
  but the shown src/models/db.rs does not define it.
  `SqliteGame.GameFromConfig` takes the fields across and sets both time
  stamps to the parameter `now`.
- The same file does not define `Backup`, `BackupFile` or `DbPathInfo`.
  Their fields are those that the SQL of backup.rs and game_path.rs binds
  and reads.
- `get_archive_file_path` returns the `PathBuf` of `expand_path` where its
  signature promises a `Result`. The model returns `Ok` of it.
- src/core/services/vault.rs imports `find_game_ref` and `get_file_name`
  from `core::utils`. Only src/utils/path.rs defines them, and the model
  uses those definitions.

## Model

| member | source | states |
|---|---|---|
| Wrappers.ToOption | src/db_manager/sqlite/sync.rs:28-29 | `.ok()` is `Some` exactly for `Ok` and keeps the value |
| IndexTables.NextRowid | src/db_manager/sqlite/backup.rs:38-40 | a new rowid is positive and larger than every rowid in its table |
| IndexTables.Filter | src/db_manager/sqlite/game.rs:63-64 | a `DELETE` leaves exactly the rows the condition keeps, and never adds rows |
| IndexTables.PairwiseFilter | src/db_manager/sqlite/game_path.rs:49-50 | deleting rows keeps every uniqueness constraint of a table |
| SqliteMeta.GetMetaValue | src/db_manager/sqlite/meta.rs:26-34 | `Ok` iff a row with the key exists, and then it is that row's value; a missing key is `QueryReturnedNoRows`, not a default |
| SqliteMeta.UpdateMetaValue | src/db_manager/sqlite/meta.rs:18-24 | `INSERT OR REPLACE` touches only `meta`, and the replacing row gets a fresh rowid, which becomes `last_insert_rowid` |
| SqliteMeta.GetAfterUpdate | src/db_manager/sqlite/meta.rs:18-34 | reading a key right after writing it gives the value written |
| SqliteMeta.UpdateKeepsOthers | src/db_manager/sqlite/meta.rs:19-22 | writing one key leaves every other key's lookup as it was, present or absent |
| SqliteMeta.UpdatePairwise | src/db_manager/sqlite/meta.rs:20 | the replace keeps keys unique, so each key has one value |
| SqliteMeta.UpdateKeepsValid | src/db_manager/sqlite/meta.rs:18-24 | the meta write keeps all the index's constraints |
| SqliteGame.GameFromConfig | src/db_manager/sqlite/game.rs:34 | the game row to upsert carries the config's id, name, comment and retention, stamped with `now` |
| SqliteGame.FindGameWithExternalId | src/db_manager/sqlite/game.rs:78-84 | `Ok` iff some row has the external id, and then the result is that row's rowid; otherwise `QueryReturnedNoRows` |
| SqliteGame.FindGameUnique | src/db_manager/sqlite/game.rs:78-84 | external ids are unique, so the lookup returns exactly the row's own rowid |
| SqliteGame.UpsertGame | src/db_manager/sqlite/game.rs:111-158 | only `game` and `last_insert_rowid` change; the result is `None` iff `last_insert_rowid` is 0 afterwards, else `Some` of it |
| SqliteGame.UpsertGameInserts | src/db_manager/sqlite/game.rs:113-114 | a new external id gets one appended row with a fresh rowid, which becomes `last_insert_rowid` and is returned |
| SqliteGame.UpsertGameConflict | src/db_manager/sqlite/game.rs:115-122 | an existing external id never gets a second row; name, comment, retention and `updated_at` are overwritten only when name, comment or retention differ (NULL-aware); `created_at`, other rows and `last_insert_rowid` stay, so the stale rowid is returned |
| SqliteGame.UpsertGameValid | src/db_manager/sqlite/game.rs:111-132 | the upsert keeps the constraints and keeps every row's rowid, external id and creation time |
| SqliteGame.UpsertGameStores | src/db_manager/sqlite/game.rs:111-132 | afterwards one stored row holds the game's fields, and the lookup by external id finds that row |
| SqliteGame.UpsertGameIds | src/db_manager/sqlite/game.rs:113-115 | the upsert adds the game's external id to the stored ids and no other |
| BTreeMap.LessTotal | src/db_manager/sqlite/game.rs:91 | the order of strings is total |
| BTreeMap.LessTransitive | src/fs_utils/hash.rs:53 | the order of strings is transitive |
| SqliteGame.NameLeTotal | src/db_manager/sqlite/game.rs:91 | `ORDER BY name` is total, with NULL first |
| SqliteGame.NameLeTransitive | src/db_manager/sqlite/game.rs:91 | `ORDER BY name` is transitive |
| SqliteGame.SortByName | src/db_manager/sqlite/game.rs:87-108 | the listing is a permutation of the table |
| SqliteGame.SortByNameSorted | src/db_manager/sqlite/game.rs:91 | the listing is in name order |
| SqliteGame.GameListSpec | src/db_manager/sqlite/game.rs:87-108 | `get_db_game_list` returns every row exactly once, ordered by name |
| SqliteGame.DeleteGame | src/db_manager/sqlite/game.rs:63-64 | deleting by rowid removes exactly the rows with that rowid |
| SqliteGame.ObsoleteIdsInOrder | src/db_manager/sqlite/game.rs:60-74 | the collected ids are the external ids of the obsolete listed rows, in listing order |
| SqliteGame.PruneGames | src/db_manager/sqlite/game.rs:60-72 | the prune loop touches only `game`; a row survives iff no obsolete listed row has its rowid; it returns the obsolete ids in listing order |
| SqliteGame.PruneObsoleteGames | src/db_manager/sqlite/game.rs:49-75 | pruning changes only `game` and returns the obsolete ids of the name-ordered listing |
| SqliteGame.PruneObsoleteGamesSpec | src/db_manager/sqlite/game.rs:53-75 | afterwards exactly the rows whose external id is in the config remain, unchanged; the result is the external ids of exactly the others, in `ORDER BY name` order |
| SqliteGame.PruneGamesValid | src/db_manager/sqlite/game.rs:60-72 | pruning keeps the index's constraints |
| SqliteGame.UpsertGamesAsWritten | src/db_manager/sqlite/game.rs:29-46 | the loop as written: upsert, take the returned id if any, else look it up, then store the paths under that id; the first error stops it |
| SqliteGame.StaleRowidCounterexample | src/db_manager/sqlite/game.rs:37-43 | from games `a` (rowid 1) and `c` (rowid 2), syncing a new game `b` with `/x` and then an unchanged `c` with `/y` stores `/y` under `a` and not under `c` |
| SqliteGame.UpsertGamesAsWrittenIds | src/db_manager/sqlite/game.rs:29-46 | the loop as written keeps the constraints and, on success, adds exactly the config's ids to the stored external ids |
| SqliteGame.UpsertGames | src/db_manager/sqlite/game.rs:29-46 | the corrected loop (look up each game's rowid after the upsert) changes only `game`, `game_path` and `last_insert_rowid` |
| SqliteGame.UpsertOneStores | src/db_manager/sqlite/game.rs:33-44 | one corrected step keeps the constraints, stores the game's id, and on success stores every one of its paths under that game |
| SqliteGame.UpsertGamesStores | src/db_manager/sqlite/game.rs:29-46 | the corrected loop keeps the constraints and loses no stored row or pair; on success every config `(id, path)` pair is stored under the game with that id |
| SqliteGame.UpsertGamesIds | src/db_manager/sqlite/game.rs:29-46 | on success the stored external ids are the old ones plus exactly the config's ids |
| SqliteGamePath.InsertPath | src/db_manager/sqlite/game_path.rs:106-113 | one `ON CONFLICT DO NOTHING` insert fails iff the pair is absent and the insert is rejected; on success the pair is present, old rows stay and any new row is that pair with a fresh rowid |
| SqliteGamePath.InsertPaths | src/db_manager/sqlite/game_path.rs:112-114 | the insert loop only appends to `game_path` and changes `last_insert_rowid` |
| SqliteGamePath.InsertPathsNew | src/db_manager/sqlite/game_path.rs:106-114 | every row the loop adds pairs the game with one of the given paths |
| SqliteGamePath.InsertPathsCovers | src/db_manager/sqlite/game_path.rs:112-114 | a loop that gets through leaves every given pair present |
| SqliteGamePath.UpsertPaths | src/db_manager/sqlite/game_path.rs:103-118 | the transaction changes only `game_path` and `last_insert_rowid`; a failing insert rolls `game_path` back to its state before the call |
| SqliteGamePath.UpsertPathsAdds | src/db_manager/sqlite/game_path.rs:103-118 | on success every pair is present, no row was deleted or changed, and every new row is one of the pairs |
| SqliteGamePath.UpsertPathsValid | src/db_manager/sqlite/game_path.rs:107-109 | `(game_id, original_path)` stays unique, even with duplicate input paths, and rowids stay unique |
| SqliteGamePath.FindGameById | src/db_manager/sqlite/game_path.rs:70-72 | the join finds a game row with the path's `game_id`, or there is none |
| SqliteGamePath.FindGameByIdUnique | src/db_manager/sqlite/game_path.rs:70-72 | with unique rowids the join finds exactly the game row with that rowid |
| SqliteGamePath.Join | src/db_manager/sqlite/game_path.rs:68-85 | the join lists exactly the path rows whose game row exists, each with that game's external id |
| SqliteGamePath.DeletePath | src/db_manager/sqlite/game_path.rs:49-50 | deleting by rowid removes exactly the path rows with that rowid |
| SqliteGamePath.PrunePaths | src/db_manager/sqlite/game_path.rs:40-64 | the prune loop touches only `game_path`; a row survives iff no listed path outside the pair set has its rowid; it returns the outside pairs in listing order |
| SqliteGamePath.PruneObsoletePaths | src/db_manager/sqlite/game_path.rs:24-65 | pruning changes only `game_path` and returns the listed pairs outside the config, in listing order |
| SqliteGamePath.PruneObsoletePathsSpec | src/db_manager/sqlite/game_path.rs:24-65 | afterwards every listed pair is in the config's pair set, and every listed path whose pair is in the set is still listed |
| SqliteGamePath.PruneObsoletePathsValid | src/db_manager/sqlite/game_path.rs:40-62 | pruning paths keeps the index's constraints |
| SqliteBackup.InsertBackup | src/db_manager/sqlite/backup.rs:32-41 | one row `(game_id, version, timestamp)` is appended with a fresh positive rowid, and that rowid is returned and becomes `last_insert_rowid` |
| SqliteBackup.InsertBackupValid | src/db_manager/sqlite/backup.rs:32-41 | recording a backup keeps the constraints |
| SqliteBackup.InsertFiles | src/db_manager/sqlite/backup.rs:55-63 | the loop succeeds iff no file's insert is rejected, and changes only `backup_file` and `last_insert_rowid` |
| SqliteBackup.InsertFilesRows | src/db_manager/sqlite/backup.rs:55-63 | on success exactly one row per file is appended, in input order, each tagged with the backup id |
| SqliteBackup.InsertBackupFileSpec | src/db_manager/sqlite/backup.rs:43-67 | the transaction is all-or-nothing: on failure `backup_file` is as before; on success one row per file is added in order |
| SqliteBackup.InsertBackupFileValid | src/db_manager/sqlite/backup.rs:43-67 | the transaction keeps the constraints |
| SqliteBackup.Hits | src/db_manager/sqlite/backup.rs:81-84 | the join rows are exactly the `(backup, file)` pairs that satisfy the `WHERE` |
| SqliteBackup.Latest | src/db_manager/sqlite/backup.rs:95-96 | `ORDER BY timestamp DESC LIMIT 1` picks a row whose time stamp no other row exceeds |
| SqliteBackup.GetArchiveFilePath | src/db_manager/sqlite/backup.rs:69-104 | an error iff no `(backup, file)` pair matches the game, the version (if given) and the path, and then it is `QueryReturnedNoRows`; otherwise the stored archive path of a matching pair, expanded, and with no version that pair has the latest time stamp |
| SqliteBackup.StoredTildePathExpands | src/db_manager/sqlite/backup.rs:103 | an archive path stored shrunk under home is read back as the original absolute path |
| SqliteSync.PerformSync | src/db_manager/sqlite/sync.rs:44-60 | an unreadable games file fails before any change |
| SqliteSync.Sync | src/db_manager/sqlite/sync.rs:23-39 | forced, it reconciles iff the file hash is known; unforced, iff the file hash differs from the stored one; both equal or both absent is a no-op; no file but a stored hash reaches the `expect` panic |
| SqliteSync.PairListed | src/db_manager/sqlite/game_path.rs:68-85 | a path row of a stored game is listed with that game's external id |
| SqliteSync.PruneGamesKeepsPair | src/db_manager/sqlite/sync.rs:51-52 | pruning games keeps every stored pair of a game the config names |
| SqliteSync.PruneGamesIds | src/db_manager/sqlite/game.rs:53-75 | after pruning games, the stored ids are the old ids that the config names |
| SqliteSync.PerformSyncStages | src/db_manager/sqlite/sync.rs:51-53 | after the upsert and the game prune, the stored ids equal the config's ids and every config pair is stored |
| SqliteSync.PrunePathsListsConfig | src/db_manager/sqlite/sync.rs:53 | when every config pair is stored, pruning paths leaves exactly the config's pairs listed |
| SqliteSync.PerformSyncSpec | src/db_manager/sqlite/sync.rs:44-60 | a successful reconciliation keeps the constraints, stores the new hash, and makes the stored ids equal the config's ids and the listed pairs equal the config's pairs |
| SqliteSync.PerformSyncFailureKeepsHash | src/db_manager/sqlite/sync.rs:49-56 | a reconciliation that fails leaves `meta` as it was, so the stored hash is unchanged |
| SqliteSync.PerformSyncAsWrittenSpec | src/db_manager/sqlite/sync.rs:44-60 | with the loop as written, a successful reconciliation keeps the constraints, stores the new hash, makes the stored ids equal the config's ids and lists no pair outside the config |
| SqliteSync.PerformSyncAsWrittenFailureKeepsHash | src/db_manager/sqlite/sync.rs:49-56 | with the loop as written, a reconciliation that fails leaves `meta` as it was |
| SqliteSync.PerformSyncAsWrittenLosesPath | src/db_manager/sqlite/sync.rs:44-60 | with the loop as written, the sync of the stale rowid counterexample succeeds and stores the hash, but the config pair `(c, /y)` is not listed afterwards |
| SqliteSync.SyncFailureKeepsHash | src/db_manager/sqlite/sync.rs:23-39 | a sync that fails leaves the stored hash as it was |
| SqliteSync.ResyncIsNoOp | src/db_manager/sqlite/sync.rs:29-31 | after a successful reconciliation under a hash, an unforced sync of a file with that hash changes nothing |
| SqliteSync.SyncSpec | src/db_manager/sqlite/sync.rs:23-60 | a successful sync that reconciled stores the file's hash and brings ids and pairs in line with the config |
| SqliteConnection.EnsureInitialized | src/db_manager/sqlite/connection.rs:32-39 | the schema is applied iff reading `schema_version` fails; when it is present nothing changes |
| SqliteConnection.Open | src/db_manager/sqlite/connection.rs:25 | opening fails iff the database cannot be opened; a fresh connection has `last_insert_rowid` 0 |
| SqliteConnection.NewErrors | src/db_manager/sqlite/connection.rs:21-47 | whatever the config: an open error is returned as it is; on a database without `schema_version` a failing schema's error is returned; an initialized database with a stored hash and no readable games file gets the sync's `expect` panic |
| SqliteConnection.NewOnCurrentDatabase | src/db_manager/sqlite/connection.rs:21-30 | on an initialized database whose stored hash equals the file's, `new` changes nothing |
| SqliteConnection.NewReconciles | src/db_manager/sqlite/connection.rs:21-30 | on an initialized database with a different hash, a successful `new` leaves the index in line with the config |
| Sqlite.DbManager.constructor | src/db_manager/sqlite/connection.rs:26 | the manager wraps the given connection |
| Sqlite.DbManager.UpdateMetaValue | src/db_manager/sqlite/meta.rs:18-24 | the new connection is the meta write of the old one, and the constraints are kept |
| Sqlite.DbManager.UpsertGame | src/db_manager/sqlite/game.rs:111-158 | the new connection and the result are those of `SqliteGame.UpsertGame`, and the constraints are kept |
| Sqlite.DbManager.UpsertPaths | src/db_manager/sqlite/game_path.rs:103-118 | the insert loop with rollback to a saved snapshot gives `SqliteGamePath.UpsertPaths`, and keeps the constraints |
| Sqlite.DbManager.UpsertGamesFromConfig | src/db_manager/sqlite/game.rs:29-46 | the loop of corrected steps gives `SqliteGame.UpsertGames`, and keeps the constraints |
| Sqlite.DbManager.PruneGames | src/db_manager/sqlite/game.rs:60-72 | the delete loop gives `SqliteGame.PruneGames`, and the constraints are kept |
| Sqlite.DbManager.PruneObsoleteGames | src/db_manager/sqlite/game.rs:49-75 | the new connection and the pruned ids are those of `SqliteGame.PruneObsoleteGames`, and the constraints are kept |
| Sqlite.DbManager.PrunePaths | src/db_manager/sqlite/game_path.rs:40-64 | the delete loop gives `SqliteGamePath.PrunePaths`, and the constraints are kept |
| Sqlite.DbManager.PruneObsoletePaths | src/db_manager/sqlite/game_path.rs:24-65 | the new connection and the pruned pairs are those of `SqliteGamePath.PruneObsoletePaths`, and the constraints are kept |
| Sqlite.DbManager.InsertBackup | src/db_manager/sqlite/backup.rs:32-41 | the new connection and the rowid are those of `SqliteBackup.InsertBackup`, and the constraints are kept |
| Sqlite.DbManager.InsertBackupFile | src/db_manager/sqlite/backup.rs:43-67 | the insert loop with rollback gives `SqliteBackup.InsertBackupFile`, and the constraints are kept |
| Sqlite.DbManager.PerformSync | src/db_manager/sqlite/sync.rs:44-60 | the four calls in order give `SqliteSync.PerformSync`, and the constraints are kept |
| Sqlite.DbManager.Sync | src/db_manager/sqlite/sync.rs:23-39 | the gate, then `PerformSync`, give `SqliteSync.Sync`, and the constraints are kept |
| Sqlite.DbManager.EnsureInitialized | src/db_manager/sqlite/connection.rs:32-47 | the schema is applied iff `schema_version` is unreadable; when applying fails, the connection is unchanged and the error is returned; the constraints are kept unless the schema was applied |
| Sqlite.DbManager.New | src/db_manager/sqlite/connection.rs:21-30 | `new` succeeds iff `SqliteConnection.New` does, with a fresh manager over its connection, and otherwise returns its error; from valid, initialized stored tables the manager is valid |
| GameConfigs.FromRequest | src/models/game_config.rs:29-43 | the entry copies the id, name and comment, takes the paths or the empty list, and has no retention hint |
| TomlStore.AddGameToGamesFile | src/db_manager/toml.rs:7-35 | a missing file is the empty list; a duplicate id is `GameIdAlreadyExists` and nothing is written; otherwise the old list keeps its entries and order, with the new entry appended; unique ids stay unique |
| VaultConfigs.FromRef | src/models/vault_config.rs:26-39 | the borrowed conversion copies the id and comment, makes the name default to the id and the paths default to the empty list, and has no retention hint |
| VaultConfigs.FromOwned | src/models/vault_config.rs:41-51 | the owned conversion has the same defaults |
| VaultConfigs.FromRefIsFromOwned | src/models/vault_config.rs:26-51 | the borrowed and owned conversions give equal entries |
| VaultConfigs.FromRequestAgrees | src/models/vault_config.rs:26-39 | the vault entry agrees with the games-file entry, except that the name defaults to the id |
| VaultConfigs.IdSet | src/db_manager/sqlite/game.rs:54-58 | the config id set holds exactly the ids of the config's games |
| PathUtil.ShrinkPath | src/utils/path.rs:25-36 | a path under a known home becomes `~` joined with the remainder; any other path is unchanged |
| PathUtil.ExpandPath | src/utils/path.rs:42-53 | a relative path whose first component is exactly `~` has it replaced by a known home; any other path is unchanged |
| PathUtil.ShrinkHome | src/utils/path.rs:29-35 | home itself shrinks to `~` |
| PathUtil.ExpandShrink | src/utils/path.rs:25-53 | expanding a shrunk path under home gives back the path |
| PathUtil.ShrinkExpand | src/utils/path.rs:25-53 | shrinking an expanded `~` path gives back the path |
| PathUtil.ExpandLeavesTildeUser | src/utils/path.rs:46-52 | `~user` and other components that only start with `~` are not expanded |
| PathUtil.GetFileName | src/utils/path.rs:105-109 | the final component, unless there is none or it is `..` or `.` |
| PathUtil.GetGlobalConfigPath | src/utils/path.rs:73-87 | an explicit path comes back unchanged; otherwise `<config dir>/kaguya/config.toml`, or `PathNotFound` when there is no config directory |
| PathUtil.GetVaultDir | src/utils/path.rs:90-102 | an explicit path comes back unchanged; otherwise `<local data dir>/kaguya/vault`, or `PathNotFound` |
| PathUtil.FindGameMut | src/utils/path.rs:112-114 | the position of the first game with the id, or `None` iff no game has it |
| PathUtil.FindGameRef | src/utils/path.rs:117-119 | the first game with the id, or `None` iff no game has it |
| CoreUtils.GetConfigPath | src/core/utils.rs:8-22 | an explicit path comes back unchanged; otherwise `<config dir>/kaguya/config.toml`, or `DirectoryNotFound` |
| CoreUtils.GetVaultPath | src/core/utils.rs:25-37 | an explicit path comes back unchanged; otherwise `<local data dir>/kaguya/vault`, or `DirectoryNotFound` |
| CoreUtils.FindGameMut | src/core/utils.rs:40-42 | the position of the first game with the id, or `None` iff there is none |
| StdPath.StripPrefix | src/utils/path.rs:31 | `strip_prefix` succeeds iff the prefix is a component-wise prefix, and the remainder completes it |
| StdPath.FileName | src/utils/path.rs:107 | `file_name` is the final component unless there is none or it is `..` or `.` |
| StdPath.Parent | src/fs_utils/restore.rs:28-29 | `parent` is `None` exactly for a path without components, else the path without its last one |
| StdPath.ParseDisplay | src/db_manager/sqlite/backup.rs:76 | displaying a path and parsing it back gives the same path |
| BTreeMap.InsertToMap | src/fs_utils/hash.rs:86 | `insert` puts the key's value and keeps the other entries |
| BTreeMap.InsertSorted | src/fs_utils/hash.rs:52-53 | the entries stay in key order |
| BTreeMap.SortedUnique | src/fs_utils/hash.rs:52-58 | a map has one sorted entry list, so the iteration order does not depend on insertion order |
| BTreeMap.Canonical | src/fs_utils/hash.rs:58 | iteration visits the map's entries in key order |
| FileTree.CreateDirAllMakesDir | src/fs_utils/restore.rs:37 | a successful `create_dir_all` leaves a directory at the path |
| FileTree.CreateDirAllFails | src/fs_utils/restore.rs:37 | `create_dir_all` fails only when an entry on the way is not a directory |
| FileTree.CreateDirAllOther | src/core/services/vault.rs:53 | `create_dir_all` changes nothing off its own path |
| FileTree.CreateDirAllExisting | src/core/services/vault.rs:53 | an existing directory is left as it is |
| FileTree.CreateDirAllFileBack | src/core/services/vault.rs:53 | every file after `create_dir_all` was there before, with the same content |
| FileTree.CreateDirAllFresh | src/fs_utils/restore.rs:37 | a directory that was missing is created empty |
| FileTree.CreateDirAllKeepsDir | src/fs_utils/restore.rs:37 | every directory that existed still exists |
| Hash.Hex | src/fs_utils/hash.rs:45 | the hex text has two lowercase hexadecimal digits per byte |
| Hash.UnhexHex | src/fs_utils/hash.rs:45 | the hex encoding loses nothing: it can be decoded back |
| Hash.EncodeChar | src/fs_utils/hash.rs:59-60 | `as_bytes` writes each character as 1 to 4 UTF-8 bytes, one exactly for ASCII |
| Hash.Read | src/fs_utils/hash.rs:37 | one read returns the next bytes of the file, at most a buffer full, and 0 only at the end |
| Hash.HashReader | src/fs_utils/hash.rs:32-45 | the 8192-byte chunk loop feeds exactly the file's bytes in order, so the digest is the hex SHA-256 of the content, 64 hex digits |
| Hash.FileHash | src/fs_utils/hash.rs:30-46 | a file's hash is `Ok` iff the path is a regular file, and is then the hex SHA-256 of its content; otherwise an I/O error |
| Hash.CalculateFileHash | src/fs_utils/hash.rs:30-46 | opening and reading the file gives `Hash.FileHash` |
| Hash.CollectHashesRecursive | src/fs_utils/hash.rs:67-93 | the accumulator gains exactly one entry per regular file below the directory, keyed by its root-relative path, with that file's hash, whatever order the entries are read in |
| Hash.VisitEntry | src/fs_utils/hash.rs:75-89 | a file adds its own entry, a directory adds its files, anything else adds nothing |
| Hash.CalculateDirChecksum | src/fs_utils/hash.rs:49-64 | the checksum is SHA-256 over each relative path followed by its file hash, in ascending path order, as 64 hex digits |
| Hash.CalculateEntryChecksum | src/fs_utils/hash.rs:10-27 | a missing path is `PathNotFound`; a file gives its file hash; a directory gives its directory checksum; anything else is `InvalidInput`; every success is 64 hex digits |
| Hash.SameFilesSameDigest | src/fs_utils/hash.rs:52-61 | two directories with the same files at the same relative paths have the same checksum |
| Hash.FilelessEntryIgnored | src/fs_utils/hash.rs:77-89 | adding an empty directory or a non-file entry leaves the directory checksum as it was |
| Restore.DecimalString | src/fs_utils/restore.rs:75 | the process id is written in decimal digits |
| Restore.ParseDecimalString | src/fs_utils/restore.rs:75 | the decimal text determines the process id |
| Restore.GenerateUniqueTempName | src/fs_utils/restore.rs:71-80 | the name is the prefix, `-`, the process id, `-` and the random characters |
| Restore.TempNameInjective | src/fs_utils/restore.rs:71-80 | names from different process ids or different draws of the same length differ |
| Restore.TempNameIsComponent | src/fs_utils/restore.rs:71-80 | with alphanumeric draws the name is one ordinary path component |
| Restore.Decompress | src/fs_utils/restore.rs:51 | unpacking succeeds only from a regular file whose content untars |
| Restore.ReplaceDestination | src/fs_utils/restore.rs:53-65 | a directory or file at `dst` is removed and the unpacked entry renamed onto it; another kind is `InvalidInput` with `dst` untouched; a missing unpacked entry fails after `dst` was removed |
| Restore.RestoreArchive | src/fs_utils/restore.rs:23-68 | no parent is `InvalidInput` with nothing changed; once the temporary directory exists it is removed on every exit; nothing but it and `dst` changes; a failed unpack leaves `dst` untouched; on success `dst` holds the unpacked entry named like `dst` |
| Restore.Cleaned | src/fs_utils/restore.rs:40-42 | removing the temporary directory leaves it absent and the rest as it was |
| VaultService.ArchiveTarget | src/core/services/vault.rs:56-57 | the archive goes directly below the version directory, named after the source's final component plus `.tar.gz` |
| VaultService.SameTargetIffSameLeaf | src/core/services/vault.rs:56-57 | two sources share an archive target iff they have the same final component |
| VaultService.CompressAll | src/core/services/vault.rs:55-62 | the path loop writes at most one archive per path, and succeeds iff it wrote one for every path |
| VaultService.CompressAllAppend | src/core/services/vault.rs:55-62 | the paths are archived in order and the first error stops the rest |
| VaultService.CompressAllTotal | src/core/services/vault.rs:55-62 | when no archive call fails, every path of the game is archived |
| VaultService.BackupGameCreatesFirst | src/core/services/vault.rs:51-53 | the version directory `vault/id/time` is created before any archive; failing to create it changes nothing |
| VaultService.BackupAllWritten | src/core/services/vault.rs:37-41 | backing up all games writes at most one archive per path, and exactly one per path on success |
| VaultService.BackupSingleGame | src/core/services/vault.rs:46-64 | the loop gives `VaultService.BackupGame` |
| VaultService.Backup | src/core/services/vault.rs:18-43 | an unreadable games file fails unchanged; id with paths is the `todo!` panic; an unknown id is `GameNotFound` with nothing created; a known id backs up that game; no id backs up every game in config order, stopping at the first error |

## Left out

- SQLite itself is written as table updates. Statement failures other than the injected inserts are left out: a failed prepare, a failed `DELETE`, a failed `BEGIN`, `COMMIT` or `SELECT`. So are a partial application of the schema script and an `i64` rowid overflow.
- The schema script migrations/V1__initial_schema.sql is not part of this model. `schema` is a parameter, and the model assumes no `ON DELETE CASCADE` from `game` to `game_path`. The join already hides paths whose game is gone.
- The `LIMIT 1` and `query_row` choices are not fully pinned down. Between rows with equal time stamps, or several rows matching a version, the model picks the first in backup and file rowid order. SQLite leaves that order unspecified.
- A backup's time stamp is an integer, ordered numerically. The source's `Backup` type is not part of this model. Its stored form is presumably text, as its siblings store `DateTime<Utc>`. The model assumes the integer order matches the stored text order that `ORDER BY b.timestamp DESC` uses.
- `ORDER BY name` ties are listed in a fixed order of the model's choosing, for the same reason.
- SqliteGamePath.UpsertPaths: a path is a list of components, and the text stored for it is its normal form (`StdPath.Display`), not the raw `to_string_lossy` spelling of game_path.rs:113. Config paths `/a/` and `/a` are one path in the model, so they give one `game_path` row where the source gives two.
- SqliteGamePath.PruneObsoletePathsSpec: the config's pair set is built from the same normal form, so a config cannot say `/a/`. A stored row spelled `/a/`, which the source keeps for a config that says `/a/`, is outside the model's pair set and is pruned.
- SqliteBackup.GetArchiveFilePath: the query compares the normal form of the path with the stored text, not the raw `to_string_lossy` of backup.rs:76. A row stored as `/a/b/` that the source finds for the path `/a/b/` gives `QueryReturnedNoRows` in the model.
- The join of `get_all_db_paths` (src/db_manager/sqlite/game_path.rs:68-85) has no `ORDER BY`. The model lists it in path-row order, so the order of the pairs `prune_obsolete_paths` returns is the model's choice. Which rows are deleted does not depend on it.
- SqliteSync.PerformSync: reconciles with the corrected upsert loop (see Findings), not the loop as written. SqliteSync.PerformSyncAsWritten is the reconciliation as written; what it keeps and what it loses are proved separately.
- Sqlite.DbManager.UpsertGamesFromConfig: runs the corrected step (rowid looked up after each upsert), not game.rs:37-41 as written. So do Sqlite.DbManager.PerformSync, Sqlite.DbManager.Sync and Sqlite.DbManager.New, which call it.
- The upsert loop has no outer transaction, so games and paths stored before a failing step stay stored. The model keeps them.
- TOML parsing and writing (`read_game_config_file`, `read_games_file`, `toml::to_string_pretty`, `std::fs::write`) are I/O. The parsed file or its error comes in as a parameter.
- SHA-256 is the uninterpreted `sha`, and `hex::encode` is written out. The file content is a byte sequence. `Hash.Read` copies a slice of it, of nondeterministic length, into the 8192-byte buffer. `BufReader`'s own buffering and read errors are left out.
- gzip and tar are parameters: `untar` for restore and `compress` for backup. `src/fs_utils/archive.rs` is not part of this model.
- Game ids and time strings become components of the version directory `<vault>/<id>/<time>`. The model assumes they are plain path components. An id containing `/` gives extra components. An id of `..` is a literal directory name in the model's tree, where the operating system would resolve it to the parent.
- The clock (`get_time_string`), the process id and the random characters are parameters.
- File system calls (`create_dir_all`, `remove_dir_all`, `remove_file`, `rename`, `read_dir`) act on an abstract tree. Symbolic links, permissions and concurrent changes are left out. `read_dir` order is arbitrary, and the directory checksum is proved not to depend on it.
- Console output. The command line parsing, the handlers and the application context are not part of the core, and neither is the `dry_run` flag that no core code reads.
- Hash.CollectHashesRecursive: the directory walk of `collect_hashes_recursive` (src/fs_utils/hash.rs:67-93) never fails in the model. A failing `read_dir`, a failing directory entry (`entry?`) and a failing file read inside the walk are left out, as is the `strip_prefix` error, which cannot happen for entries below the root.
- Hash.CollectHashesRecursive: entry names are strings in the model, so `to_string_lossy` on names that are not valid UTF-8, and the key collisions it can cause, are left out.
- Restore.RestoreArchive: `remove_dir_all` of the temporary directory always succeeds in the model. The source ignores its result with `.ok()`.
- Restore.RestoreArchive: the content of `dst` after a success is stated only when the temporary directory did not exist before. The untouched-`dst` cases are stated only when the temporary name differs from `dst`'s own name.
- Restore.ReplaceDestination: `remove_dir_all`, `remove_file` and `rename` on `dst` fail only when the unpacked entry is missing. Permission and device errors are left out.

## Findings

| source | as written | input that shows it | evidently intended | confidence | as-written member | corrected member |
|---|---|---|---|---|---|---|
| src/db_manager/sqlite/game.rs:37-43 | `upsert_games_from_config` stores the paths under the id that `upsert_game` returns. That id is `last_insert_rowid`, which still holds the rowid of the last `game_path` insert when the game was already stored. | The index starts with games `a` (rowid 1) and `c` (rowid 2) and no paths. The config has new game `b` with path `/x`, then the unchanged `c` with path `/y`. `/y` gets stored under `a`, not `c`. | Each game's paths are stored under that game's own row. | not executed | SqliteGame.StaleRowidCounterexample | SqliteGame.UpsertGamesStores |
