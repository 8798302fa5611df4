/**
 * `DbManager::new` and `ensure_initialized` of
 * src/db_manager/sqlite/connection.rs. Opening the database file is the
 * parameter `stored` (the tables found, or the error of opening them); the
 * schema script, which is not part of this model, is the parameter `schema`.
 */
module SqliteConnection {
  import opened Wrappers
  import opened IndexTables
  import opened SqliteMeta
  import opened SqliteSync
  import VaultConfigs

  /** The meta key whose presence marks an initialized database. */
  const SchemaVersionKey := "schema_version"

  /** `ensure_initialized`: run the schema iff reading the schema version fails. */
  function EnsureInitialized(c: Connection, schema: Connection -> Result<Connection>): (r: Result<Connection>)
    ensures GetMetaValue(c, SchemaVersionKey).Ok? ==> r == Ok(c)
    ensures GetMetaValue(c, SchemaVersionKey).Err? ==> r == schema(c)
  {
    if GetMetaValue(c, SchemaVersionKey).Err? then schema(c) else Ok(c)
  }

  /** A fresh connection to the stored tables: no insert has happened on it yet. */
  function Open(stored: Result<Connection>): (r: Result<Connection>)
    ensures r.Ok? <==> stored.Ok?
    ensures r.Ok? ==> r.value == stored.value.(lastInsertRowid := 0)
    ensures r.Err? ==> r.error == stored.error
  {
    match stored
    case Err(e) => Err(e)
    case Ok(db) => Ok(db.(lastInsertRowid := 0))
  }

  /** `DbManager::new`: open, make sure the schema exists, then sync without forcing. */
  function New(stored: Result<Connection>, schema: Connection -> Result<Connection>, fileHash: Option<string>,
               loaded: Result<VaultConfigs.VaultConfig>, now: int, rejects: (int, string) -> bool): (r: Result<Connection>)
  {
    match Open(stored)
    case Err(e) => Err(e)
    case Ok(c) =>
      match EnsureInitialized(c, schema)
      case Err(e) => Err(e)
      case Ok(ready) =>
        var synced := Sync(ready, fileHash, loaded, false, now, rejects);
        if synced.1.Err? then Err(synced.1.error) else Ok(synced.0)
  }

  /**
   * `new` stops at the first failure, whatever the config: an open error is
   * returned as it is, so is a failing schema on a database that has no
   * schema version, and an initialized database with a stored hash but no
   * readable config file reaches the panic of the unforced sync.
   */
  lemma NewErrors(stored: Result<Connection>, schema: Connection -> Result<Connection>, fileHash: Option<string>,
                  loaded: Result<VaultConfigs.VaultConfig>, now: int, rejects: (int, string) -> bool)
    ensures stored.Err? ==> New(stored, schema, fileHash, loaded, now, rejects) == Err(stored.error)
    ensures stored.Ok? && GetMetaValue(stored.value, SchemaVersionKey).Err? &&
            schema(stored.value.(lastInsertRowid := 0)).Err? ==>
              New(stored, schema, fileHash, loaded, now, rejects) == Err(schema(stored.value.(lastInsertRowid := 0)).error)
    ensures stored.Ok? && GetMetaValue(stored.value, SchemaVersionKey).Ok? &&
            GetMetaValue(stored.value, HashKey).Ok? && fileHash.None? ==>
              New(stored, schema, fileHash, loaded, now, rejects) == Err(Panic(MissingHash))
  {
    if stored.Ok? {
      var c := stored.value.(lastInsertRowid := 0);
      assert GetMetaValue(c, SchemaVersionKey) == GetMetaValue(stored.value, SchemaVersionKey);
      assert GetMetaValue(c, HashKey) == GetMetaValue(stored.value, HashKey);
    }
  }

  /**
   * When the database is already initialized and its stored hash equals the
   * file's, `new` changes nothing but the connection's `last_insert_rowid`,
   * which a fresh connection starts at 0.
   */
  lemma NewOnCurrentDatabase(stored: Connection, schema: Connection -> Result<Connection>, hash: Option<string>,
                             loaded: Result<VaultConfigs.VaultConfig>, now: int, rejects: (int, string) -> bool)
    requires GetMetaValue(stored, SchemaVersionKey).Ok?
    requires hash == ToOption(GetMetaValue(stored, HashKey))
    ensures New(Ok(stored), schema, hash, loaded, now, rejects) == Ok(stored.(lastInsertRowid := 0))
  {
    var c := stored.(lastInsertRowid := 0);
    assert GetMetaValue(c, SchemaVersionKey) == GetMetaValue(stored, SchemaVersionKey);
    assert GetMetaValue(c, HashKey) == GetMetaValue(stored, HashKey);
  }

  /**
   * On a valid, initialized database whose stored hash differs from the
   * file's, a successful `new` leaves the index in line with the config.
   */
  lemma NewReconciles(stored: Connection, schema: Connection -> Result<Connection>, fileHash: Option<string>,
                      loaded: Result<VaultConfigs.VaultConfig>, now: int, rejects: (int, string) -> bool)
    requires Valid(stored) && GetMetaValue(stored, SchemaVersionKey).Ok?
    requires fileHash != ToOption(GetMetaValue(stored, HashKey))
    ensures var r := New(Ok(stored), schema, fileHash, loaded, now, rejects);
      r.Ok? ==> fileHash.Some? && loaded.Ok? && Valid(r.value) &&
                GetMetaValue(r.value, HashKey) == Ok(fileHash.value) &&
                SqliteGame.ExternalIds(r.value) == VaultConfigs.IdSet(loaded.value) &&
                ListedPairs(r.value) == SqliteGamePath.ConfigPairs(loaded.value)
  {
    var c := stored.(lastInsertRowid := 0);
    assert GetMetaValue(c, SchemaVersionKey) == GetMetaValue(stored, SchemaVersionKey);
    assert GetMetaValue(c, HashKey) == GetMetaValue(stored, HashKey);
    SyncSpec(c, fileHash, loaded, false, now, rejects);
  }
}
