/**
 * `sync` and `perform_sync` of src/db_manager/sqlite/sync.rs. The hash of
 * the games config file (`None` when it cannot be read) is the parameter
 * `fileHash`; the parsed config that `perform_sync` reads is `loaded`.
 * Reconciliation uses the corrected upsert loop of SqliteGame;
 * PerformSyncAsWritten is the same reconciliation over the loop as written.
 */
module SqliteSync {
  import opened Wrappers
  import opened IndexTables
  import opened SqliteMeta
  import opened SqliteGamePath
  import opened SqliteGame
  import VaultConfigs
  import StdPath

  /** The meta key the sync stores the config hash under. */
  const HashKey := "game_config_file_hash"

  const MissingHash := "file_hash should be exist."

  /** The gate of `sync`. */
  predicate SyncNeeded(force: bool, fileHash: Option<string>, dbHash: Option<string>) {
    (force && fileHash.Some?) || (!force && fileHash != dbHash)
  }

  /** `perform_sync`: upsert the games, prune games, prune paths, then store the hash; the first error stops it. */
  function PerformSync(c: Connection, loaded: Result<VaultConfigs.VaultConfig>, newHash: string, now: int,
                       rejects: (int, string) -> bool): (out: (Connection, Result<()>))
    ensures loaded.Err? ==> out == (c, Err(loaded.error))
  {
    match loaded
    case Err(e) => (c, Err(e))
    case Ok(config) =>
      var up := UpsertGames(c, config.games, now, rejects);
      if up.1.Err? then up
      else
        var games := PruneObsoleteGames(up.0, config).0;
        var paths := PruneObsoletePaths(games, config).0;
        (UpdateMetaValue(paths, HashKey, newHash), Ok(()))
  }

  /** The stages of `perform_sync` on a loaded config, spelled out. */
  lemma PerformSyncUnfold(c: Connection, config: VaultConfigs.VaultConfig, newHash: string, now: int,
                          rejects: (int, string) -> bool)
    ensures var up := UpsertGames(c, config.games, now, rejects);
      PerformSync(c, Ok(config), newHash, now, rejects) ==
        if up.1.Err? then up
        else (UpdateMetaValue(PruneObsoletePaths(PruneObsoleteGames(up.0, config).0, config).0, HashKey, newHash), Ok(()))
  {
  }

  /**
   * `sync`. Forced, it reconciles iff the file hash is known; unforced, iff
   * the file hash differs from the stored one, where a missing file with a
   * stored hash reaches the `expect` on the missing hash and panics.
   */
  function Sync(c: Connection, fileHash: Option<string>, loaded: Result<VaultConfigs.VaultConfig>, force: bool,
                now: int, rejects: (int, string) -> bool): (out: (Connection, Result<()>))
    ensures var dbHash := ToOption(GetMetaValue(c, HashKey));
      (force && fileHash.Some? ==> out == PerformSync(c, loaded, fileHash.value, now, rejects)) &&
      (force && fileHash.None? ==> out == (c, Ok(()))) &&
      (!force && fileHash == dbHash ==> out == (c, Ok(()))) &&
      (!force && fileHash != dbHash && fileHash.Some? ==> out == PerformSync(c, loaded, fileHash.value, now, rejects)) &&
      (!force && fileHash.None? && dbHash.Some? ==> out == (c, Err(Panic(MissingHash))))
  {
    var dbHash := ToOption(GetMetaValue(c, HashKey));
    if SyncNeeded(force, fileHash, dbHash) then
      if fileHash.None? then (c, Err(Panic(MissingHash)))
      else PerformSync(c, loaded, fileHash.value, now, rejects)
    else (c, Ok(()))
  }

  /** The `(external id, path)` pairs the join lists. */
  function ListedPairs(c: Connection): set<(string, string)> {
    set info | info in GetAllDbPaths(c) :: Pair(info)
  }

  /** A path row owned by a stored game shows up in the join with that game's external id. */
  lemma PairListed(c: Connection, externalId: string, path: string)
    requires Pairwise(c.games, GameDistinct) && PairStored(c, externalId, path)
    ensures (externalId, path) in ListedPairs(c)
  {
    var g, r :| g in c.games && r in c.gamePaths && g.externalId == externalId && r.gameId == g.id && r.originalPath == path;
    FindGameByIdUnique(c.games, g);
    assert Info(r, g) in GetAllDbPaths(c);
    assert Pair(Info(r, g)) == (externalId, path);
  }

  /** Pruning games keeps every pair of a game that is in the config. */
  lemma PruneGamesKeepsPair(c: Connection, config: VaultConfigs.VaultConfig, externalId: string, path: string)
    requires Valid(c) && PairStored(c, externalId, path) && externalId in VaultConfigs.IdSet(config)
    ensures PairStored(PruneObsoleteGames(c, config).0, externalId, path)
  {
    var c' := PruneObsoleteGames(c, config).0;
    PruneObsoleteGamesSpec(c, config);
    var g, r :| g in c.games && r in c.gamePaths && g.externalId == externalId && r.gameId == g.id && r.originalPath == path;
    assert g in c'.games && r in c'.gamePaths;
  }

  /** After pruning games, the stored external ids are those already stored that the config lists. */
  lemma PruneGamesIds(c: Connection, config: VaultConfigs.VaultConfig)
    requires Valid(c)
    ensures ExternalIds(PruneObsoleteGames(c, config).0) == ExternalIds(c) * VaultConfigs.IdSet(config)
  {
    PruneObsoleteGamesSpec(c, config);
    var c' := PruneObsoleteGames(c, config).0;
    forall x | x in ExternalIds(c) * VaultConfigs.IdSet(config) ensures x in ExternalIds(c') {
      var r :| r in c.games && r.externalId == x;
      assert r in c'.games;
    }
  }

  lemma ConfigIdsIsIdSet(config: VaultConfigs.VaultConfig)
    ensures ConfigIds(config.games) == VaultConfigs.IdSet(config)
  {
  }

  /** The intermediate states of a successful reconciliation. */
  lemma PerformSyncStages(c: Connection, config: VaultConfigs.VaultConfig, now: int, rejects: (int, string) -> bool)
    requires Valid(c) && UpsertGames(c, config.games, now, rejects).1.Ok?
    ensures var up := UpsertGames(c, config.games, now, rejects).0;
      var games := PruneObsoleteGames(up, config).0;
      Valid(up) && Valid(games) && Valid(PruneObsoletePaths(games, config).0) &&
      ExternalIds(games) == VaultConfigs.IdSet(config) &&
      forall pair :: pair in ConfigPairs(config) ==> PairStored(games, pair.0, pair.1)
  {
    var up := UpsertGames(c, config.games, now, rejects).0;
    UpsertGamesStores(c, config.games, now, rejects);
    UpsertGamesIds(c, config.games, now, rejects);
    ConfigIdsIsIdSet(config);
    PruneGamesValid(up, VaultConfigs.IdSet(config), GetDbGameList(up));
    PruneGamesIds(up, config);
    var games := PruneObsoleteGames(up, config).0;
    PruneObsoletePathsValid(games, config);
    forall pair | pair in ConfigPairs(config) ensures PairStored(games, pair.0, pair.1) {
      assert pair in ConfigPairsOf(config.games);
      var k, p :| 0 <= k < |config.games| && p in config.games[k].paths && pair == (config.games[k].id, PathText(p));
      PruneGamesKeepsPair(up, config, pair.0, pair.1);
    }
  }

  /** Pruning paths leaves exactly the config's pairs listed when every one of them was stored. */
  lemma PrunePathsListsConfig(c: Connection, config: VaultConfigs.VaultConfig)
    requires Valid(c) && forall pair :: pair in ConfigPairs(config) ==> PairStored(c, pair.0, pair.1)
    ensures ListedPairs(PruneObsoletePaths(c, config).0) == ConfigPairs(config)
  {
    var c' := PruneObsoletePaths(c, config).0;
    PruneObsoletePathsSpec(c, config);
    forall pair | pair in ConfigPairs(config) ensures pair in ListedPairs(c') {
      PairListed(c, pair.0, pair.1);
      var info :| info in GetAllDbPaths(c) && Pair(info) == pair;
    }
  }

  /**
   * A successful reconciliation leaves the index valid, the stored external
   * ids equal to the config's ids, the listed `(external id, path)` pairs
   * equal to the config's pairs, and the new hash under the hash key.
   */
  lemma PerformSyncSpec(c: Connection, loaded: Result<VaultConfigs.VaultConfig>, newHash: string, now: int,
                        rejects: (int, string) -> bool)
    requires Valid(c)
    ensures var out := PerformSync(c, loaded, newHash, now, rejects);
      out.1.Ok? ==>
        loaded.Ok? && Valid(out.0) && GetMetaValue(out.0, HashKey) == Ok(newHash) &&
        ExternalIds(out.0) == VaultConfigs.IdSet(loaded.value) &&
        ListedPairs(out.0) == ConfigPairs(loaded.value)
  {
    var out := PerformSync(c, loaded, newHash, now, rejects);
    if out.1.Ok? {
      var config := loaded.value;
      PerformSyncStages(c, config, now, rejects);
      var up := UpsertGames(c, config.games, now, rejects).0;
      var games := PruneObsoleteGames(up, config).0;
      var paths := PruneObsoletePaths(games, config).0;
      PrunePathsListsConfig(games, config);
      GetAfterUpdate(paths, HashKey, newHash);
      UpdateKeepsValid(paths, HashKey, newHash);
      assert out.0 == UpdateMetaValue(paths, HashKey, newHash);
      assert GetAllDbPaths(out.0) == GetAllDbPaths(paths);
    }
  }

  /** A reconciliation that fails leaves the stored hash as it was. */
  lemma PerformSyncFailureKeepsHash(c: Connection, loaded: Result<VaultConfigs.VaultConfig>, newHash: string,
                                    now: int, rejects: (int, string) -> bool)
    ensures var out := PerformSync(c, loaded, newHash, now, rejects);
      out.1.Err? ==> out.0.meta == c.meta
  {
  }

  /** A sync that fails, or does nothing, leaves the stored hash as it was. */
  lemma SyncFailureKeepsHash(c: Connection, fileHash: Option<string>, loaded: Result<VaultConfigs.VaultConfig>,
                             force: bool, now: int, rejects: (int, string) -> bool)
    ensures var out := Sync(c, fileHash, loaded, force, now, rejects);
      out.1.Err? ==> GetMetaValue(out.0, HashKey) == GetMetaValue(c, HashKey)
  {
    var dbHash := ToOption(GetMetaValue(c, HashKey));
    if SyncNeeded(force, fileHash, dbHash) && fileHash.Some? {
      PerformSyncFailureKeepsHash(c, loaded, fileHash.value, now, rejects);
    }
  }

  /**
   * `perform_sync` over the upsert loop as the code is written; it differs
   * from PerformSync only in the loop.
   */
  function PerformSyncAsWritten(c: Connection, loaded: Result<VaultConfigs.VaultConfig>, newHash: string, now: int,
                                rejects: (int, string) -> bool): (out: (Connection, Result<()>))
    ensures loaded.Err? ==> out == (c, Err(loaded.error))
  {
    match loaded
    case Err(e) => (c, Err(e))
    case Ok(config) =>
      var up := UpsertGamesAsWritten(c, config.games, now, rejects);
      if up.1.Err? then up
      else
        var games := PruneObsoleteGames(up.0, config).0;
        var paths := PruneObsoletePaths(games, config).0;
        (UpdateMetaValue(paths, HashKey, newHash), Ok(()))
  }

  /**
   * As written, a successful reconciliation still leaves the index valid,
   * the stored external ids equal to the config's ids, the new hash stored,
   * and no listed pair outside the config; what it loses is that every
   * config pair is listed.
   */
  lemma PerformSyncAsWrittenSpec(c: Connection, loaded: Result<VaultConfigs.VaultConfig>, newHash: string, now: int,
                                 rejects: (int, string) -> bool)
    requires Valid(c)
    ensures var out := PerformSyncAsWritten(c, loaded, newHash, now, rejects);
      out.1.Ok? ==>
        loaded.Ok? && Valid(out.0) && GetMetaValue(out.0, HashKey) == Ok(newHash) &&
        ExternalIds(out.0) == VaultConfigs.IdSet(loaded.value) &&
        ListedPairs(out.0) <= ConfigPairs(loaded.value)
  {
    var out := PerformSyncAsWritten(c, loaded, newHash, now, rejects);
    if out.1.Ok? {
      var config := loaded.value;
      UpsertGamesAsWrittenIds(c, config.games, now, rejects);
      ConfigIdsIsIdSet(config);
      var up := UpsertGamesAsWritten(c, config.games, now, rejects).0;
      PruneGamesValid(up, VaultConfigs.IdSet(config), GetDbGameList(up));
      PruneGamesIds(up, config);
      var games := PruneObsoleteGames(up, config).0;
      PruneObsoletePathsValid(games, config);
      PruneObsoletePathsSpec(games, config);
      var paths := PruneObsoletePaths(games, config).0;
      GetAfterUpdate(paths, HashKey, newHash);
      UpdateKeepsValid(paths, HashKey, newHash);
      assert out.0 == UpdateMetaValue(paths, HashKey, newHash);
      assert GetAllDbPaths(out.0) == GetAllDbPaths(paths);
    }
  }

  /** As written too, a reconciliation that fails leaves the stored hash as it was. */
  lemma PerformSyncAsWrittenFailureKeepsHash(c: Connection, loaded: Result<VaultConfigs.VaultConfig>, newHash: string,
                                             now: int, rejects: (int, string) -> bool)
    ensures var out := PerformSyncAsWritten(c, loaded, newHash, now, rejects);
      out.1.Err? ==> out.0.meta == c.meta
  {
  }

  /** The config of the stale rowid counterexample: the new game `b`, then the unchanged `c`. */
  const StaleConfig := VaultConfigs.VaultConfig([NewGameB, SameGameC])

  /**
   * As written, the sync of the counterexample succeeds and stores the
   * hash, yet the config pair `(c, /y)` is not listed afterwards: its row
   * went to game `a`, which the sync then prunes, so the path is lost.
   */
  lemma PerformSyncAsWrittenLosesPath(hash: string)
    ensures var out := PerformSyncAsWritten(StaleStart, Ok(StaleConfig), hash, 0, NeverRejects);
      out.1 == Ok(()) && GetMetaValue(out.0, HashKey) == Ok(hash) &&
      ("c", "/y") in ConfigPairs(StaleConfig) && ("c", "/y") !in ListedPairs(out.0)
  {
    StaleLoop();
    StaleEndPairs();
    var ids := VaultConfigs.IdSet(StaleConfig);
    var games := PruneGames(StaleEnd, ids, GetDbGameList(StaleEnd)).0;
    var paths := PrunePaths(games, ConfigPairs(StaleConfig), GetAllDbPaths(games)).0;
    var out := UpdateMetaValue(paths, HashKey, hash);
    assert PerformSyncAsWritten(StaleStart, Ok(StaleConfig), hash, 0, NeverRejects) == (out, Ok(()));
    GetAfterUpdate(paths, HashKey, hash);
    ConfigPairY();
    ListedPairsStored(StaleEnd, out);
  }

  lemma ConfigPairY()
    ensures ("c", "/y") in ConfigPairs(StaleConfig)
  {
    assert StaleConfig.games[1] == SameGameC && SameGameC.paths[0] in SameGameC.paths;
    assert PathText(StdPath.Path(true, ["y"])) == "/y";
  }

  /** A state with no more rows than `c` lists only pairs that `c` stores. */
  lemma ListedPairsStored(c: Connection, c': Connection)
    requires forall r :: r in c'.games ==> r in c.games
    requires forall r :: r in c'.gamePaths ==> r in c.gamePaths
    ensures forall pair :: pair in ListedPairs(c') ==> PairStored(c, pair.0, pair.1)
  {
    forall pair | pair in ListedPairs(c') ensures PairStored(c, pair.0, pair.1) {
      var info :| info in GetAllDbPaths(c') && Pair(info) == pair;
      var row :| row in c'.gamePaths && FindGameById(c'.games, row.gameId).Some? &&
                 info == Info(row, FindGameById(c'.games, row.gameId).value);
      var g := FindGameById(c'.games, row.gameId).value;
      assert g in c.games && row in c.gamePaths;
    }
  }

  /** After a successful reconciliation with a hash, an unforced sync of a file with that hash does nothing. */
  lemma ResyncIsNoOp(c: Connection, loaded: Result<VaultConfigs.VaultConfig>, hash: string, now: int,
                     rejects: (int, string) -> bool, loaded': Result<VaultConfigs.VaultConfig>, now': int)
    requires Valid(c) && PerformSync(c, loaded, hash, now, rejects).1.Ok?
    ensures var c' := PerformSync(c, loaded, hash, now, rejects).0;
      Sync(c', Some(hash), loaded', false, now', rejects) == (c', Ok(()))
  {
    PerformSyncSpec(c, loaded, hash, now, rejects);
  }

  /** A successful sync that reconciled brings the index in line with the config and stores the file's hash. */
  lemma SyncSpec(c: Connection, fileHash: Option<string>, loaded: Result<VaultConfigs.VaultConfig>, force: bool,
                 now: int, rejects: (int, string) -> bool)
    requires Valid(c)
    ensures var out := Sync(c, fileHash, loaded, force, now, rejects);
      SyncNeeded(force, fileHash, ToOption(GetMetaValue(c, HashKey))) && out.1.Ok? ==>
        fileHash.Some? && loaded.Ok? && Valid(out.0) && GetMetaValue(out.0, HashKey) == Ok(fileHash.value) &&
        ExternalIds(out.0) == VaultConfigs.IdSet(loaded.value) &&
        ListedPairs(out.0) == ConfigPairs(loaded.value)
  {
    if fileHash.Some? {
      PerformSyncSpec(c, loaded, fileHash.value, now, rejects);
    }
  }
}
