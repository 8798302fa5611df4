/**
 * The `game_path` table of src/db_manager/sqlite/game_path.rs. A path is
 * stored as the text of its normal form, `Display`, where the source stores
 * the raw `to_string_lossy` spelling. The parameter `rejects`
 * says which new `(game_id, original_path)` rows the database refuses to
 * insert (a failing statement inside the transaction).
 */
module SqliteGamePath {
  import opened Wrappers
  import opened StdPath
  import opened IndexTables
  import VaultConfigs

  /** A path row joined with the external id of its game (`DbPathInfo`). */
  datatype DbPathInfo = DbPathInfo(id: int, externalId: string, originalPath: string)

  /** The text stored for a path: its normal form, `Display` (where the source stores `to_string_lossy()`). */
  function PathText(p: Path): string {
    Display(p)
  }

  /** The texts of a list of paths. */
  function PathTexts(paths: seq<Path>): set<string> {
    set p | p in paths :: PathText(p)
  }

  /** Some row pairs this game with this path. */
  predicate HasPair(rows: seq<PathRow>, gameId: int, path: string) {
    exists r :: r in rows && r.gameId == gameId && r.originalPath == path
  }

  /** One `INSERT ... ON CONFLICT(game_id, original_path) DO NOTHING` inside the transaction. */
  function InsertPath(c: Connection, gameId: int, path: string, rejects: (int, string) -> bool): (r: Result<Connection>)
    ensures r.Ok? ==> HasPair(r.value.gamePaths, gameId, path)
    ensures r.Err? <==> !HasPair(c.gamePaths, gameId, path) && rejects(gameId, path)
    ensures r.Ok? ==> r.value == c.(gamePaths := r.value.gamePaths, lastInsertRowid := r.value.lastInsertRowid)
    ensures r.Ok? ==> c.gamePaths <= r.value.gamePaths
    ensures r.Ok? ==> forall i :: |c.gamePaths| <= i < |r.value.gamePaths| ==>
      r.value.gamePaths[i].gameId == gameId && r.value.gamePaths[i].originalPath == path
  {
    if HasPair(c.gamePaths, gameId, path) then Ok(c)
    else if rejects(gameId, path) then Err(Database("insert into game_path failed"))
    else
      var id := NextRowid(PathIds(c.gamePaths));
      var rows := c.gamePaths + [PathRow(id, gameId, path)];
      assert PathRow(id, gameId, path) in rows;
      Ok(c.(gamePaths := rows, lastInsertRowid := id))
  }

  /**
   * The statements of the transaction, executed in order; stops at the first
   * failure, giving the working state reached so far.
   */
  function InsertPaths(c: Connection, gameId: int, paths: seq<Path>, rejects: (int, string) -> bool): (out: (Connection, Result<()>))
    ensures out.0 == c.(gamePaths := out.0.gamePaths, lastInsertRowid := out.0.lastInsertRowid)
    ensures c.gamePaths <= out.0.gamePaths
    decreases |paths|
  {
    if |paths| == 0 then (c, Ok(()))
    else match InsertPath(c, gameId, PathText(paths[0]), rejects)
      case Err(e) => (c, Err(e))
      case Ok(c1) => InsertPaths(c1, gameId, paths[1..], rejects)
  }

  /** Every row the transaction adds pairs the game with one of the paths. */
  lemma {:induction false} InsertPathsNew(c: Connection, gameId: int, paths: seq<Path>, rejects: (int, string) -> bool)
    ensures forall i :: |c.gamePaths| <= i < |InsertPaths(c, gameId, paths, rejects).0.gamePaths| ==>
      InsertPaths(c, gameId, paths, rejects).0.gamePaths[i].gameId == gameId &&
      InsertPaths(c, gameId, paths, rejects).0.gamePaths[i].originalPath in PathTexts(paths)
    decreases |paths|
  {
    if |paths| > 0 {
      match InsertPath(c, gameId, PathText(paths[0]), rejects)
      case Err(_) =>
      case Ok(c1) =>
        InsertPathsNew(c1, gameId, paths[1..], rejects);
        var out := InsertPaths(c1, gameId, paths[1..], rejects);
        assert paths[0] in paths;
        assert PathText(paths[0]) in PathTexts(paths);
        assert PathTexts(paths[1..]) <= PathTexts(paths) by {
          assert forall p :: p in paths[1..] ==> p in paths;
        }
        assert out == InsertPaths(c, gameId, paths, rejects);
        forall i | |c.gamePaths| <= i < |out.0.gamePaths|
          ensures out.0.gamePaths[i].gameId == gameId && out.0.gamePaths[i].originalPath in PathTexts(paths)
        {
          if i < |c1.gamePaths| {
            assert out.0.gamePaths[i] == c1.gamePaths[i];
          }
        }
    }
  }

  /** A transaction that gets through has every pair present. */
  lemma {:induction false} InsertPathsCovers(c: Connection, gameId: int, paths: seq<Path>, rejects: (int, string) -> bool)
    ensures var out := InsertPaths(c, gameId, paths, rejects);
      out.1.Ok? ==> forall k :: 0 <= k < |paths| ==> HasPair(out.0.gamePaths, gameId, PathText(paths[k]))
    decreases |paths|
  {
    if |paths| > 0 {
      match InsertPath(c, gameId, PathText(paths[0]), rejects)
      case Err(_) =>
      case Ok(c1) =>
        InsertPathsCovers(c1, gameId, paths[1..], rejects);
        var out := InsertPaths(c1, gameId, paths[1..], rejects);
        assert forall k :: 1 <= k < |paths| ==> paths[k] == paths[1..][k - 1];
        var r :| r in c1.gamePaths && r.gameId == gameId && r.originalPath == PathText(paths[0]);
        assert r in out.0.gamePaths;
    }
  }

  /**
   * `upsert_paths`: the whole batch in one transaction. On failure the table
   * is rolled back; `last_insert_rowid`, which SQLite does not restore on
   * rollback, keeps the value the last successful insert gave it.
   */
  function UpsertPaths(c: Connection, gameId: int, paths: seq<Path>, rejects: (int, string) -> bool): (out: (Connection, Result<()>))
    ensures out.0 == c.(gamePaths := out.0.gamePaths, lastInsertRowid := out.0.lastInsertRowid)
    ensures out.1.Err? ==> out.0 == c.(lastInsertRowid := out.0.lastInsertRowid)
  {
    var w := InsertPaths(c, gameId, paths, rejects);
    if w.1.Err? then (c.(lastInsertRowid := w.0.lastInsertRowid), w.1) else w
  }

  /** On success every pair is present, nothing was deleted or changed, and every new row is one of the pairs. */
  lemma UpsertPathsAdds(c: Connection, gameId: int, paths: seq<Path>, rejects: (int, string) -> bool)
    ensures var out := UpsertPaths(c, gameId, paths, rejects);
      out.1.Ok? ==>
        (forall k :: 0 <= k < |paths| ==> HasPair(out.0.gamePaths, gameId, PathText(paths[k]))) &&
        c.gamePaths <= out.0.gamePaths &&
        (forall i :: |c.gamePaths| <= i < |out.0.gamePaths| ==>
           out.0.gamePaths[i].gameId == gameId && out.0.gamePaths[i].originalPath in PathTexts(paths))
  {
    InsertPathsNew(c, gameId, paths, rejects);
    InsertPathsCovers(c, gameId, paths, rejects);
  }

  lemma InsertPathValid(c: Connection, gameId: int, path: string, rejects: (int, string) -> bool)
    requires Valid(c)
    ensures InsertPath(c, gameId, path, rejects).Ok? ==> Valid(InsertPath(c, gameId, path, rejects).value)
  {
    if !HasPair(c.gamePaths, gameId, path) && !rejects(gameId, path) {
      var id := NextRowid(PathIds(c.gamePaths));
      var row := PathRow(id, gameId, path);
      forall y | y in c.gamePaths ensures PathDistinct(y, row) {
        var k :| 0 <= k < |c.gamePaths| && c.gamePaths[k] == y;
        assert PathIds(c.gamePaths)[k] == y.id;
      }
      PairwiseAppend(c.gamePaths, row, PathDistinct);
    }
  }

  lemma {:induction false} InsertPathsValid(c: Connection, gameId: int, paths: seq<Path>, rejects: (int, string) -> bool)
    requires Valid(c)
    ensures Valid(InsertPaths(c, gameId, paths, rejects).0)
    decreases |paths|
  {
    if |paths| > 0 {
      InsertPathValid(c, gameId, PathText(paths[0]), rejects);
      match InsertPath(c, gameId, PathText(paths[0]), rejects)
      case Err(_) =>
      case Ok(c1) => InsertPathsValid(c1, gameId, paths[1..], rejects);
    }
  }

  /**
   * `(game_id, original_path)` stays unique, also when the list repeats a
   * path; a rolled-back batch leaves a valid index too.
   */
  lemma UpsertPathsValid(c: Connection, gameId: int, paths: seq<Path>, rejects: (int, string) -> bool)
    requires Valid(c)
    ensures Valid(UpsertPaths(c, gameId, paths, rejects).0)
  {
    InsertPathsValid(c, gameId, paths, rejects);
  }

  /** The game row with this rowid, if any (the join's match). */
  function FindGameById(games: seq<GameRow>, id: int): (r: Option<GameRow>)
    ensures r.Some? ==> r.value in games && r.value.id == id
    ensures r.None? <==> forall g :: g in games ==> g.id != id
    decreases |games|
  {
    if |games| == 0 then None
    else if games[0].id == id then Some(games[0])
    else FindGameById(games[1..], id)
  }

  /** With unique rowids the join finds exactly the game with that rowid. */
  lemma FindGameByIdUnique(games: seq<GameRow>, g: GameRow)
    requires Pairwise(games, GameDistinct) && g in games
    ensures FindGameById(games, g.id) == Some(g)
  {
    var f := FindGameById(games, g.id).value;
    var i :| 0 <= i < |games| && games[i] == g;
    var j :| 0 <= j < |games| && games[j] == f;
    assert games[i].id == games[j].id;
  }

  function Info(row: PathRow, g: GameRow): DbPathInfo {
    DbPathInfo(row.id, g.externalId, row.originalPath)
  }

  /** The join of path rows with their games, in path-row order; a row whose game is gone is left out. */
  function Join(rows: seq<PathRow>, games: seq<GameRow>): (r: seq<DbPathInfo>)
    ensures forall info :: info in r ==>
      exists row :: row in rows && FindGameById(games, row.gameId).Some? &&
                    info == Info(row, FindGameById(games, row.gameId).value)
    ensures forall row :: row in rows && FindGameById(games, row.gameId).Some? ==>
      Info(row, FindGameById(games, row.gameId).value) in r
    decreases |rows|
  {
    if |rows| == 0 then []
    else
      var rest := Join(rows[1..], games);
      assert forall row :: row in rows[1..] ==> row in rows;
      assert forall row :: row in rows ==> row == rows[0] || row in rows[1..];
      match FindGameById(games, rows[0].gameId)
      case None => rest
      case Some(g) => [Info(rows[0], g)] + rest
  }

  /** `get_all_db_paths`: `game_path JOIN game ON gp.game_id = g.id`. */
  function GetAllDbPaths(c: Connection): seq<DbPathInfo> {
    Join(c.gamePaths, c.games)
  }

  /** The `(external id, path)` pair of a listed path. */
  function Pair(info: DbPathInfo): (string, string) {
    (info.externalId, info.originalPath)
  }

  /** The `(game id, path text)` pairs of a vault config. */
  function ConfigPairs(config: VaultConfigs.VaultConfig): set<(string, string)> {
    set k, p | 0 <= k < |config.games| && p in config.games[k].paths :: (config.games[k].id, PathText(p))
  }

  /** `DELETE FROM game_path WHERE id = ?1`. */
  function DeletePath(c: Connection, id: int): (c': Connection)
    ensures forall r :: r in c'.gamePaths <==> r in c.gamePaths && r.id != id
  {
    c.(gamePaths := Filter(c.gamePaths, (r: PathRow) => r.id != id))
  }

  /** Some listed path with this rowid has a pair outside the set. */
  predicate Doomed(id: int, pairs: set<(string, string)>, listing: seq<DbPathInfo>) {
    exists x :: x in listing && Pair(x) !in pairs && x.id == id
  }

  /** The listed pairs outside the set, in listing order. */
  function Outside(listing: seq<DbPathInfo>, pairs: set<(string, string)>): seq<(string, string)>
    decreases |listing|
  {
    if |listing| == 0 then []
    else if Pair(listing[0]) in pairs then Outside(listing[1..], pairs)
    else [Pair(listing[0])] + Outside(listing[1..], pairs)
  }

  /** The prune loop over the listing: delete each listed path whose pair is not in the set, collecting it. */
  function PrunePaths(c: Connection, pairs: set<(string, string)>, listing: seq<DbPathInfo>): (out: (Connection, seq<(string, string)>))
    ensures out.0 == c.(gamePaths := out.0.gamePaths)
    ensures forall r :: r in out.0.gamePaths <==> r in c.gamePaths && !Doomed(r.id, pairs, listing)
    ensures out.1 == Outside(listing, pairs)
    decreases |listing|
  {
    if |listing| == 0 then (c, [])
    else
      var x := listing[0];
      assert forall y :: y in listing ==> y == x || y in listing[1..];
      if Pair(x) in pairs then PrunePaths(c, pairs, listing[1..])
      else
        var rest := PrunePaths(DeletePath(c, x.id), pairs, listing[1..]);
        (rest.0, [Pair(x)] + rest.1)
  }

  /** `prune_obsolete_paths`. */
  function PruneObsoletePaths(c: Connection, config: VaultConfigs.VaultConfig): (out: (Connection, seq<(string, string)>))
    ensures out.0 == c.(gamePaths := out.0.gamePaths)
    ensures out.1 == Outside(GetAllDbPaths(c), ConfigPairs(config))
  {
    PrunePaths(c, ConfigPairs(config), GetAllDbPaths(c))
  }

  /**
   * After pruning, every listed pair is in the config's pair set, and every
   * listed path whose pair is in the set is still listed.
   */
  lemma PruneObsoletePathsSpec(c: Connection, config: VaultConfigs.VaultConfig)
    requires Valid(c)
    ensures var c' := PruneObsoletePaths(c, config).0;
      (forall info :: info in GetAllDbPaths(c') ==> Pair(info) in ConfigPairs(config)) &&
      (forall info :: info in GetAllDbPaths(c) && Pair(info) in ConfigPairs(config) ==> info in GetAllDbPaths(c'))
  {
    var pairs := ConfigPairs(config);
    var listing := GetAllDbPaths(c);
    var c' := PruneObsoletePaths(c, config).0;
    forall info | info in GetAllDbPaths(c') ensures Pair(info) in pairs {
      var row :| row in c'.gamePaths && FindGameById(c'.games, row.gameId).Some? &&
                 info == Info(row, FindGameById(c'.games, row.gameId).value);
      assert row in c.gamePaths && !Doomed(row.id, pairs, listing);
      assert info in listing;
    }
    forall info | info in listing && Pair(info) in pairs ensures info in GetAllDbPaths(c') {
      var row :| row in c.gamePaths && FindGameById(c.games, row.gameId).Some? &&
                 info == Info(row, FindGameById(c.games, row.gameId).value);
      if Doomed(row.id, pairs, listing) {
        var x :| x in listing && Pair(x) !in pairs && x.id == row.id;
        var row' :| row' in c.gamePaths && FindGameById(c.games, row'.gameId).Some? &&
                    x == Info(row', FindGameById(c.games, row'.gameId).value);
        SameRowid(c.gamePaths, row, row');
        assert false;
      }
      assert row in c'.gamePaths;
    }
  }

  lemma SameRowid(rows: seq<PathRow>, a: PathRow, b: PathRow)
    requires Pairwise(rows, PathDistinct) && a in rows && b in rows && a.id == b.id
    ensures a == b
  {
    var i :| 0 <= i < |rows| && rows[i] == a;
    var j :| 0 <= j < |rows| && rows[j] == b;
    assert rows[i].id == rows[j].id;
  }

  /** Pruning paths keeps the index's constraints. */
  lemma PruneObsoletePathsValid(c: Connection, config: VaultConfigs.VaultConfig)
    requires Valid(c)
    ensures Valid(PruneObsoletePaths(c, config).0)
  {
    PrunePathsValid(c, ConfigPairs(config), GetAllDbPaths(c));
  }

  lemma {:induction false} PrunePathsValid(c: Connection, pairs: set<(string, string)>, listing: seq<DbPathInfo>)
    requires Valid(c)
    ensures Valid(PrunePaths(c, pairs, listing).0)
    decreases |listing|
  {
    if |listing| > 0 {
      var x := listing[0];
      if Pair(x) in pairs {
        PrunePathsValid(c, pairs, listing[1..]);
      } else {
        PairwiseFilter(c.gamePaths, (r: PathRow) => r.id != x.id, PathDistinct);
        PrunePathsValid(DeletePath(c, x.id), pairs, listing[1..]);
      }
    }
  }

  /** One step of the pruning loop. */
  lemma PrunePathsStep(c: Connection, pairs: set<(string, string)>, listing: seq<DbPathInfo>)
    requires |listing| > 0
    ensures var x := listing[0];
      PrunePaths(c, pairs, listing) ==
        if Pair(x) in pairs then PrunePaths(c, pairs, listing[1..])
        else (PrunePaths(DeletePath(c, x.id), pairs, listing[1..]).0,
              [Pair(x)] + PrunePaths(DeletePath(c, x.id), pairs, listing[1..]).1)
  {
  }
}
