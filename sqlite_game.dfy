/**
 * The `game` table of src/db_manager/sqlite/game.rs: the conditional
 * upsert, the lookup by external id, the listing ordered by name, the prune
 * loop and the loop that applies a whole vault config.
 */
module SqliteGame {
  import opened Wrappers
  import opened StdPath
  import opened IndexTables
  import opened SqliteGamePath
  import VaultConfigs
  import BTreeMap

  /** `Game` of src/models/db.rs: a game row before it is stored (no rowid yet). */
  datatype Game = Game(id: Option<int>, externalId: string, name: Option<string>, comment: Option<string>,
                       keepVersions: Option<int>, createdAt: int, updatedAt: int)

  /** `Game::from(&GameConfig)`: the config's fields, both time stamps set to `now`. */
  function GameFromConfig(gc: VaultConfigs.GameConfig, now: int): (g: Game)
    ensures g.id.None? && g.externalId == gc.id && g.name == Some(gc.name)
    ensures g.comment == gc.comment && g.keepVersions == gc.keepVersions
    ensures g.createdAt == now && g.updatedAt == now
  {
    Game(None, gc.id, Some(gc.name), gc.comment, gc.keepVersions, now, now)
  }

  /** `find_game_with_external_id`: the rowid of the game with that external id; no such game is an error. */
  function FindGameWithExternalId(c: Connection, externalId: string): (r: Result<int>)
    ensures r.Ok? <==> exists g :: g in c.games && g.externalId == externalId
    ensures r.Ok? ==> exists g :: g in c.games && g.externalId == externalId && g.id == r.value
    ensures r.Err? ==> r.error == QueryReturnedNoRows
  {
    match Find(ExternalIdsOf(c.games), externalId)
    case None =>
      assert forall g :: g in c.games ==> g.externalId != externalId;
      Err(QueryReturnedNoRows)
    case Some(i) =>
      assert c.games[i] in c.games;
      Ok(c.games[i].id)
  }

  /** With unique external ids, the lookup finds exactly the row that has it. */
  lemma FindGameUnique(c: Connection, g: GameRow)
    requires Pairwise(c.games, GameDistinct) && g in c.games
    ensures FindGameWithExternalId(c, g.externalId) == Ok(g.id)
  {
    var i :| 0 <= i < |c.games| && c.games[i] == g;
    var f := Find(ExternalIdsOf(c.games), g.externalId).value;
    assert c.games[f].externalId == c.games[i].externalId;
  }

  /** The `WHERE` of the conflict clause: some field differs, NULL-aware (`IS NOT`). */
  predicate Differs(row: GameRow, g: Game) {
    row.name != g.name || row.comment != g.comment || row.keepVersions != g.keepVersions
  }

  /** The `DO UPDATE SET` of the conflict clause; rowid, external id and `created_at` stay. */
  function Overwrite(row: GameRow, g: Game): GameRow {
    row.(name := g.name, comment := g.comment, keepVersions := g.keepVersions, updatedAt := g.updatedAt)
  }

  /** The row the plain `INSERT` adds. */
  function NewRow(id: int, g: Game): GameRow {
    GameRow(id, g.externalId, g.name, g.comment, g.keepVersions, g.createdAt, g.updatedAt)
  }

  /**
   * `upsert_game`. An insert sets `last_insert_rowid`; the conflict path,
   * updating or not, leaves it alone. The result is `last_insert_rowid`
   * afterwards, `None` when it is 0.
   */
  function UpsertGame(c: Connection, g: Game): (out: (Connection, Option<int>))
    ensures out.0 == c.(games := out.0.games, lastInsertRowid := out.0.lastInsertRowid)
    ensures out.1.None? <==> out.0.lastInsertRowid == 0
    ensures out.1.Some? ==> out.1.value == out.0.lastInsertRowid
  {
    match Find(ExternalIdsOf(c.games), g.externalId)
    case None =>
      var id := NextRowid(GameIds(c.games));
      (c.(games := c.games + [NewRow(id, g)], lastInsertRowid := id), Some(id))
    case Some(i) =>
      var games := if Differs(c.games[i], g) then c.games[i := Overwrite(c.games[i], g)] else c.games;
      (c.(games := games), if c.lastInsertRowid == 0 then None else Some(c.lastInsertRowid))
  }

  /** A new external id gets a new row with a fresh rowid, and that rowid is returned. */
  lemma UpsertGameInserts(c: Connection, g: Game)
    requires forall r :: r in c.games ==> r.externalId != g.externalId
    ensures var out := UpsertGame(c, g);
      var id := NextRowid(GameIds(c.games));
      out.0.games == c.games + [NewRow(id, g)] && id !in GameIds(c.games) &&
      out.0.lastInsertRowid == id && out.1 == Some(id)
  {
    assert forall i :: 0 <= i < |c.games| ==> c.games[i] in c.games;
  }

  /**
   * An existing external id never gets a second row: its row keeps its
   * rowid, external id and `created_at`; name, comment, retention and
   * `updated_at` are overwritten only when one of the first three differs;
   * the other rows and `last_insert_rowid` are untouched, and the result is
   * whatever `last_insert_rowid` already was.
   */
  lemma UpsertGameConflict(c: Connection, g: Game, i: nat)
    requires i < |c.games| && c.games[i].externalId == g.externalId && Pairwise(c.games, GameDistinct)
    ensures var out := UpsertGame(c, g);
      |out.0.games| == |c.games| &&
      (forall j :: 0 <= j < |c.games| && j != i ==> out.0.games[j] == c.games[j]) &&
      (Differs(c.games[i], g) ==> out.0.games[i] == Overwrite(c.games[i], g)) &&
      (!Differs(c.games[i], g) ==> out.0.games[i] == c.games[i]) &&
      out.0.lastInsertRowid == c.lastInsertRowid &&
      out.1 == (if c.lastInsertRowid == 0 then None else Some(c.lastInsertRowid))
  {
    var f := Find(ExternalIdsOf(c.games), g.externalId).value;
    assert c.games[f].externalId == c.games[i].externalId;
  }

  /** The rows of `c` are all still in `c'`, each with the same rowid, external id and creation time. */
  predicate GamesKept(c: Connection, c': Connection) {
    forall r :: r in c.games ==>
      exists r' :: r' in c'.games && r'.id == r.id && r'.externalId == r.externalId && r'.createdAt == r.createdAt
  }

  /** The upsert keeps the index's constraints and loses no stored row. */
  lemma UpsertGameValid(c: Connection, g: Game)
    requires Valid(c)
    ensures Valid(UpsertGame(c, g).0) && Grows(c, UpsertGame(c, g).0)
  {
    var c' := UpsertGame(c, g).0;
    assert forall r :: r in c.gamePaths ==> r in c'.gamePaths;
    match Find(ExternalIdsOf(c.games), g.externalId)
    case None =>
      var id := NextRowid(GameIds(c.games));
      forall y | y in c.games ensures GameDistinct(y, NewRow(id, g)) {
        var k :| 0 <= k < |c.games| && c.games[k] == y;
        assert GameIds(c.games)[k] == y.id;
      }
      PairwiseAppend(c.games, NewRow(id, g), GameDistinct);
      assert forall r :: r in c.games ==> r in c'.games;
    case Some(i) =>
      var row := c.games[i];
      if Differs(row, g) {
        forall j | 0 <= j < |c.games| && j != i
          ensures GameDistinct(c.games[j], Overwrite(row, g)) && GameDistinct(Overwrite(row, g), c.games[j])
        {
          if j < i { assert GameDistinct(c.games[j], c.games[i]); }
          else { assert GameDistinct(c.games[i], c.games[j]); }
        }
        PairwiseUpdate(c.games, i, Overwrite(row, g), GameDistinct);
        forall r | r in c.games
          ensures exists r' :: r' in c'.games && r'.id == r.id && r'.externalId == r.externalId && r'.createdAt == r.createdAt
        {
          var k :| 0 <= k < |c.games| && c.games[k] == r;
          assert c'.games[k] in c'.games;
        }
      }
  }

  /**
   * Afterwards exactly one row has the game's external id; it holds the
   * upserted name, comment and retention, and the lookup by external id
   * finds it.
   */
  lemma UpsertGameStores(c: Connection, g: Game) returns (row: GameRow)
    requires Valid(c)
    ensures var c' := UpsertGame(c, g).0;
      row in c'.games && row.id > 0 && row.externalId == g.externalId &&
      row.name == g.name && row.comment == g.comment && row.keepVersions == g.keepVersions &&
      FindGameWithExternalId(c', g.externalId) == Ok(row.id)
  {
    var c' := UpsertGame(c, g).0;
    UpsertGameValid(c, g);
    match Find(ExternalIdsOf(c.games), g.externalId)
    case None =>
      row := NewRow(NextRowid(GameIds(c.games)), g);
      assert c'.games[|c.games|] == row;
    case Some(i) =>
      UpsertGameConflict(c, g, i);
      row := c'.games[i];
    FindGameUnique(c', row);
  }

  /** NULL sorts first; names compare by character. */
  predicate NameLe(a: Option<string>, b: Option<string>) {
    a.None? || (b.Some? && !BTreeMap.Less(b.value, a.value))
  }

  predicate NameOrder(a: GameRow, b: GameRow) {
    NameLe(a.name, b.name)
  }

  lemma NameLeTotal(a: Option<string>, b: Option<string>)
    ensures NameLe(a, b) || NameLe(b, a)
  {
    if a.Some? && b.Some? {
      BTreeMap.LessAsymmetric(a.value, b.value);
    }
  }

  lemma NameLeTransitive(a: Option<string>, b: Option<string>, c: Option<string>)
    requires NameLe(a, b) && NameLe(b, c)
    ensures NameLe(a, c)
  {
    if a.Some? {
      BTreeMap.LessTotal(a.value, b.value);
      if BTreeMap.Less(c.value, a.value) && BTreeMap.Less(a.value, b.value) {
        BTreeMap.LessTransitive(c.value, a.value, b.value);
      }
    }
  }

  /** Insert a row before the first row whose name is not smaller. */
  function InsertByName(x: GameRow, s: seq<GameRow>): (r: seq<GameRow>)
    ensures multiset(r) == multiset(s) + multiset{x}
    decreases |s|
  {
    if |s| == 0 then [x]
    else if NameLe(x.name, s[0].name) then [x] + s
    else
      assert s == [s[0]] + s[1..];
      [s[0]] + InsertByName(x, s[1..])
  }

  /** The rows ordered by name. */
  function SortByName(rows: seq<GameRow>): (r: seq<GameRow>)
    ensures multiset(r) == multiset(rows)
    decreases |rows|
  {
    if |rows| == 0 then []
    else
      assert rows == [rows[0]] + rows[1..];
      InsertByName(rows[0], SortByName(rows[1..]))
  }

  lemma {:induction false} InsertByNameSorted(x: GameRow, s: seq<GameRow>)
    requires Pairwise(s, NameOrder)
    ensures Pairwise(InsertByName(x, s), NameOrder)
    decreases |s|
  {
    if |s| > 0 {
      if NameLe(x.name, s[0].name) {
        forall y | y in s ensures NameOrder(x, y) {
          var k :| 0 <= k < |s| && s[k] == y;
          if k > 0 { NameLeTransitive(x.name, s[0].name, y.name); }
        }
        PairwiseCons(x, s, NameOrder);
      } else {
        NameLeTotal(x.name, s[0].name);
        var t := s[1..];
        assert Pairwise(t, NameOrder) by {
          assert forall i :: 0 <= i < |t| ==> t[i] == s[i + 1];
        }
        InsertByNameSorted(x, t);
        var rest := InsertByName(x, t);
        forall y | y in rest ensures NameOrder(s[0], y) {
          assert y in multiset(rest);
          if y != x {
            assert y in t;
            var k :| 0 <= k < |t| && t[k] == y;
            assert s[k + 1] == y;
          }
        }
        PairwiseCons(s[0], rest, NameOrder);
      }
    }
  }

  lemma {:induction false} SortByNameSorted(rows: seq<GameRow>)
    ensures Pairwise(SortByName(rows), NameOrder)
    decreases |rows|
  {
    if |rows| > 0 {
      SortByNameSorted(rows[1..]);
      InsertByNameSorted(rows[0], SortByName(rows[1..]));
    }
  }

  /** `get_db_game_list`: every `game` row, `ORDER BY name`. */
  function GetDbGameList(c: Connection): seq<GameRow> {
    SortByName(c.games)
  }

  /** The listing is a permutation of the table, ordered by name (NULL first). */
  lemma GameListSpec(c: Connection)
    ensures multiset(GetDbGameList(c)) == multiset(c.games)
    ensures Pairwise(GetDbGameList(c), NameOrder)
  {
    SortByNameSorted(c.games);
  }

  /** `DELETE FROM game WHERE id = ?1`. */
  function DeleteGame(c: Connection, id: int): (c': Connection)
    ensures forall r :: r in c'.games <==> r in c.games && r.id != id
  {
    c.(games := Filter(c.games, (r: GameRow) => r.id != id))
  }

  /** The test of the prune loop: a row whose external id is not in the config. */
  function Obsolete(ids: set<string>): GameRow -> bool {
    (r: GameRow) => r.externalId !in ids
  }

  function ExternalIdsOf(rows: seq<GameRow>): (r: seq<string>)
    ensures |r| == |rows| && forall i :: 0 <= i < |rows| ==> r[i] == rows[i].externalId
  {
    seq(|rows|, i requires 0 <= i < |rows| => rows[i].externalId)
  }

  /** Some listed row with this rowid is obsolete. */
  predicate GameDoomed(id: int, ids: set<string>, listing: seq<GameRow>) {
    exists x :: x in listing && x.externalId !in ids && x.id == id
  }

  /** The external ids of the listed rows outside the config, in listing order. */
  function ObsoleteIds(listing: seq<GameRow>, ids: set<string>): seq<string>
    decreases |listing|
  {
    if |listing| == 0 then []
    else if listing[0].externalId in ids then ObsoleteIds(listing[1..], ids)
    else [listing[0].externalId] + ObsoleteIds(listing[1..], ids)
  }

  /** The collected ids are those of the obsolete rows, in the listing's order. */
  lemma {:induction false} ObsoleteIdsInOrder(listing: seq<GameRow>, ids: set<string>)
    ensures ObsoleteIds(listing, ids) == ExternalIdsOf(Filter(listing, Obsolete(ids)))
    decreases |listing|
  {
    if |listing| > 0 {
      ObsoleteIdsInOrder(listing[1..], ids);
    }
  }

  /** The prune loop over a listing: delete each obsolete row by rowid, collecting its external id. */
  function PruneGames(c: Connection, ids: set<string>, listing: seq<GameRow>): (out: (Connection, seq<string>))
    ensures out.0 == c.(games := out.0.games)
    ensures forall r :: r in out.0.games <==> r in c.games && !GameDoomed(r.id, ids, listing)
    ensures out.1 == ObsoleteIds(listing, ids)
    decreases |listing|
  {
    if |listing| == 0 then (c, [])
    else
      var x := listing[0];
      assert forall y :: y in listing ==> y == x || y in listing[1..];
      if x.externalId in ids then PruneGames(c, ids, listing[1..])
      else
        var rest := PruneGames(DeleteGame(c, x.id), ids, listing[1..]);
        (rest.0, [x.externalId] + rest.1)
  }

  /** `prune_obsolete_games`. */
  function PruneObsoleteGames(c: Connection, config: VaultConfigs.VaultConfig): (out: (Connection, seq<string>))
    ensures out.0 == c.(games := out.0.games)
    ensures out.1 == ObsoleteIds(GetDbGameList(c), VaultConfigs.IdSet(config))
  {
    PruneGames(c, VaultConfigs.IdSet(config), GetDbGameList(c))
  }

  lemma SameGameRowid(rows: seq<GameRow>, a: GameRow, b: GameRow)
    requires Pairwise(rows, GameDistinct) && a in rows && b in rows && a.id == b.id
    ensures a == b
  {
    var i :| 0 <= i < |rows| && rows[i] == a;
    var j :| 0 <= j < |rows| && rows[j] == b;
    assert rows[i].id == rows[j].id;
  }

  /**
   * After pruning, exactly the rows whose external id is in the config
   * remain, unchanged; the result lists the pruned external ids in the
   * listing's name order.
   */
  lemma PruneObsoleteGamesSpec(c: Connection, config: VaultConfigs.VaultConfig)
    requires Valid(c)
    ensures var out := PruneObsoleteGames(c, config);
      (forall r :: r in out.0.games <==> r in c.games && r.externalId in VaultConfigs.IdSet(config)) &&
      out.1 == ExternalIdsOf(Filter(GetDbGameList(c), Obsolete(VaultConfigs.IdSet(config)))) &&
      Pairwise(Filter(GetDbGameList(c), Obsolete(VaultConfigs.IdSet(config))), NameOrder) &&
      (forall r :: r in Filter(GetDbGameList(c), Obsolete(VaultConfigs.IdSet(config))) <==>
                   r in c.games && r.externalId !in VaultConfigs.IdSet(config))
  {
    var ids := VaultConfigs.IdSet(config);
    var listing := GetDbGameList(c);
    GameListSpec(c);
    assert forall r :: r in listing <==> r in c.games by {
      assert forall r :: r in listing <==> r in multiset(listing);
    }
    var c' := PruneObsoleteGames(c, config).0;
    forall r | r in c.games ensures r in c'.games <==> r.externalId in ids {
      if r.externalId !in ids {
        assert r in listing;
      } else if GameDoomed(r.id, ids, listing) {
        var x :| x in listing && x.externalId !in ids && x.id == r.id;
        SameGameRowid(c.games, r, x);
      }
    }
    PairwiseFilter(listing, Obsolete(ids), NameOrder);
    ObsoleteIdsInOrder(listing, ids);
  }

  /** Pruning games keeps the index's constraints. */
  lemma {:induction false} PruneGamesValid(c: Connection, ids: set<string>, listing: seq<GameRow>)
    requires Valid(c)
    ensures Valid(PruneGames(c, ids, listing).0)
    decreases |listing|
  {
    if |listing| > 0 {
      var x := listing[0];
      if x.externalId in ids {
        PruneGamesValid(c, ids, listing[1..]);
      } else {
        PairwiseFilter(c.games, (r: GameRow) => r.id != x.id, GameDistinct);
        PruneGamesValid(DeleteGame(c, x.id), ids, listing[1..]);
      }
    }
  }

  /** Some stored game with this external id owns a path row with this text. */
  predicate PairStored(c: Connection, externalId: string, path: string) {
    exists g, r :: g in c.games && r in c.gamePaths && g.externalId == externalId && r.gameId == g.id && r.originalPath == path
  }

  /**
   * One iteration of `upsert_games_from_config` as the code is written: the
   * id used for the paths is what `upsert_game` returned, and only a `None`
   * falls back to the lookup by external id.
   */
  function UpsertOneAsWritten(c: Connection, gc: VaultConfigs.GameConfig, now: int,
                              rejects: (int, string) -> bool): (out: (Connection, Result<()>))
    ensures out.0 == c.(games := out.0.games, gamePaths := out.0.gamePaths, lastInsertRowid := out.0.lastInsertRowid)
  {
    var up := UpsertGame(c, GameFromConfig(gc, now));
    var id := if up.1.Some? then Ok(up.1.value) else FindGameWithExternalId(up.0, gc.id);
    match id
    case Err(e) => (up.0, Err(e))
    case Ok(gameId) => UpsertPaths(up.0, gameId, gc.paths, rejects)
  }

  /** `upsert_games_from_config` as the code is written: each game in order, stopping at the first error. */
  function UpsertGamesAsWritten(c: Connection, games: seq<VaultConfigs.GameConfig>, now: int,
                                rejects: (int, string) -> bool): (out: (Connection, Result<()>))
    ensures out.0 == c.(games := out.0.games, gamePaths := out.0.gamePaths, lastInsertRowid := out.0.lastInsertRowid)
    decreases |games|
  {
    if |games| == 0 then (c, Ok(()))
    else
      var step := UpsertOneAsWritten(c, games[0], now, rejects);
      if step.1.Err? then step else UpsertGamesAsWritten(step.0, games[1..], now, rejects)
  }

  /**
   * One iteration of `upsert_games_from_config`, corrected: the id for the
   * paths always comes from the lookup by external id, so it is the game's
   * own rowid.
   */
  function UpsertOne(c: Connection, gc: VaultConfigs.GameConfig, now: int,
                     rejects: (int, string) -> bool): (out: (Connection, Result<()>))
    ensures out.0 == c.(games := out.0.games, gamePaths := out.0.gamePaths, lastInsertRowid := out.0.lastInsertRowid)
  {
    var up := UpsertGame(c, GameFromConfig(gc, now));
    match FindGameWithExternalId(up.0, gc.id)
    case Err(e) => (up.0, Err(e))
    case Ok(gameId) => UpsertPaths(up.0, gameId, gc.paths, rejects)
  }

  /** `upsert_games_from_config`, corrected: each game in order, stopping at the first error. */
  function UpsertGames(c: Connection, games: seq<VaultConfigs.GameConfig>, now: int,
                       rejects: (int, string) -> bool): (out: (Connection, Result<()>))
    ensures out.0 == c.(games := out.0.games, gamePaths := out.0.gamePaths, lastInsertRowid := out.0.lastInsertRowid)
    decreases |games|
  {
    if |games| == 0 then (c, Ok(()))
    else
      var step := UpsertOne(c, games[0], now, rejects);
      if step.1.Err? then step else UpsertGames(step.0, games[1..], now, rejects)
  }

  /** The external ids stored in `game`. */
  function ExternalIds(c: Connection): set<string> {
    set r | r in c.games :: r.externalId
  }

  /** The ids of a list of config games. */
  function ConfigIds(games: seq<VaultConfigs.GameConfig>): set<string> {
    set k | 0 <= k < |games| :: games[k].id
  }

  /** `(game id, path text)` for every path of every config game of the list. */
  function ConfigPairsOf(games: seq<VaultConfigs.GameConfig>): set<(string, string)> {
    set k, p | 0 <= k < |games| && p in games[k].paths :: (games[k].id, PathText(p))
  }

  /** Path rows are only added, and game rows keep their rowid, external id and creation time. */
  predicate Grows(c: Connection, c': Connection) {
    GamesKept(c, c') && (forall r :: r in c.gamePaths ==> r in c'.gamePaths)
  }

  lemma GrowsTransitive(a: Connection, b: Connection, d: Connection)
    requires Grows(a, b) && Grows(b, d)
    ensures Grows(a, d)
  {
    forall r | r in a.games
      ensures exists r' :: r' in d.games && r'.id == r.id && r'.externalId == r.externalId && r'.createdAt == r.createdAt
    {
      var m :| m in b.games && m.id == r.id && m.externalId == r.externalId && m.createdAt == r.createdAt;
      var n :| n in d.games && n.id == m.id && n.externalId == m.externalId && n.createdAt == m.createdAt;
    }
  }

  lemma PairStoredGrows(c: Connection, c': Connection, externalId: string, path: string)
    requires Grows(c, c') && PairStored(c, externalId, path)
    ensures PairStored(c', externalId, path)
  {
    var g, r :| g in c.games && r in c.gamePaths && g.externalId == externalId && r.gameId == g.id && r.originalPath == path;
    var g' :| g' in c'.games && g'.id == g.id && g'.externalId == g.externalId && g'.createdAt == g.createdAt;
    assert r in c'.gamePaths;
  }

  lemma ExternalIdsGrow(c: Connection, c': Connection)
    requires GamesKept(c, c')
    ensures ExternalIds(c) <= ExternalIds(c')
  {
    forall x | x in ExternalIds(c) ensures x in ExternalIds(c') {
      var r :| r in c.games && r.externalId == x;
      var r' :| r' in c'.games && r'.id == r.id && r'.externalId == r.externalId && r'.createdAt == r.createdAt;
    }
  }

  /** The upsert adds the game's external id and no other. */
  lemma UpsertGameIds(c: Connection, g: Game)
    requires Pairwise(c.games, GameDistinct)
    ensures ExternalIds(UpsertGame(c, g).0) == ExternalIds(c) + {g.externalId}
  {
    var c' := UpsertGame(c, g).0;
    match Find(ExternalIdsOf(c.games), g.externalId)
    case None =>
      assert c'.games == c.games + [NewRow(NextRowid(GameIds(c.games)), g)];
      assert forall r :: r in c'.games <==> r in c.games || r == NewRow(NextRowid(GameIds(c.games)), g);
    case Some(i) =>
      UpsertGameConflict(c, g, i);
      forall x | x in ExternalIds(c') ensures x in ExternalIds(c) + {g.externalId} {
        var r :| r in c'.games && r.externalId == x;
        var k :| 0 <= k < |c'.games| && c'.games[k] == r;
        if k != i { assert c.games[k] == r; } else { assert r.externalId == c.games[i].externalId; }
      }
      forall x | x in ExternalIds(c) ensures x in ExternalIds(c') {
        var r :| r in c.games && r.externalId == x;
        var k :| 0 <= k < |c.games| && c.games[k] == r;
        assert c'.games[k].externalId == x;
        assert c'.games[k] in c'.games;
      }
  }

  /** Storing the paths of a game row keeps game rows and old path rows and, on success, adds every path. */
  lemma UpsertPathsGrows(c: Connection, id: int, paths: seq<Path>, rejects: (int, string) -> bool)
    requires Valid(c)
    ensures var stored := UpsertPaths(c, id, paths, rejects);
      Valid(stored.0) && Grows(c, stored.0) && stored.0.games == c.games &&
      (stored.1.Ok? ==> forall p :: p in paths ==> HasPair(stored.0.gamePaths, id, PathText(p)))
  {
    UpsertPathsValid(c, id, paths, rejects);
    UpsertPathsAdds(c, id, paths, rejects);
    var stored := UpsertPaths(c, id, paths, rejects);
    assert forall r :: r in c.gamePaths ==> r in stored.0.gamePaths by {
      if stored.1.Ok? {
        assert forall i :: 0 <= i < |c.gamePaths| ==> stored.0.gamePaths[i] == c.gamePaths[i];
      }
    }
    assert GamesKept(c, stored.0) by {
      forall r | r in c.games
        ensures exists r' :: r' in stored.0.games && r'.id == r.id && r'.externalId == r.externalId && r'.createdAt == r.createdAt
      {
        assert r in stored.0.games;
      }
    }
    if stored.1.Ok? {
      forall p | p in paths ensures HasPair(stored.0.gamePaths, id, PathText(p)) {
        var k :| 0 <= k < |paths| && paths[k] == p;
      }
    }
  }

  lemma HasPairStored(c: Connection, g: GameRow, path: string)
    requires g in c.games && HasPair(c.gamePaths, g.id, path)
    ensures PairStored(c, g.externalId, path)
  {
    var r :| r in c.gamePaths && r.gameId == g.id && r.originalPath == path;
  }

  lemma PathsStored(c: Connection, g: GameRow, paths: seq<Path>)
    requires g in c.games && forall p :: p in paths ==> HasPair(c.gamePaths, g.id, PathText(p))
    ensures forall p :: p in paths ==> PairStored(c, g.externalId, PathText(p))
  {
    forall p | p in paths ensures PairStored(c, g.externalId, PathText(p)) {
      HasPairStored(c, g, PathText(p));
    }
  }

  /** With the lookup finding the row, a corrected step stores the paths under that row. */
  lemma UpsertOneUsesRow(c: Connection, gc: VaultConfigs.GameConfig, now: int, rejects: (int, string) -> bool, id: int)
    requires FindGameWithExternalId(UpsertGame(c, GameFromConfig(gc, now)).0, gc.id) == Ok(id)
    ensures UpsertOne(c, gc, now, rejects) == UpsertPaths(UpsertGame(c, GameFromConfig(gc, now)).0, id, gc.paths, rejects)
  {
  }

  /** One step of the corrected loop: the game's row exists and, on success, owns every one of its paths. */
  lemma UpsertOneStores(c: Connection, gc: VaultConfigs.GameConfig, now: int, rejects: (int, string) -> bool)
    requires Valid(c)
    ensures var out := UpsertOne(c, gc, now, rejects);
      Valid(out.0) && Grows(c, out.0) && ExternalIds(out.0) == ExternalIds(c) + {gc.id} &&
      (out.1.Ok? ==> forall p :: p in gc.paths ==> PairStored(out.0, gc.id, PathText(p)))
  {
    var row := UpsertOneStep(c, gc, now, rejects);
    UpsertGameIds(c, GameFromConfig(gc, now));
    var out := UpsertOne(c, gc, now, rejects);
    if out.1.Ok? {
      PathsStored(out.0, row, gc.paths);
    }
  }

  /** The row the corrected step stores the paths under, and what storing them gives. */
  lemma UpsertOneStep(c: Connection, gc: VaultConfigs.GameConfig, now: int, rejects: (int, string) -> bool)
      returns (row: GameRow)
    requires Valid(c)
    ensures var out := UpsertOne(c, gc, now, rejects);
      Valid(out.0) && Grows(c, out.0) && row in out.0.games && row.externalId == gc.id &&
      out.0.games == UpsertGame(c, GameFromConfig(gc, now)).0.games &&
      (out.1.Ok? ==> forall p :: p in gc.paths ==> HasPair(out.0.gamePaths, row.id, PathText(p)))
  {
    var g := GameFromConfig(gc, now);
    var up := UpsertGame(c, g).0;
    UpsertGameValid(c, g);
    row := UpsertGameStores(c, g);
    UpsertPathsGrows(up, row.id, gc.paths, rejects);
    var out := UpsertPaths(up, row.id, gc.paths, rejects);
    UpsertOneUsesRow(c, gc, now, rejects, row.id);
    GrowsTransitive(c, up, out.0);
  }

  lemma ConfigIdsCons(games: seq<VaultConfigs.GameConfig>)
    requires |games| > 0
    ensures ConfigIds(games) == {games[0].id} + ConfigIds(games[1..])
  {
    var tail := games[1..];
    forall x | x in ConfigIds(games) ensures x in {games[0].id} + ConfigIds(tail) {
      var k :| 0 <= k < |games| && games[k].id == x;
      if k > 0 { assert tail[k - 1] == games[k]; }
    }
    forall x | x in ConfigIds(tail) ensures x in ConfigIds(games) {
      var k :| 0 <= k < |tail| && tail[k].id == x;
      assert games[k + 1] == tail[k];
    }
  }

  lemma ConfigPairsCons(games: seq<VaultConfigs.GameConfig>, pair: (string, string))
    requires |games| > 0 && pair in ConfigPairsOf(games)
    ensures (pair.0 == games[0].id && exists p :: p in games[0].paths && pair.1 == PathText(p)) ||
            pair in ConfigPairsOf(games[1..])
  {
    var k, p :| 0 <= k < |games| && p in games[k].paths && pair == (games[k].id, PathText(p));
    if k > 0 {
      assert games[1..][k - 1] == games[k];
    }
  }

  /**
   * The corrected loop, on success: the index stays valid, every config id
   * has a row, every config path is owned by its game's row, and nothing that
   * was stored before is lost.
   */
  lemma {:induction false} UpsertGamesStores(c: Connection, games: seq<VaultConfigs.GameConfig>, now: int,
                                             rejects: (int, string) -> bool)
    requires Valid(c)
    ensures var out := UpsertGames(c, games, now, rejects);
      Valid(out.0) && Grows(c, out.0) &&
      (out.1.Ok? ==> forall pair :: pair in ConfigPairsOf(games) ==> PairStored(out.0, pair.0, pair.1))
    decreases |games|
  {
    var out := UpsertGames(c, games, now, rejects);
    if |games| == 0 {
      assert ConfigIds(games) == {};
      assert ConfigPairsOf(games) == {};
      assert GamesKept(c, c) by {
        forall r | r in c.games
          ensures exists r' :: r' in c.games && r'.id == r.id && r'.externalId == r.externalId && r'.createdAt == r.createdAt
        {
        }
      }
    } else {
      var gc := games[0];
      UpsertOneStores(c, gc, now, rejects);
      var step := UpsertOne(c, gc, now, rejects);
      if step.1.Ok? {
        var tail := games[1..];
        UpsertGamesStores(step.0, tail, now, rejects);
        assert out == UpsertGames(step.0, tail, now, rejects);
        GrowsTransitive(c, step.0, out.0);
        if out.1.Ok? {
          forall pair | pair in ConfigPairsOf(games) ensures PairStored(out.0, pair.0, pair.1) {
            ConfigPairsCons(games, pair);
            if pair !in ConfigPairsOf(tail) {
              PairStoredGrows(step.0, out.0, pair.0, pair.1);
            }
          }
        }
      }
    }
  }

  /** The corrected loop, on success, adds exactly the config's ids to the stored external ids. */
  lemma {:induction false} UpsertGamesIds(c: Connection, games: seq<VaultConfigs.GameConfig>, now: int,
                                          rejects: (int, string) -> bool)
    requires Valid(c)
    ensures var out := UpsertGames(c, games, now, rejects);
      out.1.Ok? ==> ExternalIds(out.0) == ExternalIds(c) + ConfigIds(games)
    decreases |games|
  {
    if |games| == 0 {
      assert ConfigIds(games) == {};
    } else {
      UpsertOneStores(c, games[0], now, rejects);
      var step := UpsertOne(c, games[0], now, rejects);
      if step.1.Ok? {
        UpsertGamesIds(step.0, games[1..], now, rejects);
        ConfigIdsCons(games);
      }
    }
  }

  /**
   * One step of the loop as written keeps the index valid and adds the
   * game's external id and no other, whichever rowid its paths went to.
   */
  lemma UpsertOneAsWrittenIds(c: Connection, gc: VaultConfigs.GameConfig, now: int, rejects: (int, string) -> bool)
    requires Valid(c)
    ensures var out := UpsertOneAsWritten(c, gc, now, rejects);
      Valid(out.0) && ExternalIds(out.0) == ExternalIds(c) + {gc.id}
  {
    var g := GameFromConfig(gc, now);
    UpsertGameValid(c, g);
    UpsertGameIds(c, g);
    var up := UpsertGame(c, g);
    var id := if up.1.Some? then Ok(up.1.value) else FindGameWithExternalId(up.0, gc.id);
    if id.Ok? {
      UpsertPathsValid(up.0, id.value, gc.paths, rejects);
    }
  }

  /**
   * The loop as written keeps the index valid and, on success, adds exactly
   * the config's ids to the stored external ids: the misplaced paths do not
   * show in the game rows.
   */
  lemma {:induction false} UpsertGamesAsWrittenIds(c: Connection, games: seq<VaultConfigs.GameConfig>, now: int,
                                                   rejects: (int, string) -> bool)
    requires Valid(c)
    ensures var out := UpsertGamesAsWritten(c, games, now, rejects);
      Valid(out.0) && (out.1.Ok? ==> ExternalIds(out.0) == ExternalIds(c) + ConfigIds(games))
    decreases |games|
  {
    if |games| == 0 {
      assert ConfigIds(games) == {};
    } else {
      UpsertOneAsWrittenIds(c, games[0], now, rejects);
      var step := UpsertOneAsWritten(c, games[0], now, rejects);
      if step.1.Ok? {
        UpsertGamesAsWrittenIds(step.0, games[1..], now, rejects);
        ConfigIdsCons(games);
      }
    }
  }

  /** No insert fails. */
  const NeverRejects: (int, string) -> bool := (id: int, t: string) => false

  /** Games `a` (rowid 1) and `c` (rowid 2) are stored, and no path is. */
  const StaleStart := Empty.(games := [GameRow(1, "a", Some("A"), None, None, 0, 0),
                                       GameRow(2, "c", Some("C"), None, None, 0, 0)])

  /** A new game `b` with path `/x`. */
  const NewGameB := VaultConfigs.GameConfig("b", "B", [Path(true, ["x"])], None, None)

  /** The stored game `c`, unchanged, with path `/y`. */
  const SameGameC := VaultConfigs.GameConfig("c", "C", [Path(true, ["y"])], None, None)

  /** After `b`: its row has rowid 3, its path rowid 1, and `last_insert_rowid` is 1. */
  const StaleAfterB := StaleStart.(games := StaleStart.games + [GameRow(3, "b", Some("B"), None, None, 0, 0)],
                                   gamePaths := [PathRow(1, 3, "/x")], lastInsertRowid := 1)

  lemma StaleStepB()
    ensures UpsertOneAsWritten(StaleStart, NewGameB, 0, NeverRejects) == (StaleAfterB, Ok(()))
  {
    var up := UpsertGame(StaleStart, GameFromConfig(NewGameB, 0));
    assert Find(ExternalIdsOf(StaleStart.games), "b") == None;
    assert NextRowid(GameIds(StaleStart.games)) == 3;
    assert up.1 == Some(3);
    var c1 := up.0;
    assert c1 == StaleStart.(games := StaleAfterB.games, lastInsertRowid := 3);
    assert c1.gamePaths + [PathRow(1, 3, "/x")] == [PathRow(1, 3, "/x")];
    assert PathText(Path(true, ["x"])) == "/x";
    assert !HasPair(c1.gamePaths, 3, "/x") && !NeverRejects(3, "/x");
    assert NextRowid(PathIds(c1.gamePaths)) == 1;
    assert InsertPath(c1, 3, "/x", NeverRejects) == Ok(StaleAfterB);
    assert NewGameB.paths[1..] == [];
    assert InsertPaths(c1, 3, NewGameB.paths, NeverRejects) == (StaleAfterB, Ok(()));
  }

  /** After `c`: its path `/y` has rowid 2 and is stored under rowid 1, the game `a`. */
  const StaleEnd := StaleAfterB.(gamePaths := StaleAfterB.gamePaths + [PathRow(2, 1, "/y")], lastInsertRowid := 2)

  lemma StaleStepC()
    ensures UpsertOneAsWritten(StaleAfterB, SameGameC, 0, NeverRejects) == (StaleEnd, Ok(()))
  {
    var c1 := StaleAfterB;
    var c2 := StaleEnd;
    assert Find(ExternalIdsOf(c1.games), "c") == Some(1);
    assert !Differs(c1.games[1], GameFromConfig(SameGameC, 0));
    assert UpsertGame(c1, GameFromConfig(SameGameC, 0)) == (c1, Some(1));
    assert PathText(Path(true, ["y"])) == "/y";
    assert !HasPair(c1.gamePaths, 1, "/y") && !NeverRejects(1, "/y");
    assert PathIds(c1.gamePaths) == [1];
    assert NextRowid([1]) == 2;
    assert InsertPath(c1, 1, "/y", NeverRejects) == Ok(c2);
    assert SameGameC.paths[1..] == [];
    assert InsertPaths(c1, 1, SameGameC.paths, NeverRejects) == (c2, Ok(()));
  }

  lemma StaleLoop()
    ensures UpsertGamesAsWritten(StaleStart, [NewGameB, SameGameC], 0, NeverRejects) == (StaleEnd, Ok(()))
  {
    StaleStepB();
    StaleStepC();
    assert UpsertGamesAsWritten(StaleEnd, [], 0, NeverRejects) == (StaleEnd, Ok(()));
    assert [SameGameC][1..] == [];
    assert UpsertGamesAsWritten(StaleAfterB, [SameGameC], 0, NeverRejects) == (StaleEnd, Ok(()));
    assert [NewGameB, SameGameC][1..] == [SameGameC];
  }

  /**
   * The as-written loop attaches a path to the wrong game. Inserting `b` and
   * its path leaves `last_insert_rowid` at the path's rowid, 1; the upsert
   * of the unchanged `c` inserts nothing and returns that stale 1, so `/y`
   * is stored under game `a`, and game `c` owns no path.
   */
  lemma StaleRowidCounterexample()
    ensures var out := UpsertGamesAsWritten(StaleStart, [NewGameB, SameGameC], 0, NeverRejects);
      out.1 == Ok(()) && PairStored(out.0, "a", "/y") && !PairStored(out.0, "c", "/y")
  {
    StaleLoop();
    StaleEndPairs();
  }

  lemma StaleEndPairs()
    ensures PairStored(StaleEnd, "a", "/y") && !PairStored(StaleEnd, "c", "/y")
  {
    var games, paths := StaleEnd.games, StaleEnd.gamePaths;
    assert games[0] in games && paths[1] in paths;
    assert forall r :: r in paths ==> r.gameId != 2;
    assert forall g :: g in games && g.externalId == "c" ==> g.id == 2;
  }

  /** The starting index of the counterexample meets every constraint of the schema. */
  lemma StaleStartValid()
    ensures Valid(StaleStart)
  {
  }

  /** The corrected loop keeps the index's constraints, whether it succeeds or not. */
  lemma UpsertGamesValid(c: Connection, games: seq<VaultConfigs.GameConfig>, now: int,
                         rejects: (int, string) -> bool)
    requires Valid(c)
    ensures Valid(UpsertGames(c, games, now, rejects).0)
  {
    UpsertGamesStores(c, games, now, rejects);
  }

  /** One step of the corrected loop. */
  lemma UpsertGamesStep(c: Connection, games: seq<VaultConfigs.GameConfig>, now: int,
                        rejects: (int, string) -> bool)
    requires |games| > 0
    ensures var step := UpsertOne(c, games[0], now, rejects);
      UpsertGames(c, games, now, rejects) == (if step.1.Err? then step else UpsertGames(step.0, games[1..], now, rejects))
  {
  }

  /** One step of the pruning loop. */
  lemma PruneGamesStep(c: Connection, ids: set<string>, listing: seq<GameRow>)
    requires |listing| > 0
    ensures var x := listing[0];
      PruneGames(c, ids, listing) ==
        if x.externalId in ids then PruneGames(c, ids, listing[1..])
        else (PruneGames(DeleteGame(c, x.id), ids, listing[1..]).0,
              [x.externalId] + PruneGames(DeleteGame(c, x.id), ids, listing[1..]).1)
  {
  }
}
