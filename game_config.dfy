/** The games file entries of src/models/game_config.rs. */
module GameConfigs {
  import opened Wrappers
  import opened StdPath
  import opened Requests

  type u32 = x: int | 0 <= x < 0x1_0000_0000

  /** One game of the games file; `name` is optional here. */
  datatype GameConfig = GameConfig(id: string, name: Option<string>, paths: seq<Path>, comment: Option<string>, keepVersions: Option<u32>)

  /** The whole games file; `Default` is the empty list. */
  datatype GamesFile = GamesFile(games: seq<GameConfig>)

  const DefaultGamesFile: GamesFile := GamesFile([])

  /** `GameConfig::from_request`: the request's fields, no default name, no retention hint. */
  function FromRequest(request: AddGameRequest): (g: GameConfig)
    ensures g.id == request.id
    ensures g.name == request.name
    ensures request.paths.Some? ==> g.paths == request.paths.value
    ensures request.paths.None? ==> g.paths == []
    ensures g.comment == request.comment
    ensures g.keepVersions.None?
  {
    GameConfig(
      request.id,
      request.name,
      if request.paths.Some? then request.paths.value else [],
      request.comment,
      None)
  }

  /** The ids of a game list, in order. */
  function Ids(games: seq<GameConfig>): (r: seq<string>)
    ensures |r| == |games| && forall i :: 0 <= i < |games| ==> r[i] == games[i].id
  {
    seq(|games|, i requires 0 <= i < |games| => games[i].id)
  }

  /** No two games of the list share an id. */
  predicate UniqueIds(games: seq<GameConfig>) {
    forall i, j :: 0 <= i < j < |games| ==> games[i].id != games[j].id
  }
}
