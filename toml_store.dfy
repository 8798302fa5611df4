/**
 * `add_game_to_games_file` of src/db_manager/toml.rs. Reading and parsing the
 * file is an input (`stored`: `None` when the file does not exist) and the
 * result is the games file that gets serialised and written back.
 */
module TomlStore {
  import opened Wrappers
  import opened Requests
  import opened GameConfigs

  /** The games list before adding: a missing file is the empty default. */
  function Loaded(stored: Option<Result<GamesFile>>): Result<GamesFile> {
    match stored
    case None => Ok(DefaultGamesFile)
    case Some(r) => r
  }

  method AddGameToGamesFile(stored: Option<Result<GamesFile>>, request: AddGameRequest) returns (r: Result<GamesFile>)
    ensures Loaded(stored).Err? ==> r == Loaded(stored)
    ensures Loaded(stored).Ok? && (exists i :: 0 <= i < |Loaded(stored).value.games| && Loaded(stored).value.games[i].id == request.id)
      ==> r == Err(GameIdAlreadyExists(request.id))
    ensures Loaded(stored).Ok? && (forall i :: 0 <= i < |Loaded(stored).value.games| ==> Loaded(stored).value.games[i].id != request.id)
      ==> r == Ok(GamesFile(Loaded(stored).value.games + [FromRequest(request)]))
    ensures Loaded(stored).Ok? && UniqueIds(Loaded(stored).value.games) && r.Ok? ==> UniqueIds(r.value.games)
  {
    var gamesConfigFile: GamesFile;
    match stored {
      case None => gamesConfigFile := DefaultGamesFile;
      case Some(Err(e)) => return Err(e);
      case Some(Ok(f)) => gamesConfigFile := f;
    }
    var games := gamesConfigFile.games;
    var i := 0;
    while i < |games|
      invariant 0 <= i <= |games|
      invariant forall j :: 0 <= j < i ==> games[j].id != request.id
    {
      if games[i].id == request.id {
        return Err(GameIdAlreadyExists(request.id));
      }
      i := i + 1;
    }
    var newGame := FromRequest(request);
    gamesConfigFile := gamesConfigFile.(games := gamesConfigFile.games + [newGame]);
    r := Ok(gamesConfigFile);
  }
}
