/** The defaulting and lookup helpers of src/core/utils.rs. */
module CoreUtils {
  import opened Wrappers
  import opened StdPath
  import opened GameConfigs
  import PathUtil

  /** `get_config_path`: the explicit path, else `<config dir>/kaguya/config.toml`. */
  function GetConfigPath(path: Option<Path>, configDir: Option<Path>): (r: Result<Path>)
    ensures path.Some? ==> r == Ok(path.value)
    ensures path.None? && configDir.None? ==> r.Err? && r.error.DirectoryNotFound?
    ensures path.None? && configDir.Some? ==>
      r == Ok(Path(configDir.value.absolute, configDir.value.comps + ["kaguya", "config.toml"]))
  {
    PathUtil.DefaultedPath(path, configDir, PathUtil.DefaultConfigDir, PathUtil.DefaultConfigFile,
      DirectoryNotFound("Could not find local data directory."))
  }

  /** `get_vault_path`: the explicit path, else `<local data dir>/kaguya/vault`. */
  function GetVaultPath(path: Option<Path>, dataLocalDir: Option<Path>): (r: Result<Path>)
    ensures path.Some? ==> r == Ok(path.value)
    ensures path.None? && dataLocalDir.None? ==> r.Err? && r.error.DirectoryNotFound?
    ensures path.None? && dataLocalDir.Some? ==>
      r == Ok(Path(dataLocalDir.value.absolute, dataLocalDir.value.comps + ["kaguya", "vault"]))
  {
    PathUtil.DefaultedPath(path, dataLocalDir, PathUtil.DefaultVaultDir, PathUtil.DefaultVaultSubdir,
      DirectoryNotFound("Could not find local data directory."))
  }

  /** `find_game_mut`: the position of the first game with the id. */
  function FindGameMut(games: seq<GameConfig>, id: string): (r: Option<nat>)
    ensures r.Some? ==> r.value < |games| && games[r.value].id == id
    ensures r.Some? ==> forall j :: 0 <= j < r.value ==> games[j].id != id
    ensures r.None? <==> forall j :: 0 <= j < |games| ==> games[j].id != id
  {
    PathUtil.FirstWithId(games, id)
  }

  /**
   * The two copies of the defaulting logic resolve to the same path and differ
   * only in the error they report when the platform directory is unknown.
   */
  lemma DefaultsAgree(path: Option<Path>, dir: Option<Path>)
    ensures GetConfigPath(path, dir).Ok? <==> PathUtil.GetGlobalConfigPath(path, dir).Ok?
    ensures GetConfigPath(path, dir).Ok? ==> GetConfigPath(path, dir) == PathUtil.GetGlobalConfigPath(path, dir)
    ensures GetVaultPath(path, dir).Ok? <==> PathUtil.GetVaultDir(path, dir).Ok?
    ensures GetVaultPath(path, dir).Ok? ==> GetVaultPath(path, dir) == PathUtil.GetVaultDir(path, dir)
  {
  }
}
