/**
 * Path helpers of src/utils/path.rs. The platform directories (`home_dir`,
 * `config_dir`, `data_local_dir`) are parameters: `None` when the platform
 * cannot name them.
 */
module PathUtil {
  import opened Wrappers
  import opened StdPath
  import opened GameConfigs

  // src/models/constants.rs
  const DefaultConfigDir := "kaguya"
  const DefaultConfigFile := "config.toml"
  const DefaultVaultDir := "kaguya"
  const DefaultVaultSubdir := "vault"

  const Tilde: Path := Path(false, ["~"])

  /** `shrink_path`: a path under home becomes `~` joined with the remainder. */
  function ShrinkPath(home: Option<Path>, p: Path): (r: Path)
    ensures home.Some? && StartsWith(p, home.value) ==>
      r == Path(false, ["~"] + p.comps[|home.value.comps|..])
    ensures !(home.Some? && StartsWith(p, home.value)) ==> r == p
  {
    if home.Some? && StripPrefix(p, home.value).Some? then
      Join(Tilde, StripPrefix(p, home.value).value)
    else p
  }

  /** `expand_path`: a first component exactly `~` is replaced by home. */
  function ExpandPath(home: Option<Path>, p: Path): (r: Path)
    ensures home.Some? && !p.absolute && |p.comps| > 0 && p.comps[0] == "~" ==>
      r == Path(home.value.absolute, home.value.comps + p.comps[1..])
    ensures !(home.Some? && !p.absolute && |p.comps| > 0 && p.comps[0] == "~") ==> r == p
  {
    if home.Some? && StripPrefix(p, Tilde).Some? then
      Join(home.value, StripPrefix(p, Tilde).value)
    else p
  }

  /** The home directory itself shrinks to `~`. */
  lemma ShrinkHome(home: Path)
    ensures ShrinkPath(Some(home), home) == Tilde
  {
    assert home.comps[|home.comps|..] == [];
  }

  /** A path under home survives shrinking and expanding again. */
  lemma ExpandShrink(home: Path, p: Path)
    requires StartsWith(p, home)
    ensures ExpandPath(Some(home), ShrinkPath(Some(home), p)) == p
  {
    var rest := p.comps[|home.comps|..];
    assert (["~"] + rest)[1..] == rest;
    assert home.comps + rest == p.comps;
  }

  /** A `~`-relative path survives expanding and shrinking again. */
  lemma ShrinkExpand(home: Path, p: Path)
    requires !p.absolute && |p.comps| > 0 && p.comps[0] == "~"
    ensures ShrinkPath(Some(home), ExpandPath(Some(home), p)) == p
  {
    var e := ExpandPath(Some(home), p);
    assert e.comps[..|home.comps|] == home.comps;
    assert e.comps[|home.comps|..] == p.comps[1..];
    assert ["~"] + p.comps[1..] == p.comps;
  }

  /** A component that merely starts with `~`, such as `~user`, is left alone. */
  lemma ExpandLeavesTildeUser(home: Path, p: Path)
    requires !p.absolute && |p.comps| > 0 && p.comps[0] != "~"
    ensures ExpandPath(Some(home), p) == p
  {
  }

  /** `get_file_name`: the final normal component of the path. */
  function GetFileName(p: Path): (r: Option<string>)
    ensures r.Some? <==> |p.comps| > 0 && p.comps[|p.comps| - 1] != ".." && p.comps[|p.comps| - 1] != "."
    ensures r.Some? ==> r.value == p.comps[|p.comps| - 1]
  {
    FileName(p)
  }

  /** Shared shape of the two defaulting functions below. */
  function DefaultedPath(explicit: Option<Path>, base: Option<Path>, sub: string, leaf: string, missing: KaguyaError): (r: Result<Path>)
    ensures explicit.Some? ==> r == Ok(explicit.value)
    ensures explicit.None? && base.None? ==> r == Err(missing)
    ensures explicit.None? && base.Some? ==> r == Ok(Path(base.value.absolute, base.value.comps + [sub, leaf]))
  {
    match explicit
    case Some(p) => Ok(p)
    case None =>
      match base
      case None => Err(missing)
      case Some(dir) =>
        assert dir.comps + [sub] + [leaf] == dir.comps + [sub, leaf];
        Ok(Join(Join(dir, Path(false, [sub])), Path(false, [leaf])))
  }

  /** `get_global_config_path`: the explicit path, else `<config dir>/kaguya/config.toml`. */
  function GetGlobalConfigPath(path: Option<Path>, configDir: Option<Path>): (r: Result<Path>)
    ensures path.Some? ==> r == Ok(path.value)
    ensures path.None? && configDir.None? ==> r.Err? && r.error.PathNotFound?
    ensures path.None? && configDir.Some? ==>
      r == Ok(Path(configDir.value.absolute, configDir.value.comps + ["kaguya", "config.toml"]))
  {
    DefaultedPath(path, configDir, DefaultConfigDir, DefaultConfigFile,
      PathNotFound("Could not find local data directory."))
  }

  /** `get_vault_dir`: the explicit path, else `<local data dir>/kaguya/vault`. */
  function GetVaultDir(path: Option<Path>, dataLocalDir: Option<Path>): (r: Result<Path>)
    ensures path.Some? ==> r == Ok(path.value)
    ensures path.None? && dataLocalDir.None? ==> r.Err? && r.error.PathNotFound?
    ensures path.None? && dataLocalDir.Some? ==>
      r == Ok(Path(dataLocalDir.value.absolute, dataLocalDir.value.comps + ["kaguya", "vault"]))
  {
    DefaultedPath(path, dataLocalDir, DefaultVaultDir, DefaultVaultSubdir,
      PathNotFound("Could not find local data directory."))
  }

  /** Index of the first game with the id, as `iter().find` visits them. */
  function FirstWithId(games: seq<GameConfig>, id: string): (r: Option<nat>)
    ensures r.Some? ==> r.value < |games| && games[r.value].id == id
    ensures r.Some? ==> forall j :: 0 <= j < r.value ==> games[j].id != id
    ensures r.None? <==> forall j :: 0 <= j < |games| ==> games[j].id != id
  {
    if |games| == 0 then None
    else if games[0].id == id then Some(0)
    else match FirstWithId(games[1..], id)
      case None => None
      case Some(k) => Some(k + 1)
  }

  /** `find_game_mut`: the position of the first matching game (a mutable borrow of it). */
  function FindGameMut(games: seq<GameConfig>, id: string): (r: Option<nat>)
    ensures r.Some? ==> r.value < |games| && games[r.value].id == id
    ensures r.Some? ==> forall j :: 0 <= j < r.value ==> games[j].id != id
    ensures r.None? <==> forall j :: 0 <= j < |games| ==> games[j].id != id
  {
    FirstWithId(games, id)
  }

  /** `find_game_ref`: the first game whose id matches, or `None`. */
  function FindGameRef(games: seq<GameConfig>, id: string): (r: Option<GameConfig>)
    ensures r.Some? ==> r.value.id == id
    ensures r.Some? ==> exists k :: 0 <= k < |games| && games[k] == r.value && (forall j :: 0 <= j < k ==> games[j].id != id)
    ensures r.None? <==> forall j :: 0 <= j < |games| ==> games[j].id != id
  {
    match FirstWithId(games, id)
    case None => None
    case Some(k) => Some(games[k])
  }
}
