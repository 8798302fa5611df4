/** The vault config entries of src/models/vault_config.rs, read by the index synchronisation. */
module VaultConfigs {
  import opened Wrappers
  import opened StdPath
  import opened Requests
  import GameConfigs

  type i64 = x: int | -0x8000_0000_0000_0000 <= x < 0x8000_0000_0000_0000

  /** One game of the vault config; here `name` is mandatory. */
  datatype GameConfig = GameConfig(id: string, name: string, paths: seq<Path>, comment: Option<string>, keepVersions: Option<i64>)

  datatype VaultConfig = VaultConfig(games: seq<GameConfig>)

  function NameOrId(request: AddGameRequest): string {
    match request.name
    case Some(n) => n
    case None => request.id
  }

  /** `impl From<&AddGameRequest> for GameConfig`. */
  function FromRef(request: AddGameRequest): (g: GameConfig)
    ensures g.id == request.id
    ensures request.name.Some? ==> g.name == request.name.value
    ensures request.name.None? ==> g.name == request.id
    ensures request.paths.Some? ==> g.paths == request.paths.value
    ensures request.paths.None? ==> g.paths == []
    ensures g.comment == request.comment && g.keepVersions.None?
  {
    GameConfig(
      request.id,
      NameOrId(request),
      match request.paths case Some(ps) => ps case None => [],
      request.comment,
      None)
  }

  /** `impl From<AddGameRequest> for GameConfig` (by value). */
  function FromOwned(request: AddGameRequest): (g: GameConfig)
    ensures g.id == request.id
    ensures request.name.Some? ==> g.name == request.name.value
    ensures request.name.None? ==> g.name == request.id
    ensures request.paths.Some? ==> g.paths == request.paths.value
    ensures request.paths.None? ==> g.paths == []
    ensures g.comment == request.comment && g.keepVersions.None?
  {
    var name := if request.name.Some? then request.name.value else request.id;
    var paths := if request.paths.Some? then request.paths.value else [];
    GameConfig(request.id, name, paths, request.comment, None)
  }

  /** Borrowing or moving the request makes no difference to the entry. */
  lemma FromRefIsFromOwned(request: AddGameRequest)
    ensures FromRef(request) == FromOwned(request)
  {
  }

  /**
   * The two config models agree on everything but the name, which the
   * vault config defaults to the id while the games file leaves it absent.
   */
  lemma FromRequestAgrees(request: AddGameRequest)
    ensures FromRef(request).id == GameConfigs.FromRequest(request).id
    ensures FromRef(request).paths == GameConfigs.FromRequest(request).paths
    ensures FromRef(request).comment == GameConfigs.FromRequest(request).comment
    ensures GameConfigs.FromRequest(request).name.Some? ==> FromRef(request).name == GameConfigs.FromRequest(request).name.value
    ensures GameConfigs.FromRequest(request).name.None? ==> FromRef(request).name == request.id
  {
  }

  /** The set of game ids of a vault config. */
  function IdSet(config: VaultConfig): (r: set<string>)
    ensures forall id :: id in r <==> exists i :: 0 <= i < |config.games| && config.games[i].id == id
  {
    set i | 0 <= i < |config.games| :: config.games[i].id
  }
}
