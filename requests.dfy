/** Request values built by the command line layer (src/models/requests.rs). */
module Requests {
  import opened Wrappers
  import opened StdPath

  /** `config add`: an id, and optionally a name, paths and a comment. */
  datatype AddGameRequest = AddGameRequest(id: string, name: Option<string>, paths: Option<seq<Path>>, comment: Option<string>)

  /** `vault backup`: an optional game id and optional explicit paths. */
  datatype BackupRequest = BackupRequest(id: Option<string>, paths: Option<seq<Path>>)
}
