/**
 * `VaultService::backup` of src/core/services/vault.rs over the file tree.
 * Archiving a path is the parameter `compress`: from the tree, the source
 * path and the archive target it gives the new tree or an error. The clock
 * is the parameter `clock`: `clock(k)` is the time string
 * (`%Y-%m-%d_%H-%M-%S`) read by the k-th game backup. Paths are resolved
 * from the root of the tree.
 */
module VaultService {
  import opened Wrappers
  import opened StdPath
  import opened FileTree
  import opened Requests
  import opened GameConfigs
  import PathUtil

  const ArchiveSuffix := ".tar.gz"

  /** The file system after a backup step, what it returned, and how many archives it wrote. */
  datatype Outcome = Outcome(fs: Node, result: Result<()>, written: nat)

  /** `<vault>/<game id>/<time>`. */
  function VersionDir(vault: Path, id: string, time: string): Path {
    Join(Join(vault, Parse(id)), Parse(time))
  }

  /** The final component of a source path, or the empty string for paths such as the root. */
  function LeafOrEmpty(source: Path): string {
    match PathUtil.GetFileName(source)
    case Some(leaf) => leaf
    case None => ""
  }

  /** Where the archive of `source` goes: one component `<leaf>.tar.gz` below the version directory. */
  function ArchiveTarget(versionDir: Path, source: Path): (r: Path)
    ensures r.absolute == versionDir.absolute
    ensures r.comps == versionDir.comps + [LeafOrEmpty(source) + ArchiveSuffix]
  {
    Join(versionDir, Path(false, [LeafOrEmpty(source) + ArchiveSuffix]))
  }

  /** The loop over a game's paths: archive each in order, stopping at the first error. */
  function CompressAll(fs: Node, sources: seq<Path>, versionDir: Path,
                       compress: (Node, Path, Path) -> Result<Node>): (o: Outcome)
    ensures o.written <= |sources|
    ensures o.result.Ok? <==> o.written == |sources|
    decreases |sources|
  {
    if |sources| == 0 then Outcome(fs, Ok(()), 0)
    else match compress(fs, sources[0], ArchiveTarget(versionDir, sources[0]))
      case Err(e) => Outcome(fs, Err(e), 0)
      case Ok(next) =>
        var rest := CompressAll(next, sources[1..], versionDir, compress);
        Outcome(rest.fs, rest.result, rest.written + 1)
  }

  /** `backup_single_game`: create the version directory, then archive every path into it. */
  function BackupGame(fs: Node, vault: Path, game: GameConfig, time: string,
                      compress: (Node, Path, Path) -> Result<Node>): (o: Outcome)
  {
    var dir := VersionDir(vault, game.id, time);
    match CreateDirAll(fs, dir.comps)
    case Err(e) => Outcome(fs, Err(e), 0)
    case Ok(created) => CompressAll(created, game.paths, dir, compress)
  }

  /** The loop over all games: back up each in order, stopping at the first error. */
  function BackupAll(fs: Node, games: seq<GameConfig>, vault: Path, clock: nat -> string, k: nat,
                     compress: (Node, Path, Path) -> Result<Node>): (o: Outcome)
    decreases |games|
  {
    if |games| == 0 then Outcome(fs, Ok(()), 0)
    else
      var first := BackupGame(fs, vault, games[0], clock(k), compress);
      if first.result.Err? then first
      else
        var rest := BackupAll(first.fs, games[1..], vault, clock, k + 1, compress);
        Outcome(rest.fs, rest.result, first.written + rest.written)
  }

  /** Two sources with the same final component are archived to the same target, and only they are. */
  lemma SameTargetIffSameLeaf(versionDir: Path, a: Path, b: Path)
    ensures ArchiveTarget(versionDir, a) == ArchiveTarget(versionDir, b) <==> LeafOrEmpty(a) == LeafOrEmpty(b)
  {
    var ta, tb := ArchiveTarget(versionDir, a), ArchiveTarget(versionDir, b);
    if ta == tb {
      assert ta.comps[|versionDir.comps|] == LeafOrEmpty(a) + ArchiveSuffix;
      assert tb.comps[|versionDir.comps|] == LeafOrEmpty(b) + ArchiveSuffix;
      SuffixCancel(LeafOrEmpty(a), LeafOrEmpty(b), ArchiveSuffix);
    }
  }

  lemma SuffixCancel(x: string, y: string, s: string)
    requires x + s == y + s
    ensures x == y
  {
    assert x == (x + s)[..|x|];
    assert |x| == |y|;
    assert y == (y + s)[..|y|];
  }

  /** Archiving `a + b` is archiving `a`, then, if that succeeded, archiving `b` from where it left the tree. */
  lemma {:induction false} CompressAllAppend(fs: Node, a: seq<Path>, b: seq<Path>, versionDir: Path,
                                             compress: (Node, Path, Path) -> Result<Node>)
    ensures var first := CompressAll(fs, a, versionDir, compress);
      CompressAll(fs, a + b, versionDir, compress) ==
        if first.result.Err? then first
        else
          var rest := CompressAll(first.fs, b, versionDir, compress);
          Outcome(rest.fs, rest.result, first.written + rest.written)
    decreases |a|
  {
    if |a| == 0 {
      assert a + b == b;
    } else {
      assert (a + b)[0] == a[0];
      assert (a + b)[1..] == a[1..] + b;
      match compress(fs, a[0], ArchiveTarget(versionDir, a[0]))
      case Err(_) =>
      case Ok(next) => CompressAllAppend(next, a[1..], b, versionDir, compress);
    }
  }

  /** When every archive call succeeds, every path of the game is archived. */
  lemma {:induction false} CompressAllTotal(fs: Node, sources: seq<Path>, versionDir: Path,
                                            compress: (Node, Path, Path) -> Result<Node>)
    requires forall t: Node, s: Path, d: Path :: compress(t, s, d).Ok?
    ensures CompressAll(fs, sources, versionDir, compress).result == Ok(())
    decreases |sources|
  {
    if |sources| > 0 {
      var next := compress(fs, sources[0], ArchiveTarget(versionDir, sources[0])).value;
      CompressAllTotal(next, sources[1..], versionDir, compress);
    }
  }

  /**
   * No archive is written unless the version directory was created first; a
   * failure to create it changes nothing.
   */
  lemma BackupGameCreatesFirst(fs: Node, vault: Path, game: GameConfig, time: string,
                               compress: (Node, Path, Path) -> Result<Node>)
    ensures var o := BackupGame(fs, vault, game, time, compress);
      var created := CreateDirAll(fs, VersionDir(vault, game.id, time).comps);
      (created.Err? ==> o == Outcome(fs, Err(created.error), 0)) &&
      (created.Ok? ==> IsDirAt(created.value, VersionDir(vault, game.id, time).comps) &&
                       o == CompressAll(created.value, game.paths, VersionDir(vault, game.id, time), compress))
  {
    var created := CreateDirAll(fs, VersionDir(vault, game.id, time).comps);
    if created.Ok? {
      CreateDirAllMakesDir(fs, VersionDir(vault, game.id, time).comps);
    }
  }

  /** The number of paths over all games. */
  function PathCount(games: seq<GameConfig>): nat
    decreases |games|
  {
    if |games| == 0 then 0 else |games[0].paths| + PathCount(games[1..])
  }

  /** A backup of all games writes at most one archive per path, and exactly one per path when it succeeds. */
  lemma {:induction false} BackupAllWritten(fs: Node, games: seq<GameConfig>, vault: Path, clock: nat -> string, k: nat,
                                            compress: (Node, Path, Path) -> Result<Node>)
    ensures var o := BackupAll(fs, games, vault, clock, k, compress);
      o.written <= PathCount(games) && (o.result.Ok? ==> o.written == PathCount(games))
    decreases |games|
  {
    if |games| > 0 {
      var first := BackupGame(fs, vault, games[0], clock(k), compress);
      if first.result.Ok? {
        BackupAllWritten(first.fs, games[1..], vault, clock, k + 1, compress);
      }
    }
  }

  /** `backup_single_game`. */
  method BackupSingleGame(fs: Node, vault: Path, game: GameConfig, time: string,
                          compress: (Node, Path, Path) -> Result<Node>)
      returns (fs': Node, r: Result<()>, written: nat)
    ensures Outcome(fs', r, written) == BackupGame(fs, vault, game, time, compress)
  {
    var dir := VersionDir(vault, game.id, time);
    var created := CreateDirAll(fs, dir.comps);
    if created.Err? {
      return fs, Err(created.error), 0;
    }
    fs' := created.value;
    written := 0;
    var i := 0;
    while i < |game.paths|
      invariant 0 <= i <= |game.paths| && written == i
      invariant var whole := CompressAll(created.value, game.paths, dir, compress);
        var rest := CompressAll(fs', game.paths[i..], dir, compress);
        whole == Outcome(rest.fs, rest.result, rest.written + written)
    {
      var source := game.paths[i];
      var target := ArchiveTarget(dir, source);
      assert game.paths[i..][1..] == game.paths[i + 1..];
      var archived := compress(fs', source, target);
      if archived.Err? {
        return fs', Err(archived.error), written;
      }
      fs' := archived.value;
      written := written + 1;
      i := i + 1;
    }
    assert game.paths[i..] == [];
    r := Ok(());
  }

  /** `VaultService::backup`: dispatch on the request. */
  method Backup(fs: Node, loaded: Result<GamesFile>, vault: Path, request: BackupRequest,
                clock: nat -> string, compress: (Node, Path, Path) -> Result<Node>)
      returns (fs': Node, r: Result<()>)
    ensures loaded.Err? ==> fs' == fs && r == Err(loaded.error)
    ensures loaded.Ok? && request.id.Some? && request.paths.Some? ==>
      fs' == fs && r.Err? && r.error.Panic?
    ensures loaded.Ok? && request.id.Some? && request.paths.None? &&
            PathUtil.FindGameRef(loaded.value.games, request.id.value).None? ==>
      fs' == fs && r == Err(GameNotFound(request.id.value))
    ensures loaded.Ok? && request.id.Some? && request.paths.None? &&
            PathUtil.FindGameRef(loaded.value.games, request.id.value).Some? ==>
      var o := BackupGame(fs, vault, PathUtil.FindGameRef(loaded.value.games, request.id.value).value, clock(0), compress);
      fs' == o.fs && r == o.result
    ensures loaded.Ok? && request.id.None? ==>
      var o := BackupAll(fs, loaded.value.games, vault, clock, 0, compress);
      fs' == o.fs && r == o.result
  {
    if loaded.Err? {
      return fs, Err(loaded.error);
    }
    var games := loaded.value.games;
    if request.id.Some? {
      if request.paths.Some? {
        return fs, Err(Panic("not yet implemented: Todo: with '--paths'"));
      }
      var game := PathUtil.FindGameRef(games, request.id.value);
      if game.None? {
        return fs, Err(GameNotFound(request.id.value));
      }
      var written;
      fs', r, written := BackupSingleGame(fs, vault, game.value, clock(0), compress);
      return;
    }
    fs' := fs;
    var i := 0;
    while i < |games|
      invariant 0 <= i <= |games|
      invariant BackupAll(fs, games, vault, clock, 0, compress).result ==
        BackupAll(fs', games[i..], vault, clock, i, compress).result
      invariant BackupAll(fs, games, vault, clock, 0, compress).fs ==
        BackupAll(fs', games[i..], vault, clock, i, compress).fs
    {
      assert games[i..][0] == games[i];
      assert games[i..][1..] == games[i + 1..];
      var done, written;
      done, r, written := BackupSingleGame(fs', vault, games[i], clock(i), compress);
      if r.Err? {
        return done, r;
      }
      fs' := done;
      i := i + 1;
    }
    assert games[i..] == [];
    r := Ok(());
  }
}
