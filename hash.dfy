/**
 * Content checksums (src/fs_utils/hash.rs): SHA-256 of a file's bytes, and
 * for a directory SHA-256 over its files' relative paths and hashes in
 * sorted order, both written as lowercase hexadecimal.
 *
 * SHA-256 itself is a parameter `sha`: any function from bytes to 32 bytes.
 */
module Hash {
  import opened Wrappers
  import opened StdPath
  import opened FileTree
  import opened BTreeMap

  type Digest = d: seq<byte> | |d| == 32 witness seq(32, i => 0)

  predicate IsHexChar(c: char) {
    '0' <= c <= '9' || 'a' <= c <= 'f'
  }

  /** A checksum as the core prints it: 64 lowercase hexadecimal digits. */
  predicate IsHexDigest(s: string) {
    |s| == 64 && forall i :: 0 <= i < |s| ==> IsHexChar(s[i])
  }

  function HexDigit(n: nat): (c: char)
    requires n < 16
    ensures IsHexChar(c)
  {
    if n < 10 then ('0' as int + n) as char else ('a' as int + n - 10) as char
  }

  /** `hex::encode`: two lowercase digits per byte, high nibble first. */
  function Hex(d: seq<byte>): (r: string)
    ensures |r| == 2 * |d|
    ensures forall i :: 0 <= i < |r| ==> IsHexChar(r[i])
  {
    if |d| == 0 then [] else [HexDigit(d[0] / 16), HexDigit(d[0] % 16)] + Hex(d[1..])
  }

  function DigitValue(c: char): nat {
    if '0' <= c <= '9' then c as nat - '0' as nat
    else if 'a' <= c <= 'f' then c as nat - 'a' as nat + 10
    else 0
  }

  /** Reads a string of hexadecimal digit pairs back into bytes. */
  function Unhex(s: string): seq<byte>
    requires |s| % 2 == 0
    decreases |s|
  {
    if |s| == 0 then []
    else
      var b := 16 * DigitValue(s[0]) + DigitValue(s[1]);
      [if b < 256 then b else 0] + Unhex(s[2..])
  }

  /** Distinct digests print differently: the encoding loses nothing. */
  lemma {:induction false} UnhexHex(d: seq<byte>)
    ensures Unhex(Hex(d)) == d
    decreases |d|
  {
    if |d| > 0 {
      var h := Hex(d);
      assert DigitValue(HexDigit(d[0] / 16)) == d[0] / 16;
      assert DigitValue(HexDigit(d[0] % 16)) == d[0] % 16;
      assert h[2..] == Hex(d[1..]);
      UnhexHex(d[1..]);
      assert d == [d[0]] + d[1..];
    }
  }

  /** `str::as_bytes`: the UTF-8 encoding of one character. */
  function EncodeChar(c: char): (r: seq<byte>)
    ensures 1 <= |r| <= 4
    ensures (c as int < 0x80) <==> |r| == 1
  {
    var n := c as int;
    if n < 0x80 then [n]
    else if n < 0x800 then [0xC0 + n / 0x40, 0x80 + n % 0x40]
    else if n < 0x1_0000 then [0xE0 + n / 0x1000, 0x80 + (n / 0x40) % 0x40, 0x80 + n % 0x40]
    else [0xF0 + n / 0x4_0000, 0x80 + (n / 0x1000) % 0x40, 0x80 + (n / 0x40) % 0x40, 0x80 + n % 0x40]
  }

  function Utf8(s: string): seq<byte>
    decreases |s|
  {
    if |s| == 0 then [] else EncodeChar(s[0]) + Utf8(s[1..])
  }

  /**
   * `BufReader::read` into the buffer: some bytes of what is left, at least
   * one unless the end has been reached, at most the buffer's length.
   */
  method Read(content: seq<byte>, pos: nat, buffer: array<byte>) returns (n: nat)
    requires pos <= |content| && buffer.Length > 0
    modifies buffer
    ensures pos + n <= |content| && n <= buffer.Length
    ensures n == 0 <==> pos == |content|
    ensures buffer[..n] == content[pos..pos + n]
  {
    if pos == |content| {
      n := 0;
    } else {
      assert 0 < 1 <= buffer.Length && pos + 1 <= |content|;
      n :| 0 < n <= buffer.Length && pos + n <= |content|;
    }
    var i := 0;
    while i < n
      invariant 0 <= i <= n
      invariant buffer[..i] == content[pos..pos + i]
    {
      buffer[i] := content[pos + i];
      i := i + 1;
    }
  }

  /**
   * `calculate_file_hash` once the file is open: feed the reads from an 8 KiB
   * buffer into the hasher until a read returns nothing. Whatever sizes the
   * reads come in, the digest is that of the whole content.
   */
  method HashReader(content: seq<byte>, sha: seq<byte> -> Digest) returns (hash: string)
    ensures hash == Hex(sha(content))
    ensures IsHexDigest(hash)
  {
    var buffer := new byte[8192];
    var absorbed: seq<byte> := [];
    var pos := 0;
    while true
      invariant pos <= |content| && absorbed == content[..pos]
      decreases |content| - pos
    {
      var bytesRead := Read(content, pos, buffer);
      if bytesRead == 0 {
        break;
      }
      absorbed := absorbed + buffer[..bytesRead];
      assert content[..pos + bytesRead] == content[..pos] + content[pos..pos + bytesRead];
      pos := pos + bytesRead;
    }
    assert content[..pos] == content;
    hash := Hex(sha(absorbed));
  }

  /** What opening and reading the entry at `p` gives: a file's content, or an I/O error. */
  function FileHash(fs: Node, p: seq<string>, sha: seq<byte> -> Digest): (r: Result<string>)
    ensures r.Ok? <==> Lookup(fs, p).Some? && Lookup(fs, p).value.File?
    ensures r.Ok? ==> r.value == Hex(sha(Lookup(fs, p).value.content)) && IsHexDigest(r.value)
    ensures r.Err? ==> r.error.Io?
  {
    match Lookup(fs, p)
    case Some(File(c)) => Ok(Hex(sha(c)))
    case Some(Dir(_)) => Err(Io("Is a directory"))
    case _ => Err(Io("No such file or directory"))
  }

  /** `calculate_file_hash`: open the file at `p` and hash it chunk by chunk. */
  method CalculateFileHash(fs: Node, p: seq<string>, sha: seq<byte> -> Digest) returns (r: Result<string>)
    ensures r == FileHash(fs, p, sha)
  {
    match Lookup(fs, p)
    case Some(File(c)) =>
      var h := HashReader(c, sha);
      r := Ok(h);
    case Some(Dir(_)) =>
      r := Err(Io("Is a directory"));
    case _ =>
      r := Err(Io("No such file or directory"));
  }

  /** The paths, relative to `n`, of the regular files in the tree `n`. */
  function FilePaths(n: Node): set<seq<string>> {
    match n
    case File(_) => {[]}
    case Other => {}
    case Dir(ch) => set k, p | k in ch && p in FilePaths(ch[k]) :: [k] + p
  }

  function FileContent(n: Node, p: seq<string>): seq<byte> {
    match Lookup(n, p)
    case Some(File(c)) => c
    case _ => []
  }

  lemma {:induction false} FilePathsValid(n: Node)
    requires WellNamed(n)
    ensures forall p :: p in FilePaths(n) ==> ValidComponents(p)
  {
    match n
    case Dir(ch) =>
      forall p | p in FilePaths(n) ensures ValidComponents(p) {
        var k, q :| k in ch && q in FilePaths(ch[k]) && p == [k] + q;
        FilePathsValid(ch[k]);
        assert ValidComponents(q);
      }
    case _ =>
  }

  lemma JoinNonEmpty(cs: seq<string>)
    requires |cs| > 0 && ValidComponents(cs)
    ensures |JoinComps(cs)| > 0
  {
    assert ValidComponent(cs[0]);
  }

  /** Joining valid components with the separator can be undone. */
  lemma JoinInjective()
    ensures forall a, b :: ValidComponents(a) && ValidComponents(b) && JoinComps(a) == JoinComps(b) ==> a == b
  {
    forall a, b | ValidComponents(a) && ValidComponents(b) && JoinComps(a) == JoinComps(b) ensures a == b {
      if |a| > 0 { JoinNonEmpty(a); SplitJoin(a); }
      if |b| > 0 { JoinNonEmpty(b); SplitJoin(b); }
    }
  }

  /** Below a fixed `rel`, distinct valid relative paths give distinct keys. */
  lemma KeysInjective(rel: seq<string>, ps: set<seq<string>>)
    requires ValidComponents(rel) && forall p :: p in ps ==> ValidComponents(p)
    ensures forall p1, p2 :: p1 in ps && p2 in ps && JoinComps(rel + p1) == JoinComps(rel + p2) ==> p1 == p2
  {
    JoinInjective();
    forall p1, p2 | p1 in ps && p2 in ps && JoinComps(rel + p1) == JoinComps(rel + p2) ensures p1 == p2 {
      ValidAppend(rel, p1);
      ValidAppend(rel, p2);
      assert p1 == (rel + p1)[|rel|..] && p2 == (rel + p2)[|rel|..];
    }
  }

  /** Each file path in `ps` under `rel`, joined with `/`, to the hex SHA-256 of the file at that path below `n`. */
  ghost function HashMap(ps: set<seq<string>>, n: Node, rel: seq<string>, sha: seq<byte> -> Digest): map<string, string>
    requires ValidComponents(rel) && forall p :: p in ps ==> ValidComponents(p)
  {
    KeysInjective(rel, ps);
    map p | p in ps :: JoinComps(rel + p) := Hex(sha(FileContent(n, p)))
  }

  lemma HashMapAt(ps: set<seq<string>>, n: Node, rel: seq<string>, sha: seq<byte> -> Digest, p: seq<string>)
    requires ValidComponents(rel) && forall p :: p in ps ==> ValidComponents(p)
    requires p in ps
    ensures JoinComps(rel + p) in HashMap(ps, n, rel, sha)
    ensures HashMap(ps, n, rel, sha)[JoinComps(rel + p)] == Hex(sha(FileContent(n, p)))
  {
    KeysInjective(rel, ps);
  }

  lemma HashMapKey(ps: set<seq<string>>, n: Node, rel: seq<string>, sha: seq<byte> -> Digest, k: string)
    requires ValidComponents(rel) && forall p :: p in ps ==> ValidComponents(p)
    requires k in HashMap(ps, n, rel, sha)
    ensures exists p :: p in ps && JoinComps(rel + p) == k
  {
  }

  lemma HashMapMissing(ps: set<seq<string>>, n: Node, rel: seq<string>, sha: seq<byte> -> Digest, k: string)
    requires ValidComponents(rel) && forall p :: p in ps ==> ValidComponents(p)
    requires forall p :: p in ps ==> JoinComps(rel + p) != k
    ensures k !in HashMap(ps, n, rel, sha)
  {
  }

  /**
   * The map `collect_hashes_recursive` builds for the tree `n` sitting at
   * `rel` below the root: each file's relative path, components joined
   * with `/`, to the hex SHA-256 of its content.
   */
  ghost function FileHashes(n: Node, rel: seq<string>, sha: seq<byte> -> Digest): map<string, string>
    requires WellNamed(n) && ValidComponents(rel)
  {
    FilePathsValid(n);
    HashMap(FilePaths(n), n, rel, sha)
  }

  /** The files of a directory that lie under the children named in `done`. */
  ghost function PathsAmong(n: Node, done: set<string>): set<seq<string>> {
    set p | p in FilePaths(n) && |p| > 0 && p[0] in done
  }

  lemma PathsAmongMember(n: Node, done: set<string>, p: seq<string>)
    ensures p in PathsAmong(n, done) <==> p in FilePaths(n) && |p| > 0 && p[0] in done
  {
  }

  lemma PathsAmongValid(n: Node, done: set<string>)
    requires WellNamed(n)
    ensures forall p :: p in PathsAmong(n, done) ==> ValidComponents(p)
  {
    FilePathsValid(n);
  }

  /** Those entries of `FileHashes` that lie under the children named in `done`. */
  ghost function FilesAmong(n: Node, done: set<string>, rel: seq<string>, sha: seq<byte> -> Digest): map<string, string>
    requires WellNamed(n) && ValidComponents(rel)
  {
    PathsAmongValid(n, done);
    HashMap(PathsAmong(n, done), n, rel, sha)
  }

  /** The files of a directory are the files of its children, one step further down. */
  lemma DirFilePaths(ch: map<string, Node>, p: seq<string>)
    ensures p in FilePaths(Dir(ch)) <==> |p| > 0 && p[0] in ch && p[1..] in FilePaths(ch[p[0]])
    ensures |p| > 0 && p[0] in ch ==> FileContent(Dir(ch), p) == FileContent(ch[p[0]], p[1..])
  {
    if |p| > 0 && p[0] in ch && p[1..] in FilePaths(ch[p[0]]) {
      assert p == [p[0]] + p[1..];
    }
    if p in FilePaths(Dir(ch)) {
      var k, q :| k in ch && q in FilePaths(ch[k]) && p == [k] + q;
      assert p[1..] == q;
    }
  }

  lemma FilesAmongNone(n: Node, rel: seq<string>, sha: seq<byte> -> Digest)
    requires WellNamed(n) && ValidComponents(rel)
    ensures FilesAmong(n, {}, rel, sha) == map[]
  {
    assert PathsAmong(n, {}) == {};
  }

  lemma FilesAmongAll(n: Node, rel: seq<string>, sha: seq<byte> -> Digest)
    requires n.Dir? && WellNamed(n) && ValidComponents(rel)
    ensures FilesAmong(n, n.children.Keys, rel, sha) == FileHashes(n, rel, sha)
  {
    forall p | p in FilePaths(n) ensures |p| > 0 && p[0] in n.children.Keys {
      DirFilePaths(n.children, p);
    }
    assert PathsAmong(n, n.children.Keys) == FilePaths(n);
  }

  /** Paths that part at the step after `rel` give different keys. */
  lemma KeysPart(rel: seq<string>, a: seq<string>, b: seq<string>)
    requires ValidComponents(rel) && ValidComponents(a) && ValidComponents(b)
    requires |a| > 0 && |b| > 0 && a[0] != b[0]
    ensures JoinComps(rel + a) != JoinComps(rel + b)
  {
    JoinInjective();
    ValidAppend(rel, a);
    ValidAppend(rel, b);
    assert (rel + a)[|rel|] == a[0] && (rel + b)[|rel|] == b[0];
  }

  /** No file below the child `name` has the key of a path through another child. */
  lemma KeysOutside(rel: seq<string>, name: string, ps: set<seq<string>>, p: seq<string>)
    requires ValidComponents(rel) && ValidComponent(name) && forall q :: q in ps ==> ValidComponents(q)
    requires ValidComponents(p) && |p| > 0 && p[0] != name
    ensures forall q :: q in ps ==> JoinComps(rel + [name] + q) != JoinComps(rel + p)
  {
    forall q | q in ps ensures JoinComps(rel + [name] + q) != JoinComps(rel + p) {
      AppendAssoc(rel, [name], q);
      assert ValidComponents([name] + q) by { ValidAppend([name], q); }
      KeysPart(rel, [name] + q, p);
    }
  }

  lemma StepForward(n: Node, done: set<string>, name: string, rel: seq<string>, sha: seq<byte> -> Digest, k: string)
    requires n.Dir? && WellNamed(n) && ValidComponents(rel)
    requires name in n.children && name !in done
    requires ValidComponents(rel + [name]) && WellNamed(n.children[name])
    requires k in FilesAmong(n, done + {name}, rel, sha)
    ensures k in FilesAmong(n, done, rel, sha) + FileHashes(n.children[name], rel + [name], sha)
    ensures FilesAmong(n, done + {name}, rel, sha)[k]
         == (FilesAmong(n, done, rel, sha) + FileHashes(n.children[name], rel + [name], sha))[k]
  {
    var ch := n.children;
    var sub := rel + [name];
    FilePathsValid(n);
    FilePathsValid(ch[name]);
    var P, PA, PB := PathsAmong(n, done + {name}), PathsAmong(n, done), FilePaths(ch[name]);
    PathsAmongValid(n, done);
    PathsAmongValid(n, done + {name});
    HashMapKey(P, n, rel, sha, k);
    var p :| p in P && JoinComps(rel + p) == k;
    DirFilePaths(ch, p);
    HashMapAt(P, n, rel, sha, p);
    var q := p[1..];
    if p[0] == name {
      HeadTail(p);
      AppendAssoc(rel, [name], q);
      HashMapAt(PB, ch[name], sub, sha, q);
      UnionAt(HashMap(PA, n, rel, sha), HashMap(PB, ch[name], sub, sha), k);
    } else {
      PathsAmongMember(n, done, p);
      PathsAmongMember(n, done + {name}, p);
      InOther(p[0], done, name);
      HashMapAt(PA, n, rel, sha, p);
      KeysOutside(rel, name, PB, p);
      HashMapMissing(PB, ch[name], sub, sha, k);
      UnionAt(HashMap(PA, n, rel, sha), HashMap(PB, ch[name], sub, sha), k);
    }
  }

  lemma StepBackward(n: Node, done: set<string>, name: string, rel: seq<string>, sha: seq<byte> -> Digest, k: string)
    requires n.Dir? && WellNamed(n) && ValidComponents(rel)
    requires name in n.children && name !in done
    requires ValidComponents(rel + [name]) && WellNamed(n.children[name])
    requires k in FilesAmong(n, done, rel, sha) + FileHashes(n.children[name], rel + [name], sha)
    ensures k in FilesAmong(n, done + {name}, rel, sha)
  {
    var ch := n.children;
    var sub := rel + [name];
    FilePathsValid(n);
    FilePathsValid(ch[name]);
    var P, PA, PB := PathsAmong(n, done + {name}), PathsAmong(n, done), FilePaths(ch[name]);
    PathsAmongValid(n, done);
    PathsAmongValid(n, done + {name});
    if k in HashMap(PB, ch[name], sub, sha) {
      HashMapKey(PB, ch[name], sub, sha, k);
      var q :| q in PB && JoinComps(sub + q) == k;
      var p := [name] + q;
      assert p[1..] == q;
      DirFilePaths(ch, p);
      AppendAssoc(rel, [name], q);
      HashMapAt(P, n, rel, sha, p);
    } else {
      HashMapKey(PA, n, rel, sha, k);
      var p :| p in PA && JoinComps(rel + p) == k;
      HashMapAt(P, n, rel, sha, p);
    }
  }

  /** Taking one more child adds exactly the files below that child. */
  lemma FilesAmongStep(n: Node, done: set<string>, name: string, rel: seq<string>, sha: seq<byte> -> Digest)
    requires n.Dir? && WellNamed(n) && ValidComponents(rel)
    requires name in n.children && name !in done
    ensures ValidComponents(rel + [name]) && WellNamed(n.children[name])
    ensures FilesAmong(n, done + {name}, rel, sha)
         == FilesAmong(n, done, rel, sha) + FileHashes(n.children[name], rel + [name], sha)
  {
    ValidAppend(rel, [name]);
    var L := FilesAmong(n, done + {name}, rel, sha);
    var R := FilesAmong(n, done, rel, sha) + FileHashes(n.children[name], rel + [name], sha);
    forall k | k in L ensures k in R && L[k] == R[k] {
      StepForward(n, done, name, rel, sha, k);
    }
    forall k | k in R ensures k in L {
      StepBackward(n, done, name, rel, sha, k);
    }
    MapExt(L, R);
  }

  /*
   * Facts of sequence, set and map algebra, each stated as a lemma of its own
   * so that KeysOutside, StepForward, StepBackward and CollectStep can use one
   * without also having in view the axioms the solver needs to prove it.
   */
  lemma AppendAssoc(a: seq<string>, b: seq<string>, c: seq<string>)
    ensures a + (b + c) == (a + b) + c
  {
  }

  lemma HeadTail(p: seq<string>)
    requires |p| > 0
    ensures p == [p[0]] + p[1..]
  {
  }

  lemma InOther(x: string, s: set<string>, y: string)
    requires x in s + {y} && x != y
    ensures x in s
  {
  }

  lemma UnionAssoc(m: map<string, string>, a: map<string, string>, b: map<string, string>)
    ensures (m + a) + b == m + (a + b)
  {
  }

  lemma ValidAppend(a: seq<string>, b: seq<string>)
    requires ValidComponents(a) && ValidComponents(b)
    ensures ValidComponents(a + b)
  {
    assert forall i :: |a| <= i < |a + b| ==> (a + b)[i] == b[i - |a|];
  }

  lemma UnionAt(A: map<string, string>, B: map<string, string>, k: string)
    ensures k in B ==> k in A + B && (A + B)[k] == B[k]
    ensures k !in B && k in A ==> k in A + B && (A + B)[k] == A[k]
  {
  }

  /** Map equality from its two halves, proved where nothing else is in view. */
  lemma MapExt(L: map<string, string>, R: map<string, string>)
    requires forall k | k in L :: k in R && L[k] == R[k]
    requires forall k | k in R :: k in L
    ensures L == R
  {
  }

  lemma FileHashesOfFile(c: seq<byte>, rel: seq<string>, sha: seq<byte> -> Digest)
    requires ValidComponents(rel)
    ensures FileHashes(File(c), rel, sha) == map[JoinComps(rel) := Hex(sha(c))]
  {
    assert FilePaths(File(c)) == {[]};
    assert rel + [] == rel;
    HashMapAt({[]}, File(c), rel, sha, []);
    forall k | k in FileHashes(File(c), rel, sha) ensures k == JoinComps(rel) {
      HashMapKey({[]}, File(c), rel, sha, k);
    }
    MapExt(FileHashes(File(c), rel, sha), map[JoinComps(rel) := Hex(sha(c))]);
  }

  lemma FileHashesOfOther(rel: seq<string>, sha: seq<byte> -> Digest)
    requires ValidComponents(rel)
    ensures FileHashes(Other, rel, sha) == map[]
  {
    assert FilePaths(Other) == {};
  }

  /**
   * `collect_hashes_recursive(root, current_dir, acc)` for the directory `n`
   * at `rel` below the root: every regular file below it is inserted into
   * `acc` under its relative path. The children are visited in whatever
   * order the directory lists them.
   */
  method CollectHashesRecursive(n: Node, rel: seq<string>, acc: Entries, sha: seq<byte> -> Digest)
      returns (acc': Entries)
    requires n.Dir? && WellNamed(n) && ValidComponents(rel) && Sorted(acc)
    ensures Sorted(acc')
    ensures ToMap(acc') == ToMap(acc) + FileHashes(n, rel, sha)
    decreases n, 1
  {
    var remaining := n.children.Keys;
    ghost var done: set<string> := {};
    acc' := acc;
    FilesAmongNone(n, rel, sha);
    assert ToMap(acc) + map[] == ToMap(acc);
    while remaining != {}
      invariant remaining <= n.children.Keys && done == n.children.Keys - remaining
      invariant Sorted(acc')
      invariant ToMap(acc') == ToMap(acc) + FilesAmong(n, done, rel, sha)
      decreases remaining
    {
      var name :| name in remaining;
      ghost var before := ToMap(acc');
      acc' := VisitEntry(n, name, rel, acc', sha);
      CollectStep(n, done, name, rel, sha, ToMap(acc), before, ToMap(acc'));
      assert remaining - {name} <= n.children.Keys && done + {name} == n.children.Keys - (remaining - {name});
      remaining := remaining - {name};
      done := done + {name};
    }
    assert done == n.children.Keys;
    FilesAmongAll(n, rel, sha);
  }

  /**
   * One entry of the listing: a regular file is hashed and inserted, a
   * directory is walked, anything else is skipped.
   */
  method VisitEntry(n: Node, name: string, rel: seq<string>, acc: Entries, sha: seq<byte> -> Digest)
      returns (acc': Entries)
    requires n.Dir? && WellNamed(n) && ValidComponents(rel) && Sorted(acc)
    requires name in n.children
    ensures ValidComponents(rel + [name]) && WellNamed(n.children[name])
    ensures Sorted(acc')
    ensures ToMap(acc') == ToMap(acc) + FileHashes(n.children[name], rel + [name], sha)
    decreases n, 0
  {
    ValidAppend(rel, [name]);
    var child := n.children[name];
    var path := rel + [name];
    match child {
      case File(c) =>
        assert [name][1..] == [];
        assert Lookup(n, [name]) == Some(child);
        var h := CalculateFileHash(n, [name], sha);
        FileHashesOfFile(c, path, sha);
        InsertToMap(acc, JoinComps(path), h.value);
        assert ToMap(acc)[JoinComps(path) := h.value] == ToMap(acc) + map[JoinComps(path) := h.value];
        InsertSorted(acc, JoinComps(path), h.value);
        acc' := Insert(acc, JoinComps(path), h.value);
      case Dir(_) =>
        acc' := CollectHashesRecursive(child, path, acc, sha);
      case Other =>
        FileHashesOfOther(path, sha);
        assert ToMap(acc) + map[] == ToMap(acc);
        acc' := acc;
    }
  }

  /** The loop invariant of `CollectHashesRecursive` survives visiting `name`. */
  lemma CollectStep(n: Node, done: set<string>, name: string, rel: seq<string>, sha: seq<byte> -> Digest,
                    m0: map<string, string>, before: map<string, string>, after: map<string, string>)
    requires n.Dir? && WellNamed(n) && ValidComponents(rel)
    requires name in n.children && name !in done
    requires ValidComponents(rel + [name]) && WellNamed(n.children[name])
    requires before == m0 + FilesAmong(n, done, rel, sha)
    requires after == before + FileHashes(n.children[name], rel + [name], sha)
    ensures after == m0 + FilesAmong(n, done + {name}, rel, sha)
  {
    FilesAmongStep(n, done, name, rel, sha);
    UnionAssoc(m0, FilesAmong(n, done, rel, sha), FileHashes(n.children[name], rel + [name], sha));
  }

  /** The bytes fed to the directory hasher: each path, then its file's hash, in iteration order. */
  function Feed(l: Entries): seq<byte>
    decreases |l|
  {
    if |l| == 0 then [] else Feed(l[..|l| - 1]) + Utf8(l[|l| - 1].0) + Utf8(l[|l| - 1].1)
  }

  /** The checksum of the directory `n`: SHA-256 over its sorted (path, file hash) pairs. */
  ghost function DirDigest(n: Node, sha: seq<byte> -> Digest): string
    requires n.Dir? && WellNamed(n)
  {
    Hex(sha(Feed(Canonical(FileHashes(n, [], sha)))))
  }

  /** `calculate_dir_checksum`: collect the file hashes, then hash them in key order. */
  method CalculateDirChecksum(n: Node, sha: seq<byte> -> Digest) returns (r: string)
    requires n.Dir? && WellNamed(n)
    ensures r == DirDigest(n, sha)
    ensures IsHexDigest(r)
  {
    var fileHashes := CollectHashesRecursive(n, [], [], sha);
    assert map[] + FileHashes(n, [], sha) == FileHashes(n, [], sha);
    var absorbed: seq<byte> := [];
    for i := 0 to |fileHashes|
      invariant absorbed == Feed(fileHashes[..i])
    {
      assert fileHashes[..i + 1][..i] == fileHashes[..i];
      absorbed := absorbed + Utf8(fileHashes[i].0) + Utf8(fileHashes[i].1);
    }
    assert fileHashes[..|fileHashes|] == fileHashes;
    SortedUnique(fileHashes, Canonical(FileHashes(n, [], sha)));
    r := Hex(sha(absorbed));
  }

  lemma {:induction false} WellNamedBelow(n: Node, p: seq<string>)
    requires WellNamed(n) && Lookup(n, p).Some?
    ensures WellNamed(Lookup(n, p).value)
    decreases |p|
  {
    if |p| > 0 {
      WellNamedBelow(n.children[p[0]], p[1..]);
    }
  }

  /**
   * `calculate_entry_checksum`: a missing path is `PathNotFound`, a file is
   * hashed directly, a directory recursively, and anything else is
   * `InvalidInput`.
   */
  method CalculateEntryChecksum(fs: Node, p: seq<string>, sha: seq<byte> -> Digest) returns (r: Result<string>)
    requires WellNamed(fs)
    ensures Lookup(fs, p).None? ==> r == Err(PathNotFound(Display(Path(true, p))))
    ensures Lookup(fs, p).Some? && Lookup(fs, p).value.File? ==> r == Ok(Hex(sha(Lookup(fs, p).value.content)))
    ensures Lookup(fs, p).Some? && Lookup(fs, p).value.Dir? ==>
      WellNamed(Lookup(fs, p).value) && r == Ok(DirDigest(Lookup(fs, p).value, sha))
    ensures Lookup(fs, p) == Some(Other) ==> r.Err? && r.error.InvalidInput?
    ensures r.Ok? ==> IsHexDigest(r.value)
  {
    match Lookup(fs, p)
    case None =>
      r := Err(PathNotFound(Display(Path(true, p))));
    case Some(File(_)) =>
      r := CalculateFileHash(fs, p, sha);
    case Some(Dir(_)) =>
      WellNamedBelow(fs, p);
      var d := CalculateDirChecksum(Lookup(fs, p).value, sha);
      r := Ok(d);
    case Some(Other) =>
      r := Err(InvalidInput("Unsupported file type with '" + Display(Path(true, p)) + "'"));
  }

  /**
   * The directory checksum sees only the files: two directories holding
   * files at the same relative paths with the same contents get the same
   * checksum, whatever else they hold and however they list their entries.
   */
  lemma SameFilesSameDigest(a: Node, b: Node, sha: seq<byte> -> Digest)
    requires a.Dir? && b.Dir? && WellNamed(a) && WellNamed(b)
    requires FilePaths(a) == FilePaths(b)
    requires forall p :: p in FilePaths(a) ==> FileContent(a, p) == FileContent(b, p)
    ensures DirDigest(a, sha) == DirDigest(b, sha)
  {
    FilePathsValid(a);
    var ps := FilePaths(a);
    var A, B := HashMap(ps, a, [], sha), HashMap(ps, b, [], sha);
    forall k | k in A ensures k in B && A[k] == B[k] {
      HashMapKey(ps, a, [], sha, k);
      var p :| p in ps && JoinComps([] + p) == k;
      HashMapAt(ps, a, [], sha, p);
      HashMapAt(ps, b, [], sha, p);
    }
    forall k | k in B ensures k in A {
      HashMapKey(ps, b, [], sha, k);
      var p :| p in ps && JoinComps([] + p) == k;
      HashMapAt(ps, a, [], sha, p);
    }
    MapExt(A, B);
  }

  /** An entry without files below it (an empty directory, a socket) leaves the checksum as it was. */
  lemma {:induction false} FilelessEntryIgnored(ch: map<string, Node>, name: string, x: Node, sha: seq<byte> -> Digest)
    requires WellNamed(Dir(ch)) && WellNamed(x) && ValidComponent(name) && name != ".." && name !in ch
    requires FilePaths(x) == {}
    ensures WellNamed(Dir(ch[name := x]))
    ensures DirDigest(Dir(ch[name := x]), sha) == DirDigest(Dir(ch), sha)
  {
    var ch' := ch[name := x];
    forall k | k in ch' ensures ValidComponent(k) && k != ".." && WellNamed(ch'[k]) {
      if k != name {
        assert k in ch && ch'[k] == ch[k];
      }
    }
    assert WellNamed(Dir(ch'));
    forall p ensures p in FilePaths(Dir(ch')) <==> p in FilePaths(Dir(ch)) {
      DirFilePaths(ch', p);
      DirFilePaths(ch, p);
    }
    assert FilePaths(Dir(ch')) == FilePaths(Dir(ch));
    forall p | p in FilePaths(Dir(ch)) ensures FileContent(Dir(ch'), p) == FileContent(Dir(ch), p) {
      DirFilePaths(ch', p);
      DirFilePaths(ch, p);
    }
    SameFilesSameDigest(Dir(ch'), Dir(ch), sha);
  }

  lemma NoFilesInEmptyDir()
    ensures FilePaths(Dir(map[])) == {} && FilePaths(Other) == {}
  {
  }
}
