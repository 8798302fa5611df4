/**
 * Restoring one archive over a live save (src/fs_utils/restore.rs): unpack
 * into a temporary sibling of the destination, replace the destination
 * with the unpacked top-level entry, and always remove the temporary
 * directory again.
 *
 * The file system is the tree of `FileTree`, paths are absolute and given
 * as their components. The process id and the random characters are
 * parameters, and so is the tar/gzip decoder.
 */
module Restore {
  import opened Wrappers
  import opened StdPath
  import opened FileTree

  const TempPrefix: string := ".kaguya-restore"
  const RandomLength: nat := 8

  /** The characters `rand::distr::Alphanumeric` draws from. */
  predicate IsAlphanumeric(c: char) {
    'A' <= c <= 'Z' || 'a' <= c <= 'z' || '0' <= c <= '9'
  }

  predicate IsDigit(c: char) {
    '0' <= c <= '9'
  }

  /** The decimal digits of `n`, as `format!` writes a `u32`. */
  function DecimalString(n: nat): (s: string)
    ensures |s| > 0 && forall i :: 0 <= i < |s| ==> IsDigit(s[i])
    decreases n
  {
    var d := [('0' as int + n % 10) as char];
    if n < 10 then d else DecimalString(n / 10) + d
  }

  function ParseDecimal(s: string): nat
    decreases |s|
  {
    if |s| == 0 then 0
    else 10 * ParseDecimal(s[..|s| - 1]) + ((s[|s| - 1] as int - '0' as int) % 10)
  }

  lemma {:induction false} ParseDecimalString(n: nat)
    ensures ParseDecimal(DecimalString(n)) == n
    decreases n
  {
    var s := DecimalString(n);
    if n >= 10 {
      ParseDecimalString(n / 10);
      assert s[..|s| - 1] == DecimalString(n / 10);
    }
  }

  /** `generate_unique_temp_name(prefix, len)`: prefix, process id and random characters, joined by `-`. */
  function GenerateUniqueTempName(prefix: string, pid: nat, rnd: string): (name: string)
    ensures |name| == |prefix| + 2 + |DecimalString(pid)| + |rnd|
    ensures name[..|prefix| + 1] == prefix + "-"
    ensures name[|name| - |rnd|..] == rnd
  {
    prefix + "-" + DecimalString(pid) + "-" + rnd
  }

  /** Names for different process ids or different draws differ. */
  lemma TempNameInjective(prefix: string, pid1: nat, rnd1: string, pid2: nat, rnd2: string)
    requires |rnd1| == |rnd2|
    requires GenerateUniqueTempName(prefix, pid1, rnd1) == GenerateUniqueTempName(prefix, pid2, rnd2)
    ensures pid1 == pid2 && rnd1 == rnd2
  {
    var a := GenerateUniqueTempName(prefix, pid1, rnd1);
    var b := GenerateUniqueTempName(prefix, pid2, rnd2);
    var d1, d2 := DecimalString(pid1), DecimalString(pid2);
    assert |d1| == |d2|;
    assert d1 == a[|prefix| + 1..|prefix| + 1 + |d1|];
    assert d2 == b[|prefix| + 1..|prefix| + 1 + |d2|];
    ParseDecimalString(pid1);
    ParseDecimalString(pid2);
  }

  /** With alphanumeric draws the name is a single, ordinary path component. */
  lemma TempNameIsComponent(pid: nat, rnd: string)
    requires forall i :: 0 <= i < |rnd| ==> IsAlphanumeric(rnd[i])
    ensures ValidComponent(GenerateUniqueTempName(TempPrefix, pid, rnd))
    ensures GenerateUniqueTempName(TempPrefix, pid, rnd) != ".."
  {
    var name := GenerateUniqueTempName(TempPrefix, pid, rnd);
    var d := DecimalString(pid);
    forall i | 0 <= i < |name| ensures name[i] != '/' {
      if i < |TempPrefix| + 1 {
        assert name[i] == (TempPrefix + "-")[i];
      } else if i < |TempPrefix| + 1 + |d| {
        assert name[i] == d[i - |TempPrefix| - 1];
      } else if i == |TempPrefix| + 1 + |d| {
      } else {
        assert name[i] == rnd[i - |TempPrefix| - 2 - |d|];
      }
    }
  }

  /** The temporary directory `restore_archive` unpacks into: a sibling of `dst`. */
  function TempDir(dst: seq<string>, pid: nat, rnd: string): seq<string>
    requires |dst| > 0
  {
    dst[..|dst| - 1] + [GenerateUniqueTempName(TempPrefix, pid, rnd)]
  }

  /** `remove_dir_all(..).ok()`: remove the entry, ignoring failure. */
  function RemoveAll(fs: Node, p: seq<string>): Node
    requires |p| > 0
  {
    SetAt(fs, p, None)
  }

  /**
   * `decompress_from_tar_gz(src, dir)` for an existing directory `dir`:
   * `PathNotFound` when `src` is missing, an I/O error when it cannot be
   * read as a file, the decoder's error for a bad archive, and otherwise the
   * archive's top-level entries written into `dir`.
   */
  function Decompress(fs: Node, src: seq<string>, dir: seq<string>,
                      untar: seq<byte> -> Result<map<string, Node>>): (r: Result<Node>)
    requires |dir| > 0 && IsDirAt(fs, dir)
    ensures r.Ok? ==> Lookup(fs, src).Some? && Lookup(fs, src).value.File?
    ensures r.Ok? ==> untar(Lookup(fs, src).value.content).Ok?
  {
    match Lookup(fs, src)
    case None => Err(PathNotFound(Display(Path(true, src))))
    case Some(File(c)) =>
      (match untar(c)
       case Ok(entries) => Ok(SetAt(fs, dir, Some(Dir(Lookup(fs, dir).value.children + entries))))
       case Err(e) => Err(e))
    case Some(_) => Err(Io("Is a directory"))
  }

  /** Two trees agree everywhere away from `a` and `b`. */
  ghost predicate AgreeOff(x: Node, y: Node, a: seq<string>, b: seq<string>) {
    forall q :: Disjoint(q, a) && Disjoint(q, b) ==> Lookup(x, q) == Lookup(y, q)
  }

  lemma AgreeOffSet(x: Node, y: Node, a: seq<string>, b: seq<string>, p: seq<string>, v: Option<Node>)
    requires AgreeOff(x, y, a, b) && |p| > 0 && (IsPrefix(a, p) || IsPrefix(b, p))
    ensures AgreeOff(SetAt(x, p, v), y, a, b)
  {
    forall q | Disjoint(q, a) && Disjoint(q, b) ensures Lookup(SetAt(x, p, v), q) == Lookup(y, q) {
      if IsPrefix(a, p) {
        DisjointExtend(a, p[|a|..], q);
        assert a + p[|a|..] == p;
      } else {
        DisjointExtend(b, p[|b|..], q);
        assert b + p[|b|..] == p;
      }
      LookupSetOther(x, p, v, q);
    }
  }

  /** A directory's ancestors are directories. */
  lemma {:induction false} DirAncestor(n: Node, p: seq<string>, k: nat)
    requires IsDirAt(n, p) && k <= |p|
    ensures IsDirAt(n, p[..k])
    decreases |p|
  {
    if k > 0 {
      DirAncestor(n.children[p[0]], p[1..], k - 1);
      assert p[..k][1..] == p[1..][..k - 1];
    }
  }

  lemma AgreeOffTrans(x: Node, y: Node, z: Node, a: seq<string>, b: seq<string>)
    requires AgreeOff(x, y, a, b) && AgreeOff(y, z, a, b)
    ensures AgreeOff(x, z, a, b)
  {
  }

  /**
   * The second half of `restore_archive`, once the archive is unpacked in
   * `temp`: remove what is at `dst` (refusing anything that is neither a
   * file nor a directory), then rename `unpacked` to `dst`.
   */
  method ReplaceDestination(cur: Node, parent: seq<string>, name: string, last: string)
      returns (next: Node, r: Result<()>)
    requires IsDirAt(cur, parent)
    ensures IsDirAt(next, parent)
    ensures AgreeOff(next, cur, parent + [name], parent + [last])
    ensures Lookup(cur, parent + [last]) == Some(Other) ==> r.Err? && r.error.InvalidInput? && next == cur
    ensures r.Ok? ==> name != last && Lookup(cur, parent + [name, last]).Some?
    ensures r.Ok? ==> Lookup(next, parent + [last]) == Lookup(cur, parent + [name, last])
    ensures name != last && Lookup(cur, parent + [last]) != Some(Other) && Lookup(cur, parent + [name, last]).None? ==>
      r.Err? && Lookup(next, parent + [last]).None?
  {
    var temp, dst, unpacked := parent + [name], parent + [last], parent + [name, last];
    assert unpacked == temp + [last];
    assert dst[..|parent|] == parent && unpacked[..|parent|] == parent;
    assert AgreeOff(cur, cur, temp, dst);
    next := cur;
    match Lookup(cur, dst) {
      case Some(Other) =>
        return cur, Err(InvalidInput("Invalid type of path: " + Display(Path(true, dst))));
      case None =>
        if last == name {
          LookupNoneBelow(cur, dst, [last]);
        }
      case Some(_) =>
        next := SetAt(cur, dst, None);
        SetAtKeepsAncestor(cur, dst, None, parent);
        AgreeOffSet(cur, cur, temp, dst, dst, None);
        LookupSetSame(cur, dst, None);
        if last == name {
          LookupNoneBelow(next, dst, [last]);
        } else {
          UnpackedAway(parent, name, last);
          LookupSetOther(cur, dst, None, unpacked);
        }
    }
    match Lookup(next, unpacked) {
      case None =>
        r := Err(Io("No such file or directory"));
      case Some(x) =>
        ghost var removed := next;
        var moved := SetAt(next, unpacked, None);
        SetAtKeepsAncestor(removed, unpacked, None, parent);
        AgreeOffSet(removed, cur, temp, dst, unpacked, None);
        next := SetAt(moved, dst, Some(x));
        SetAtKeepsAncestor(moved, dst, Some(x), parent);
        AgreeOffSet(moved, cur, temp, dst, dst, Some(x));
        LookupSetSame(moved, dst, Some(x));
        r := Ok(());
    }
  }

  /**
   * `restore_archive(src, dst)`. The error cases come in the order the code
   * checks them; once the temporary directory exists, every way out removes
   * it again.
   */
  method RestoreArchive(fs: Node, src: seq<string>, dst: seq<string>, pid: nat, rnd: string,
                        untar: seq<byte> -> Result<map<string, Node>>)
      returns (fs': Node, r: Result<()>)
    requires |rnd| == RandomLength && forall i :: 0 <= i < |rnd| ==> IsAlphanumeric(rnd[i])
    ensures |dst| == 0 ==> fs' == fs && r.Err? && r.error.InvalidInput?
    ensures |dst| > 0 && CreateDirAll(fs, TempDir(dst, pid, rnd)).Err? ==>
      fs' == fs && r == Err(CreateDirAll(fs, TempDir(dst, pid, rnd)).error)
    ensures |dst| > 0 && CreateDirAll(fs, TempDir(dst, pid, rnd)).Ok? ==>
      Lookup(fs', TempDir(dst, pid, rnd)).None?
    ensures |dst| > 0 ==> AgreeOff(fs', fs, TempDir(dst, pid, rnd), dst)
    ensures r.Ok? ==> |dst| > 0 && Lookup(fs, src).Some? && Lookup(fs, src).value.File?
    ensures r.Ok? ==> untar(Lookup(fs, src).value.content).Ok?
    ensures r.Ok? && Lookup(fs, TempDir(dst, pid, rnd)).None? ==>
      var entries := untar(Lookup(fs, src).value.content).value;
      dst[|dst| - 1] in entries && Lookup(fs', dst) == Some(entries[dst[|dst| - 1]])
    ensures |dst| > 0 && TempDir(dst, pid, rnd) != dst && Lookup(fs, dst) == Some(Other) ==>
      r.Err? && Lookup(fs', dst) == Some(Other)
    ensures (|dst| > 0 && TempDir(dst, pid, rnd) != dst && Disjoint(src, TempDir(dst, pid, rnd)) &&
             !(Lookup(fs, src).Some? && Lookup(fs, src).value.File? && untar(Lookup(fs, src).value.content).Ok?))
      ==> r.Err? && Lookup(fs', dst) == Lookup(fs, dst)
    ensures (|dst| > 0 && TempDir(dst, pid, rnd) != dst && Lookup(fs, TempDir(dst, pid, rnd)).None? &&
             CreateDirAll(fs, TempDir(dst, pid, rnd)).Ok? && FileName(Path(true, dst)).Some? &&
             Lookup(fs, dst) != Some(Other) && Disjoint(src, TempDir(dst, pid, rnd)) &&
             Lookup(fs, src).Some? && Lookup(fs, src).value.File? &&
             untar(Lookup(fs, src).value.content).Ok? &&
             dst[|dst| - 1] !in untar(Lookup(fs, src).value.content).value)
      ==> r.Err? && Lookup(fs', dst).None?
  {
    var name := GenerateUniqueTempName(TempPrefix, pid, rnd);
    TempNameIsComponent(pid, rnd);
    var parent := Parent(Path(true, dst));
    if parent.None? {
      return fs, Err(InvalidInput("Destination path '" + Display(Path(true, dst)) + "' has no parent"));
    }
    var temp := parent.value.comps + [name];
    assert temp == TempDir(dst, pid, rnd);
    var created := CreateDirAll(fs, temp);
    if created.Err? {
      return fs, Err(created.error);
    }
    var cur := created.value;
    CreateDirAllMakesDir(fs, temp);
    DirAncestor(cur, temp, |temp| - 1);
    assert temp[..|temp| - 1] == parent.value.comps;
    assert AgreeOff(cur, fs, temp, dst) by {
      forall q | Disjoint(q, temp) && Disjoint(q, dst) ensures Lookup(cur, q) == Lookup(fs, q) {
        CreateDirAllOther(fs, temp, q);
      }
    }
    ghost var last := dst[|dst| - 1];
    assert dst == parent.value.comps + [last];
    assert last != name ==> Disjoint(temp, dst) by { if last != name { SiblingsDisjoint(parent.value.comps, name, last); } }
    assert last != name ==> Lookup(cur, dst) == Lookup(fs, dst) by {
      if last != name { CreateDirAllOther(fs, temp, dst); }
    }
    assert Disjoint(src, temp) ==> Lookup(cur, src) == Lookup(fs, src) by {
      if Disjoint(src, temp) { CreateDirAllOther(fs, temp, src); }
    }
    var fileName := FileName(Path(true, dst));
    if fileName.None? {
      fs' := RemoveAll(cur, temp);
      Cleaned(cur, fs, temp, dst);
      KeepsSibling(cur, temp, dst);
      return fs', Err(InvalidInput("Destination path '" + Display(Path(true, dst)) + "' has no file name"));
    }
    var decompressed := Decompress(cur, src, temp, untar);
    CreateDirAllFileBack(fs, temp, src);
    if Lookup(fs, temp).None? { CreateDirAllFresh(fs, temp); }
    if decompressed.Err? {
      fs' := RemoveAll(cur, temp);
      Cleaned(cur, fs, temp, dst);
      KeepsSibling(cur, temp, dst);
      return fs', Err(decompressed.error);
    }
    ghost var before := cur;
    cur := decompressed.value;
    ghost var merged := Lookup(before, temp).value.children + untar(Lookup(before, src).value.content).value;
    assert cur == SetAt(before, temp, Some(Dir(merged)));
    LookupSetSame(before, temp, Some(Dir(merged)));
    SetAtKeepsAncestor(before, temp, Some(Dir(merged)), parent.value.comps);
    AgreeOffSet(before, fs, temp, dst, temp, Some(Dir(merged)));
    if last != name { LookupSetOther(before, temp, Some(Dir(merged)), dst); }
    assert Lookup(cur, parent.value.comps + [name, last]) == if last in merged then Some(merged[last]) else None by {
      assert parent.value.comps + [name, last] == temp + [last];
      LookupAppend(cur, temp, [last]);
    }
    ghost var unpackedStage := cur;
    var replaced;
    cur, replaced := ReplaceDestination(cur, parent.value.comps, name, fileName.value);
    AgreeOffTrans(cur, unpackedStage, fs, temp, dst);
    fs' := RemoveAll(cur, temp);
    Cleaned(cur, fs, temp, dst);
    KeepsSibling(cur, temp, dst);
    r := replaced;
  }

  lemma UnpackedAway(parent: seq<string>, name: string, last: string)
    requires name != last
    ensures Disjoint(parent + [last], parent + [name, last])
  {
    SiblingsDisjoint(parent, name, last);
    DisjointExtend(parent + [name], [last], parent + [last]);
    assert parent + [name] + [last] == parent + [name, last];
  }

  /** Removing the temporary directory passes over a destination beside it. */
  lemma KeepsSibling(cur: Node, temp: seq<string>, dst: seq<string>)
    requires |temp| > 0
    ensures Disjoint(temp, dst) ==> Lookup(RemoveAll(cur, temp), dst) == Lookup(cur, dst)
  {
    if Disjoint(temp, dst) { LookupSetOther(cur, temp, None, dst); }
  }

  /** Removing the temporary directory under an existing parent leaves it absent and the rest as it was. */
  lemma Cleaned(cur: Node, fs: Node, temp: seq<string>, dst: seq<string>)
    requires |temp| > 0 && ParentIsDir(cur, temp) && AgreeOff(cur, fs, temp, dst)
    ensures Lookup(RemoveAll(cur, temp), temp).None?
    ensures AgreeOff(RemoveAll(cur, temp), fs, temp, dst)
  {
    LookupSetSame(cur, temp, None);
    AgreeOffSet(cur, fs, temp, dst, temp, None);
  }
}
