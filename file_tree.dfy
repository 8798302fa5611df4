/**
 * The abstract file system the core reads and changes: a tree whose
 * directories map entry names to nodes. A path into it is the list of
 * components below the root. `Other` stands for any entry that is neither a
 * regular file nor a directory.
 */
module FileTree {
  import opened Wrappers
  import StdPath

  type byte = b: int | 0 <= b < 256

  datatype Node = File(content: seq<byte>) | Dir(children: map<string, Node>) | Other

  /** Every entry name in the tree is a proper path component other than `..`. */
  predicate WellNamed(n: Node) {
    match n
    case Dir(ch) => forall k :: k in ch ==> StdPath.ValidComponent(k) && k != ".." && WellNamed(ch[k])
    case _ => true
  }

  /** The node at `p`, if every step from the root goes through a directory. */
  function Lookup(n: Node, p: seq<string>): Option<Node>
    decreases |p|
  {
    if |p| == 0 then Some(n)
    else match n
      case Dir(ch) => if p[0] in ch then Lookup(ch[p[0]], p[1..]) else None
      case _ => None
  }

  predicate IsPrefix(a: seq<string>, b: seq<string>) {
    |a| <= |b| && b[..|a|] == a
  }

  /** Neither path lies inside the other. */
  predicate Disjoint(a: seq<string>, b: seq<string>) {
    !IsPrefix(a, b) && !IsPrefix(b, a)
  }

  predicate IsDirAt(n: Node, p: seq<string>) {
    Lookup(n, p).Some? && Lookup(n, p).value.Dir?
  }

  /** The directory that would hold `p` exists. */
  predicate ParentIsDir(n: Node, p: seq<string>) {
    |p| > 0 && IsDirAt(n, p[..|p| - 1])
  }

  /** Put `v` at `p` (`None` removes the entry); nothing changes when the parent is missing. */
  function SetAt(n: Node, p: seq<string>, v: Option<Node>): Node
    requires |p| > 0
    decreases |p|
  {
    match n
    case Dir(ch) =>
      if |p| == 1 then
        (match v case None => Dir(ch - {p[0]}) case Some(x) => Dir(ch[p[0] := x]))
      else if p[0] in ch then Dir(ch[p[0] := SetAt(ch[p[0]], p[1..], v)])
      else n
    case _ => n
  }

  /** A chain of fresh empty directories along `rest`. */
  function Chain(rest: seq<string>): (r: Node)
    ensures r.Dir?
    decreases |rest|
  {
    if |rest| == 0 then Dir(map[]) else Dir(map[rest[0] := Chain(rest[1..])])
  }

  /** `create_dir_all`: make every missing directory on the way to `p`. */
  function CreateDirAll(n: Node, p: seq<string>): Result<Node>
    decreases |p|
  {
    if |p| == 0 then (if n.Dir? then Ok(n) else Err(Io("File exists")))
    else match n
      case Dir(ch) =>
        if p[0] in ch then
          match CreateDirAll(ch[p[0]], p[1..])
          case Ok(c) => Ok(Dir(ch[p[0] := c]))
          case Err(e) => Err(e)
        else Ok(Dir(ch[p[0] := Chain(p[1..])]))
      case _ => Err(Io("Not a directory"))
  }

  lemma {:induction false} LookupChain(rest: seq<string>)
    ensures IsDirAt(Chain(rest), rest)
    decreases |rest|
  {
    if |rest| > 0 {
      LookupChain(rest[1..]);
    }
  }

  lemma PrefixCons(a: seq<string>, b: seq<string>)
    requires |a| > 0 && |b| > 0 && a[0] == b[0]
    ensures IsPrefix(a, b) <==> IsPrefix(a[1..], b[1..])
  {
    if |a| <= |b| {
      assert b[..|a|] == [b[0]] + b[1..][..|a| - 1];
      assert a == [a[0]] + a[1..];
    }
  }

  /** Two disjoint paths are both non-empty, and stay disjoint below a shared first step. */
  lemma DisjointTail(a: seq<string>, b: seq<string>)
    requires Disjoint(a, b)
    ensures |a| > 0 && |b| > 0
    ensures a[0] == b[0] ==> |a| > 1 && |b| > 1 && Disjoint(a[1..], b[1..])
  {
    assert a[..0] == [] && b[..0] == [];
    if a[0] == b[0] {
      assert a[..1] == [a[0]] && b[..1] == [b[0]];
      PrefixCons(a, b);
      PrefixCons(b, a);
    }
  }

  /** Setting `p` leaves every path outside it, and not above it, as it was. */
  lemma {:induction false} LookupSetOther(n: Node, p: seq<string>, v: Option<Node>, q: seq<string>)
    requires |p| > 0 && Disjoint(p, q)
    ensures Lookup(SetAt(n, p, v), q) == Lookup(n, q)
    decreases |p|
  {
    DisjointTail(p, q);
    if n.Dir? && p[0] == q[0] && p[0] in n.children {
      LookupSetOther(n.children[p[0]], p[1..], v, q[1..]);
    }
  }

  /** Setting `p` under an existing directory puts `v` there. */
  lemma {:induction false} LookupSetSame(n: Node, p: seq<string>, v: Option<Node>)
    requires ParentIsDir(n, p)
    ensures Lookup(SetAt(n, p, v), p) == v
    decreases |p|
  {
    if |p| > 1 {
      assert p[1..][..|p[1..]| - 1] == p[..|p| - 1][1..];
      LookupSetSame(n.children[p[0]], p[1..], v);
    }
  }

  /** Below a node put at `p`, lookups read that node. */
  lemma {:induction false} LookupSetBelow(n: Node, p: seq<string>, x: Node, s: seq<string>)
    requires ParentIsDir(n, p)
    ensures Lookup(SetAt(n, p, Some(x)), p + s) == Lookup(x, s)
    decreases |p|
  {
    if |p| == 1 {
      assert (p + s)[1..] == s;
    } else {
      assert p[1..][..|p[1..]| - 1] == p[..|p| - 1][1..];
      assert (p + s)[1..] == p[1..] + s;
      LookupSetBelow(n.children[p[0]], p[1..], x, s);
    }
  }

  /** Looking up `a + b` is looking up `b` in the node at `a`. */
  lemma {:induction false} LookupAppend(n: Node, a: seq<string>, b: seq<string>)
    requires Lookup(n, a).Some?
    ensures Lookup(n, a + b) == Lookup(Lookup(n, a).value, b)
    decreases |a|
  {
    if |a| == 0 {
      assert a + b == b;
    } else {
      assert (a + b)[1..] == a[1..] + b;
      LookupAppend(n.children[a[0]], a[1..], b);
    }
  }

  /** A successful `create_dir_all` leaves a directory at `p`. */
  lemma {:induction false} CreateDirAllMakesDir(n: Node, p: seq<string>)
    requires CreateDirAll(n, p).Ok?
    ensures IsDirAt(CreateDirAll(n, p).value, p)
    decreases |p|
  {
    if |p| > 0 {
      if p[0] in n.children {
        CreateDirAllMakesDir(n.children[p[0]], p[1..]);
      } else {
        LookupChain(p[1..]);
      }
    }
  }

  /** An existing directory keeps its contents through `create_dir_all`. */
  lemma {:induction false} CreateDirAllExisting(n: Node, p: seq<string>)
    requires IsDirAt(n, p)
    ensures CreateDirAll(n, p) == Ok(n)
    decreases |p|
  {
    if |p| > 0 {
      CreateDirAllExisting(n.children[p[0]], p[1..]);
      assert n.children[p[0] := n.children[p[0]]] == n.children;
    }
  }

  /** `create_dir_all` changes nothing outside the directories on the way to `p`. */
  lemma {:induction false} CreateDirAllOther(n: Node, p: seq<string>, q: seq<string>)
    requires CreateDirAll(n, p).Ok? && Disjoint(p, q)
    ensures Lookup(CreateDirAll(n, p).value, q) == Lookup(n, q)
    decreases |p|
  {
    DisjointTail(p, q);
    var ch := n.children;
    if p[0] == q[0] {
      if p[0] in ch {
        CreateDirAllOther(ch[p[0]], p[1..], q[1..]);
      } else {
        ChainOther(p[1..], q[1..]);
      }
    }
  }

  /** A fresh chain of directories holds nothing off its own path. */
  lemma {:induction false} ChainOther(rest: seq<string>, s: seq<string>)
    requires Disjoint(rest, s)
    ensures Lookup(Chain(rest), s).None?
    decreases |rest|
  {
    DisjointTail(rest, s);
    if rest[0] == s[0] {
      ChainOther(rest[1..], s[1..]);
    }
  }

  /** A failing `create_dir_all` hit an entry on the way that is not a directory. */
  lemma {:induction false} CreateDirAllFails(n: Node, p: seq<string>)
    requires CreateDirAll(n, p).Err?
    ensures exists k :: 0 <= k <= |p| && Lookup(n, p[..k]).Some? && !Lookup(n, p[..k]).value.Dir?
    decreases |p|
  {
    if |p| == 0 {
      assert p[..0] == [];
    } else if n.Dir? {
      var c := n.children[p[0]];
      CreateDirAllFails(c, p[1..]);
      var k :| 0 <= k <= |p[1..]| && Lookup(c, p[1..][..k]).Some? && !Lookup(c, p[1..][..k]).value.Dir?;
      assert p[..k + 1][1..] == p[1..][..k];
      assert Lookup(n, p[..k + 1]) == Lookup(c, p[1..][..k]);
    } else {
      assert p[..0] == [];
    }
  }

  /** Changing something below a directory leaves it a directory. */
  lemma {:induction false} SetAtKeepsAncestor(n: Node, p: seq<string>, v: Option<Node>, q: seq<string>)
    requires |q| < |p| && IsPrefix(q, p) && IsDirAt(n, q)
    ensures IsDirAt(SetAt(n, p, v), q)
    decreases |q|
  {
    if |q| > 0 {
      assert q[0] == p[0];
      PrefixCons(q, p);
      SetAtKeepsAncestor(n.children[p[0]], p[1..], v, q[1..]);
    }
  }

  /** Likewise for `create_dir_all`. */
  lemma {:induction false} CreateDirAllKeepsDir(n: Node, p: seq<string>, q: seq<string>)
    requires CreateDirAll(n, p).Ok? && IsDirAt(n, q)
    ensures IsDirAt(CreateDirAll(n, p).value, q)
    decreases |p|
  {
    if |p| > 0 && |q| > 0 && p[0] == q[0] {
      CreateDirAllKeepsDir(n.children[p[0]], p[1..], q[1..]);
    }
  }

  /** A directory that `create_dir_all` had to make is empty. */
  lemma {:induction false} CreateDirAllFresh(n: Node, p: seq<string>)
    requires CreateDirAll(n, p).Ok? && Lookup(n, p).None?
    ensures Lookup(CreateDirAll(n, p).value, p) == Some(Dir(map[]))
    decreases |p|
  {
    if p[0] in n.children {
      CreateDirAllFresh(n.children[p[0]], p[1..]);
    } else {
      ChainEnd(p[1..]);
    }
  }

  lemma {:induction false} ChainEnd(rest: seq<string>)
    ensures Lookup(Chain(rest), rest) == Some(Dir(map[]))
    decreases |rest|
  {
    if |rest| > 0 { ChainEnd(rest[1..]); }
  }

  /** Going deeper inside `a` stays clear of anything disjoint from `a`. */
  lemma DisjointExtend(a: seq<string>, s: seq<string>, q: seq<string>)
    requires Disjoint(a, q)
    ensures Disjoint(a + s, q)
  {
    if |q| <= |a| {
      assert (a + s)[..|q|] == a[..|q|];
    } else if |q| <= |a + s| {
      assert (a + s)[..|q|][..|a|] == a;
    }
    if |a + s| <= |q| {
      assert q[..|a + s|][..|a|] == q[..|a|];
    }
  }

  /** Siblings: two paths that differ in their last step. */
  lemma SiblingsDisjoint(parent: seq<string>, a: string, b: string)
    requires a != b
    ensures Disjoint(parent + [a], parent + [b])
  {
    assert (parent + [a])[|parent|] == a && (parent + [b])[|parent|] == b;
  }

  /** Nothing lies below a missing entry. */
  lemma {:induction false} LookupNoneBelow(n: Node, a: seq<string>, s: seq<string>)
    requires Lookup(n, a).None?
    ensures Lookup(n, a + s).None?
    decreases |a|
  {
    assert |a| > 0;
    if n.Dir? && a[0] in n.children {
      assert (a + s)[1..] == a[1..] + s;
      LookupNoneBelow(n.children[a[0]], a[1..], s);
    }
  }

  /** A fresh chain holds only directories. */
  lemma {:induction false} ChainOnlyDirs(rest: seq<string>, s: seq<string>)
    ensures Lookup(Chain(rest), s).Some? ==> Lookup(Chain(rest), s).value.Dir?
    decreases |rest|
  {
    if |s| > 0 && |rest| > 0 && s[0] == rest[0] {
      ChainOnlyDirs(rest[1..], s[1..]);
    }
  }

  /** `create_dir_all` makes no files: every file after it was there before. */
  lemma {:induction false} CreateDirAllFileBack(n: Node, p: seq<string>, q: seq<string>)
    requires CreateDirAll(n, p).Ok?
    ensures Lookup(CreateDirAll(n, p).value, q).Some? && Lookup(CreateDirAll(n, p).value, q).value.File? ==>
      Lookup(n, q) == Lookup(CreateDirAll(n, p).value, q)
    decreases |p|
  {
    if |p| > 0 && |q| > 0 && p[0] == q[0] {
      if p[0] in n.children {
        CreateDirAllFileBack(n.children[p[0]], p[1..], q[1..]);
      } else {
        ChainOnlyDirs(p[1..], q[1..]);
      }
    }
  }
}
