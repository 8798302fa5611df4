/**
 * The part of Rust's `std::path` the core relies on: a path is an optional
 * root followed by a list of components, and the operations below work
 * component by component, as `Path::components` does.
 */
module StdPath {
  import opened Wrappers

  /** `absolute` is a leading root component; `comps` are the remaining components. */
  datatype Path = Path(absolute: bool, comps: seq<string>)

  /** A component as `components()` yields it: non-empty, no separator, not `.`. */
  predicate ValidComponent(c: string) {
    c != "" && c != "." && '/' !in c
  }

  predicate ValidComponents(cs: seq<string>) {
    forall i :: 0 <= i < |cs| ==> ValidComponent(cs[i])
  }

  /** Components joined with the separator. */
  function JoinComps(cs: seq<string>): string {
    if |cs| == 0 then "" else if |cs| == 1 then cs[0] else cs[0] + "/" + JoinComps(cs[1..])
  }

  /**
   * The text of a path in normal form: the root, then the components joined
   * by single separators. A `Path` is a list of components, so it cannot
   * spell a trailing separator, a repeated one or a `.` component; for the
   * paths that `to_string_lossy` would print in exactly this form, the two
   * agree.
   */
  function Display(p: Path): string {
    (if p.absolute then "/" else "") + JoinComps(p.comps)
  }

  /** The pieces of `s` between separators, empty pieces included. */
  function Split(s: string): (r: seq<string>)
    ensures |r| > 0
  {
    if |s| == 0 then [""]
    else
      var rest := Split(s[1..]);
      if s[0] == '/' then [""] + rest else [[s[0]] + rest[0]] + rest[1..]
  }

  function DropEmpty(pieces: seq<string>): (r: seq<string>)
    ensures forall i :: 0 <= i < |r| ==> r[i] != "" && r[i] != "."
  {
    if |pieces| == 0 then []
    else if pieces[0] == "" || pieces[0] == "." then DropEmpty(pieces[1..])
    else [pieces[0]] + DropEmpty(pieces[1..])
  }

  /** `Path::new(s)`, read back into components (repeated separators and `.` vanish). */
  function Parse(s: string): Path {
    Path(|s| > 0 && s[0] == '/', DropEmpty(Split(s)))
  }

  /** `base.join(rel)`: a relative `rel` is appended, an absolute one replaces `base`. */
  function Join(base: Path, rel: Path): (r: Path)
    ensures !rel.absolute ==> r.absolute == base.absolute && r.comps == base.comps + rel.comps
    ensures rel.absolute ==> r == rel
  {
    if rel.absolute then rel else Path(base.absolute, base.comps + rel.comps)
  }

  /** `Path::parent`: `None` for a root or an empty path. */
  function Parent(p: Path): (r: Option<Path>)
    ensures r.None? <==> |p.comps| == 0
    ensures r.Some? ==> r.value.absolute == p.absolute && r.value.comps + [p.comps[|p.comps| - 1]] == p.comps
  {
    if |p.comps| == 0 then None else Some(Path(p.absolute, p.comps[..|p.comps| - 1]))
  }

  /** `Path::file_name`: the final component, unless there is none or it is `..`. */
  function FileName(p: Path): (r: Option<string>)
    ensures r.Some? <==> |p.comps| > 0 && p.comps[|p.comps| - 1] != ".." && p.comps[|p.comps| - 1] != "."
    ensures r.Some? ==> r.value == p.comps[|p.comps| - 1]
  {
    if |p.comps| == 0 then None
    else
      var last := p.comps[|p.comps| - 1];
      if last == ".." || last == "." then None else Some(last)
  }

  /** `prefix` is a component-wise prefix of `p` (the root counts as a component). */
  predicate StartsWith(p: Path, prefix: Path) {
    p.absolute == prefix.absolute && |prefix.comps| <= |p.comps| && p.comps[..|prefix.comps|] == prefix.comps
  }

  /** `Path::strip_prefix`: the relative remainder when `prefix` is a component-wise prefix. */
  function StripPrefix(p: Path, prefix: Path): (r: Option<Path>)
    ensures r.Some? <==> StartsWith(p, prefix)
    ensures r.Some? ==> !r.value.absolute && prefix.comps + r.value.comps == p.comps
  {
    if StartsWith(p, prefix) then Some(Path(false, p.comps[|prefix.comps|..])) else None
  }

  lemma {:induction false} SplitSeparated(a: string, b: string)
    requires '/' !in a
    ensures Split(a + "/" + b) == [a] + Split(b)
    decreases |a|
  {
    if |a| == 0 {
      assert a + "/" + b == "/" + b;
      assert ("/" + b)[1..] == b;
    } else {
      assert (a + "/" + b)[1..] == a[1..] + "/" + b;
      assert a[0] in a;
      SplitSeparated(a[1..], b);
      assert [a[0]] + a[1..] == a;
    }
  }

  lemma {:induction false} SplitWhole(a: string)
    requires '/' !in a
    ensures Split(a) == [a]
    decreases |a|
  {
    if |a| > 0 {
      assert a[0] in a;
      SplitWhole(a[1..]);
      assert [a[0]] + a[1..] == a;
    }
  }

  lemma {:induction false} SplitJoin(cs: seq<string>)
    requires |cs| > 0 && ValidComponents(cs)
    ensures Split(JoinComps(cs)) == cs
    decreases |cs|
  {
    if |cs| == 1 {
      SplitWhole(cs[0]);
    } else {
      SplitJoin(cs[1..]);
      SplitSeparated(cs[0], JoinComps(cs[1..]));
      assert [cs[0]] + cs[1..] == cs;
    }
  }

  lemma {:induction false} DropEmptyKeeps(cs: seq<string>)
    requires ValidComponents(cs)
    ensures DropEmpty(cs) == cs
    decreases |cs|
  {
    if |cs| > 0 {
      DropEmptyKeeps(cs[1..]);
      assert [cs[0]] + cs[1..] == cs;
    }
  }

  /** Reading back a displayed path gives the same components. */
  lemma ParseDisplay(p: Path)
    requires ValidComponents(p.comps)
    ensures Parse(Display(p)) == p
  {
    DropEmptyKeeps(p.comps);
    if |p.comps| == 0 {
      if p.absolute {
        assert Display(p) == "/";
        assert Split("/") == ["", ""];
        assert DropEmpty(["", ""]) == [];
      } else {
        assert Display(p) == "";
      }
    } else {
      SplitJoin(p.comps);
      var j := JoinComps(p.comps);
      if p.absolute {
        SplitSeparated("", j);
        assert "" + "/" + j == Display(p);
        assert DropEmpty([""] + p.comps) == DropEmpty(p.comps);
      } else {
        assert |p.comps[0]| > 0;
        assert JoinComps(p.comps)[0] == p.comps[0][0];
        assert Display(p) == j;
      }
    }
  }
}
