/**
 * `BTreeMap<String, String>` as the core uses it: a list of entries with
 * strictly increasing keys, which is the order in which the map iterates.
 */
module BTreeMap {

  /** The order of `String`'s `Ord`: lexicographic, code point by code point. */
  predicate Less(a: string, b: string)
    decreases |a|
  {
    |b| > 0 && (|a| == 0 || a[0] < b[0] || (a[0] == b[0] && Less(a[1..], b[1..])))
  }

  lemma {:induction false} LessIrreflexive(a: string)
    ensures !Less(a, a)
    decreases |a|
  {
    if |a| > 0 { LessIrreflexive(a[1..]); }
  }

  lemma {:induction false} LessAsymmetric(a: string, b: string)
    ensures Less(a, b) ==> !Less(b, a)
    decreases |a|
  {
    if |a| > 0 && |b| > 0 && a[0] == b[0] { LessAsymmetric(a[1..], b[1..]); }
  }

  lemma {:induction false} LessTransitive(a: string, b: string, c: string)
    requires Less(a, b) && Less(b, c)
    ensures Less(a, c)
    decreases |a|
  {
    if |a| > 0 && a[0] == b[0] && b[0] == c[0] {
      LessTransitive(a[1..], b[1..], c[1..]);
    }
  }

  lemma {:induction false} LessTotal(a: string, b: string)
    ensures a == b || Less(a, b) || Less(b, a)
    decreases |a|
  {
    if |a| > 0 && |b| > 0 && a[0] == b[0] {
      LessTotal(a[1..], b[1..]);
      assert a == [a[0]] + a[1..] && b == [b[0]] + b[1..];
    }
  }

  type Entries = seq<(string, string)>

  /** The map the entries stand for. */
  function ToMap(m: Entries): map<string, string>
    decreases |m|
  {
    if |m| == 0 then map[] else ToMap(m[1..])[m[0].0 := m[0].1]
  }

  /** Every key of `m` comes after `k`. */
  predicate Below(k: string, m: map<string, string>) {
    forall x :: x in m ==> Less(k, x)
  }

  /** Keys strictly increasing from first to last entry. */
  predicate Sorted(m: Entries)
    decreases |m|
  {
    |m| == 0 || (Below(m[0].0, ToMap(m[1..])) && Sorted(m[1..]))
  }

  /** `BTreeMap::insert`: put the entry in key order, replacing an equal key. */
  function Insert(m: Entries, k: string, v: string): (r: Entries)
    decreases |m|
  {
    if |m| == 0 then [(k, v)]
    else if m[0].0 == k then [(k, v)] + m[1..]
    else if Less(k, m[0].0) then [(k, v)] + m
    else [m[0]] + Insert(m[1..], k, v)
  }

  lemma {:induction false} InsertToMap(m: Entries, k: string, v: string)
    ensures ToMap(Insert(m, k, v)) == ToMap(m)[k := v]
    decreases |m|
  {
    var r := Insert(m, k, v);
    if |m| == 0 {
      assert r[1..] == [];
    } else if m[0].0 == k {
      assert r[1..] == m[1..];
    } else if Less(k, m[0].0) {
      assert r[1..] == m;
    } else {
      assert r[1..] == Insert(m[1..], k, v);
      InsertToMap(m[1..], k, v);
      assert ToMap(m[1..])[k := v][m[0].0 := m[0].1] == ToMap(m[1..])[m[0].0 := m[0].1][k := v];
    }
  }

  lemma {:induction false} InsertSorted(m: Entries, k: string, v: string)
    requires Sorted(m)
    ensures Sorted(Insert(m, k, v))
    decreases |m|
  {
    var r := Insert(m, k, v);
    if |m| == 0 {
      assert r[1..] == [];
    } else if m[0].0 == k {
      assert r[1..] == m[1..];
    } else if Less(k, m[0].0) {
      assert r[1..] == m;
      forall x | x in ToMap(m) ensures Less(k, x) {
        if x != m[0].0 { LessTransitive(k, m[0].0, x); }
      }
    } else {
      LessTotal(k, m[0].0);
      assert r[1..] == Insert(m[1..], k, v);
      InsertSorted(m[1..], k, v);
      InsertToMap(m[1..], k, v);
    }
  }

  /** The first entry of a sorted list holds its least key. */
  lemma {:induction false} FirstIsLeast(m: Entries)
    requires |m| > 0 && Sorted(m)
    ensures forall x :: x in ToMap(m) ==> x == m[0].0 || Less(m[0].0, x)
    ensures m[0].0 !in ToMap(m[1..])
    ensures ToMap(m[1..]) == ToMap(m) - {m[0].0}
  {
    LessIrreflexive(m[0].0);
  }

  /** Two sorted entry lists that stand for the same map are the same list. */
  lemma {:induction false} SortedUnique(a: Entries, b: Entries)
    requires Sorted(a) && Sorted(b) && ToMap(a) == ToMap(b)
    ensures a == b
    decreases |a|
  {
    if |a| == 0 {
      assert |b| > 0 ==> b[0].0 in ToMap(b);
    } else {
      assert a[0].0 in ToMap(a);
      assert |b| > 0;
      FirstIsLeast(a);
      FirstIsLeast(b);
      LessAsymmetric(a[0].0, b[0].0);
      assert a[0].0 == b[0].0;
      assert a[0].1 == b[0].1 by { assert ToMap(a)[a[0].0] == a[0].1 && ToMap(b)[b[0].0] == b[0].1; }
      SortedUnique(a[1..], b[1..]);
      assert a == [a[0]] + a[1..] && b == [b[0]] + b[1..];
    }
  }

  /** Every finite map has a sorted entry list. */
  lemma {:induction false} SortedExists(m: map<string, string>)
    ensures exists l :: Sorted(l) && ToMap(l) == m
    decreases |m|
  {
    if |m| == 0 {
      assert Sorted([]) && ToMap([]) == m;
    } else {
      var k :| k in m;
      var rest := m - {k};
      assert |rest| < |m| by { assert m.Keys == rest.Keys + {k}; }
      SortedExists(rest);
      var l :| Sorted(l) && ToMap(l) == rest;
      InsertSorted(l, k, m[k]);
      InsertToMap(l, k, m[k]);
      assert rest[k := m[k]] == m;
    }
  }

  /** The iteration order of a map: its entries sorted by key. */
  ghost function Canonical(m: map<string, string>): (l: Entries)
    ensures Sorted(l) && ToMap(l) == m
  {
    SortedExists(m);
    var l :| Sorted(l) && ToMap(l) == m; l
  }
}
