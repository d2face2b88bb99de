// The per-request redaction summary: how many regions, and under which labels.
module Summary {
  import opened Sorting

  datatype Info = Info(count: int, categories: seq<string>)

  const NOTHING := Info(0, [])

  /** The nonempty labels of s that have not occurred before, appended to out. */
  function Fresh(out: seq<string>, s: seq<string>): seq<string> {
    if s == [] then out
    else
      var rest := Fresh(out, s[..|s| - 1]);
      var x := s[|s| - 1];
      if x == "" || x in rest then rest else rest + [x]
  }

  function Union(a: seq<string>, b: seq<string>): seq<string> {
    if b == [] then a
    else if a == [] then b
    else Sort(StringLeq, Fresh(Fresh([], a), b))
  }

  /** Appends the unseen labels of xs. */
  method AppendFresh(out: seq<string>, seen: set<string>, xs: seq<string>)
    returns (more: seq<string>, all: set<string>)
    requires forall x :: x in seen <==> x in out
    ensures more == Fresh(out, xs)
    ensures forall x :: x in all <==> x in more
  {
    more, all := out, seen;
    var i := 0;
    while i < |xs|
      invariant i <= |xs| && more == Fresh(out, xs[..i])
      invariant forall x :: x in all <==> x in more
    {
      assert xs[..i + 1][..i] == xs[..i];
      var s := xs[i];
      i := i + 1;
      if s == "" || s in all {
        continue;
      }
      all := all + {s};
      more := more + [s];
    }
    assert xs[..i] == xs;
  }

  method UnionSorted(a: seq<string>, b: seq<string>) returns (out: seq<string>)
    ensures out == Union(a, b)
  {
    if |b| == 0 {
      return a;
    }
    if |a| == 0 {
      return b;
    }
    var seen: set<string> := {};
    out, seen := AppendFresh([], seen, a);
    out, seen := AppendFresh(out, seen, b);
    out := Sort(StringLeq, out);
  }

  method Merge(a: Info, b: Info) returns (m: Info)
    ensures m == Merged(a, b)
  {
    var cats := UnionSorted(a.categories, b.categories);
    m := Info(a.count + b.count, cats);
  }

  function Merged(a: Info, b: Info): Info {
    Info(a.count + b.count, Union(a.categories, b.categories))
  }

  // ---------- sorted lists without repetition ----------

  ghost predicate Distinct(s: seq<string>) {
    && (forall i, j | 0 <= i < j < |s| :: s[i] != s[j])
    && "" !in s
  }

  ghost predicate Tidy(s: seq<string>) {
    Distinct(s) && Sorted(StringLeq, s)
  }

  lemma {:induction false} FreshMeans(out: seq<string>, s: seq<string>)
    requires Distinct(out)
    ensures Distinct(Fresh(out, s))
    ensures forall x :: x in Fresh(out, s) <==> x in out || (x in s && x != "")
  {
    if s != [] {
      FreshMeans(out, s[..|s| - 1]);
      assert s == s[..|s| - 1] + [s[|s| - 1]];
    }
  }

  lemma {:induction false} DistinctCount(s: seq<string>, x: string)
    requires Distinct(s)
    ensures multiset(s)[x] == if x in s then 1 else 0
  {
    if s != [] {
      var n := |s| - 1;
      assert s == s[..n] + [s[n]];
      DistinctCount(s[..n], x);
    }
  }

  lemma DistinctRearranged(s: seq<string>, t: seq<string>)
    requires Distinct(s) && multiset(s) == multiset(t)
    ensures Distinct(t) && forall x :: x in t <==> x in s
  {
    assert forall x :: x in t <==> x in multiset(t);
    assert forall x :: x in s <==> x in multiset(s);
    assert "" !in t;
    forall i, j | 0 <= i < j < |t| ensures t[i] != t[j] {
      DistinctCount(s, t[i]);
      if t[i] == t[j] {
        Twice(t, i, j);
      }
    }
  }

  lemma Twice(t: seq<string>, i: nat, j: nat)
    requires i < j < |t| && t[i] == t[j]
    ensures multiset(t)[t[i]] >= 2
  {
    assert t == t[..j] + [t[j]] + t[j + 1..];
    assert t[i] in t[..j];
  }

  /** A tidy list is determined by which labels it holds. */
  lemma TidyIsUnique(s: seq<string>, t: seq<string>)
    requires Tidy(s) && Tidy(t) && forall x :: x in s <==> x in t
    ensures s == t
  {
    forall x: string ensures multiset(s)[x] == multiset(t)[x] {
      DistinctCount(s, x);
      DistinctCount(t, x);
    }
    assert multiset(s) == multiset(t);
    StringOrder();
    SortedIsUnique(StringLeq, s, t);
  }

  /** The union of tidy lists is the tidy list of all labels of either. */
  lemma UnionMeans(a: seq<string>, b: seq<string>)
    requires Tidy(a) && Tidy(b)
    ensures Tidy(Union(a, b)) && forall x :: x in Union(a, b) <==> x in a || x in b
  {
    if a != [] && b != [] {
      var f := Fresh(Fresh([], a), b);
      FreshMeans([], a);
      FreshMeans(Fresh([], a), b);
      StringOrder();
      SortSorts(StringLeq, f);
      DistinctRearranged(f, Sort(StringLeq, f));
    }
  }

  // ---------- merging is a commutative monoid ----------

  ghost predicate Proper(i: Info) {
    Tidy(i.categories)
  }

  lemma MergeCommutes(a: Info, b: Info)
    requires Proper(a) && Proper(b)
    ensures Merged(a, b) == Merged(b, a) && Proper(Merged(a, b))
  {
    UnionMeans(a.categories, b.categories);
    UnionMeans(b.categories, a.categories);
    TidyIsUnique(Union(a.categories, b.categories), Union(b.categories, a.categories));
  }

  lemma MergeAssociates(a: Info, b: Info, c: Info)
    requires Proper(a) && Proper(b) && Proper(c)
    ensures Merged(Merged(a, b), c) == Merged(a, Merged(b, c))
  {
    var x, y, z := a.categories, b.categories, c.categories;
    UnionMeans(x, y);
    UnionMeans(y, z);
    UnionMeans(Union(x, y), z);
    UnionMeans(x, Union(y, z));
    TidyIsUnique(Union(Union(x, y), z), Union(x, Union(y, z)));
  }

  lemma MergeIdentity(a: Info)
    ensures Merged(NOTHING, a) == a == Merged(a, NOTHING)
  {
  }

  /** The summaries merged from first to last. */
  function MergedAll(infos: seq<Info>): Info {
    if infos == [] then NOTHING else Merged(MergedAll(infos[..|infos| - 1]), infos[|infos| - 1])
  }

  method MergeAll(infos: seq<Info>) returns (merged: Info)
    ensures merged == MergedAll(infos)
  {
    merged := NOTHING;
    var i := 0;
    while i < |infos|
      invariant i <= |infos| && merged == MergedAll(infos[..i])
    {
      assert infos[..i + 1][..i] == infos[..i];
      merged := Merge(merged, infos[i]);
      i := i + 1;
    }
    assert infos[..i] == infos;
  }

  function Total(infos: seq<Info>): int {
    if infos == [] then 0 else Total(infos[..|infos| - 1]) + infos[|infos| - 1].count
  }

  ghost predicate Labelled(infos: seq<Info>, x: string) {
    exists i :: 0 <= i < |infos| && x in infos[i].categories
  }

  lemma LabelledSplit(infos: seq<Info>, x: string)
    requires infos != []
    ensures var n := |infos| - 1;
            Labelled(infos, x) <==> Labelled(infos[..n], x) || x in infos[n].categories
  {
    var n := |infos| - 1;
    if Labelled(infos[..n], x) {
      var i :| 0 <= i < n && x in infos[..n][i].categories;
      assert x in infos[i].categories;
    }
    if Labelled(infos, x) && x !in infos[n].categories {
      var i :| 0 <= i < |infos| && x in infos[i].categories;
      assert x in infos[..n][i].categories;
    }
  }

  /** The merged summary counts the sum and lists, sorted and without repetition, exactly
      the labels that occur in some summary. */
  lemma {:induction false} MergedAllMeans(infos: seq<Info>)
    requires forall i | 0 <= i < |infos| :: Proper(infos[i])
    ensures MergedAll(infos).count == Total(infos) && Proper(MergedAll(infos))
    ensures forall x :: x in MergedAll(infos).categories <==> Labelled(infos, x)
  {
    if infos != [] {
      var n := |infos| - 1;
      MergedAllMeans(infos[..n]);
      UnionMeans(MergedAll(infos[..n]).categories, infos[n].categories);
      forall x ensures x in MergedAll(infos).categories <==> Labelled(infos, x) {
        LabelledSplit(infos, x);
      }
    }
  }

  lemma {:induction false} TotalRearranged(s: seq<Info>, t: seq<Info>)
    requires multiset(s) == multiset(t)
    ensures Total(s) == Total(t)
  {
    assert |s| == |multiset(s)| == |multiset(t)| == |t|;
    if s != [] {
      var n := |s| - 1;
      assert s == s[..n] + [s[n]];
      assert s[n] in multiset(t);
      var j :| 0 <= j < |t| && t[j] == s[n];
      RemoveAt(t, j);
      assert multiset(s[..n]) == multiset(s) - multiset{s[n]};
      TotalRearranged(s[..n], t[..j] + t[j + 1..]);
      TotalWithout(t, j);
    }
  }

  lemma {:induction false} TotalWithout(t: seq<Info>, j: nat)
    requires j < |t|
    ensures Total(t) == Total(t[..j] + t[j + 1..]) + t[j].count
  {
    var n := |t| - 1;
    if j == n {
      assert t[..j] + t[j + 1..] == t[..n];
    } else {
      TotalWithout(t[..n], j);
      var u := t[..j] + t[j + 1..];
      assert u[..|u| - 1] == t[..n][..j] + t[..n][j + 1..];
    }
  }

  /** Merging in any other order gives the same summary. */
  lemma MergeOrderIrrelevant(infos: seq<Info>, other: seq<Info>)
    requires (forall i | 0 <= i < |infos| :: Proper(infos[i])) && multiset(infos) == multiset(other)
    ensures MergedAll(other) == MergedAll(infos)
  {
    assert forall x :: x in other <==> x in multiset(other);
    assert forall x :: x in infos <==> x in multiset(infos);
    assert forall i | 0 <= i < |other| :: other[i] in infos;
    assert forall i | 0 <= i < |infos| :: infos[i] in other;
    MergedAllMeans(infos);
    MergedAllMeans(other);
    TotalRearranged(infos, other);
    TidyIsUnique(MergedAll(infos).categories, MergedAll(other).categories);
  }
}
