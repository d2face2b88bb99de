// Sorting as the standard library promises it: a sorted rearrangement. For an
// order with no ties between distinct elements there is only one, so which
// algorithm the library runs does not matter.
module Sorting {

  ghost predicate TotalOrder<T(!new)>(leq: (T, T) -> bool) {
    && (forall x, y :: leq(x, y) || leq(y, x))
    && (forall x, y, z :: leq(x, y) && leq(y, z) ==> leq(x, z))
  }

  ghost predicate Antisymmetric<T(!new)>(leq: (T, T) -> bool) {
    forall x, y :: leq(x, y) && leq(y, x) ==> x == y
  }

  /** No two different elements of s are tied. */
  ghost predicate NoTies<T(!new)>(leq: (T, T) -> bool, s: seq<T>) {
    forall x, y | x in s && y in s && leq(x, y) && leq(y, x) :: x == y
  }

  ghost predicate Sorted<T>(leq: (T, T) -> bool, s: seq<T>) {
    forall i, j | 0 <= i < j < |s| :: leq(s[i], s[j])
  }

  /** Where a stable sort puts x among the already sorted s: before its equals. */
  function Slot<T>(leq: (T, T) -> bool, x: T, s: seq<T>): (k: nat)
    ensures k <= |s|
    ensures forall i | 0 <= i < k :: !leq(x, s[i])
    ensures k < |s| ==> leq(x, s[k])
  {
    if s == [] || leq(x, s[0]) then 0 else 1 + Slot(leq, x, s[1..])
  }

  function Insert<T>(s: seq<T>, k: nat, x: T): (t: seq<T>)
    requires k <= |s|
    ensures |t| == |s| + 1
    ensures forall i | 0 <= i < |t| :: t[i] == if i < k then s[i] else if i == k then x else s[i - 1]
  {
    s[..k] + [x] + s[k..]
  }

  lemma InsertAdds<T>(s: seq<T>, k: nat, x: T)
    requires k <= |s|
    ensures multiset(Insert(s, k, x)) == multiset(s) + multiset{x}
  {
    assert s == s[..k] + s[k..];
  }

  function Sort<T>(leq: (T, T) -> bool, s: seq<T>): (t: seq<T>)
    ensures |t| == |s|
    ensures multiset(t) == multiset(s)
  {
    if s == [] then []
    else
      var t := Sort(leq, s[1..]);
      assert s == [s[0]] + s[1..];
      InsertAdds(t, Slot(leq, s[0], t), s[0]);
      Insert(t, Slot(leq, s[0], t), s[0])
  }

  lemma InsertSorts<T(!new)>(leq: (T, T) -> bool, x: T, t: seq<T>)
    requires TotalOrder(leq) && Sorted(leq, t)
    ensures Sorted(leq, Insert(t, Slot(leq, x, t), x))
  {
    var k := Slot(leq, x, t);
    var u := Insert(t, k, x);
    forall i, j | 0 <= i < j < |u| ensures leq(u[i], u[j]) {
      if i == k {
        assert leq(x, t[k]);
        assert k < j - 1 ==> leq(t[k], t[j - 1]);
      } else if j == k {
        assert !leq(x, t[i]);
      }
    }
  }

  lemma {:induction false} SortSorts<T(!new)>(leq: (T, T) -> bool, s: seq<T>)
    requires TotalOrder(leq)
    ensures Sorted(leq, Sort(leq, s))
  {
    if s != [] {
      SortSorts(leq, s[1..]);
      InsertSorts(leq, s[0], Sort(leq, s[1..]));
    }
  }

  ghost predicate IsPermutation(perm: seq<int>) {
    && (forall k | 0 <= k < |perm| :: 0 <= perm[k] < |perm|)
    && (forall j, k | 0 <= j < k < |perm| :: perm[j] != perm[k])
  }

  ghost function Shifted(perm: seq<int>): (up: seq<int>)
    ensures |up| == |perm| && forall i | 0 <= i < |perm| :: up[i] == perm[i] + 1
  {
    seq(|perm|, i requires 0 <= i < |perm| => perm[i] + 1)
  }

  lemma InsertPermutes(perm: seq<int>, k: nat)
    requires IsPermutation(perm) && k <= |perm|
    ensures IsPermutation(Insert(Shifted(perm), k, 0))
  {
    var order := Insert(Shifted(perm), k, 0);
    forall i, j | 0 <= i < j < |order| ensures order[i] != order[j] {
      var a, b := if i < k then i else i - 1, if j < k then j else j - 1;
      if i == k {
        assert order[j] == perm[b] + 1;
      } else if j == k {
        assert order[i] == perm[a] + 1;
      } else {
        assert order[i] == perm[a] + 1 && order[j] == perm[b] + 1;
      }
    }
  }

  lemma InsertTracks<T>(s: seq<T>, t: seq<T>, perm: seq<int>, k: nat)
    requires |s| == |t| + 1 == |perm| + 1 && k <= |perm|
    requires forall i | 0 <= i < |perm| :: 0 <= perm[i] < |t| && t[i] == s[1..][perm[i]]
    ensures var order := Insert(Shifted(perm), k, 0);
            forall i | 0 <= i < |s| :: 0 <= order[i] < |s| && Insert(t, k, s[0])[i] == s[order[i]]
  {
    var up, order := Shifted(perm), Insert(Shifted(perm), k, 0);
    assert forall i | 0 <= i < |t| :: t[i] == s[up[i]];
    forall i | 0 <= i < |s| ensures 0 <= order[i] < |s| && Insert(t, k, s[0])[i] == s[order[i]] {
      if i < k {
        assert order[i] == up[i];
      } else if i > k {
        assert order[i] == up[i - 1];
      }
    }
  }

  /** Which element of s ends up at each place of the sorted sequence. */
  ghost function SortOrder<T>(leq: (T, T) -> bool, s: seq<T>): (perm: seq<int>)
    ensures |perm| == |s| && IsPermutation(perm)
    ensures forall k | 0 <= k < |s| :: Sort(leq, s)[k] == s[perm[k]]
  {
    if s == [] then []
    else
      var inner := SortOrder(leq, s[1..]);
      var t := Sort(leq, s[1..]);
      var k := Slot(leq, s[0], t);
      InsertPermutes(inner, k);
      InsertTracks(s, t, inner, k);
      Insert(Shifted(inner), k, 0)
  }

  /** The sorted rearrangement of a sequence is unique. */
  lemma {:induction false} SortedIsUnique<T(!new)>(leq: (T, T) -> bool, s: seq<T>, t: seq<T>)
    requires TotalOrder(leq) && NoTies(leq, s)
    requires Sorted(leq, s) && Sorted(leq, t) && multiset(s) == multiset(t)
    ensures s == t
  {
    assert |s| == |multiset(s)| == |multiset(t)| == |t|;
    if s != [] {
      HeadsAgree(leq, s, t);
      TailsAgree(s, t);
      NoTiesInTail(leq, s);
      SortedIsUnique(leq, s[1..], t[1..]);
      assert s == [s[0]] + s[1..] && t == [t[0]] + t[1..];
    }
  }

  lemma NoTiesInTail<T(!new)>(leq: (T, T) -> bool, s: seq<T>)
    requires s != [] && NoTies(leq, s)
    ensures NoTies(leq, s[1..])
  {
    assert forall x | x in s[1..] :: x in s;
  }

  lemma TailsAgree<T>(s: seq<T>, t: seq<T>)
    requires s != [] && t != [] && s[0] == t[0] && multiset(s) == multiset(t)
    ensures multiset(s[1..]) == multiset(t[1..])
  {
    assert s == [s[0]] + s[1..] && t == [t[0]] + t[1..];
    assert multiset(s[1..]) == multiset(s) - multiset{s[0]};
    assert multiset(t[1..]) == multiset(t) - multiset{t[0]};
  }

  lemma HeadsAgree<T(!new)>(leq: (T, T) -> bool, s: seq<T>, t: seq<T>)
    requires TotalOrder(leq) && NoTies(leq, s) && s != [] && t != []
    requires Sorted(leq, s) && Sorted(leq, t) && multiset(s) == multiset(t)
    ensures s[0] == t[0]
  {
    assert s[0] in multiset(t) && t[0] in multiset(s);
    var j :| 0 <= j < |t| && t[j] == s[0];
    var i :| 0 <= i < |s| && s[i] == t[0];
    assert leq(s[0], s[0]) && leq(t[0], t[0]);
    assert leq(s[0], s[i]) && leq(t[0], t[j]);
  }

  // ---------- byte-wise string order ----------

  predicate StringLess(a: string, b: string) {
    if a == [] then b != []
    else b != [] && (a[0] < b[0] || (a[0] == b[0] && StringLess(a[1..], b[1..])))
  }

  predicate StringLeq(a: string, b: string) {
    !StringLess(b, a)
  }

  /** Strings compare at the first place where they differ, and a string comes before what
      continues it. */
  ghost predicate DiffersAt(a: string, b: string, k: int) {
    && 0 <= k <= |a| && k < |b| && a[..k] == b[..k]
    && (k == |a| || a[k] < b[k])
  }

  /** Past the first place the strings begin alike. */
  lemma DiffersLater(a: string, b: string)
    ensures forall k | DiffersAt(a, b, k) && 0 < k :: a != "" && b != "" && a[0] == b[0]
  {
    forall k | DiffersAt(a, b, k) && 0 < k ensures a != "" && b != "" && a[0] == b[0] {
      assert a[..k][0] == b[..k][0];
    }
  }

  lemma DiffersNext(a: string, b: string, k: int)
    requires a != "" && b != "" && a[0] == b[0] && 0 <= k
    ensures DiffersAt(a, b, k + 1) <==> DiffersAt(a[1..], b[1..], k)
  {
    if DiffersAt(a, b, k + 1) {
      assert a[..k + 1][1..] == a[1..][..k] && b[..k + 1][1..] == b[1..][..k];
    }
    if DiffersAt(a[1..], b[1..], k) {
      assert a[..k + 1] == [a[0]] + a[1..][..k] && b[..k + 1] == [b[0]] + b[1..][..k];
    }
  }

  lemma {:induction false} StringLessExactly(a: string, b: string)
    ensures StringLess(a, b) <==> exists k :: DiffersAt(a, b, k)
  {
    DiffersLater(a, b);
    if a != "" && b != "" && a[0] == b[0] {
      StringLessExactly(a[1..], b[1..]);
      if k :| DiffersAt(a[1..], b[1..], k) {
        DiffersNext(a, b, k);
      }
      if k :| DiffersAt(a, b, k) {
        DiffersNext(a, b, k - 1);
      }
    } else {
      assert DiffersAt(a, b, 0) <==> StringLess(a, b);
    }
  }

  lemma {:induction false} StringTrichotomy(a: string, b: string)
    ensures StringLess(a, b) || StringLess(b, a) || a == b
    ensures !(StringLess(a, b) && StringLess(b, a))
    ensures a == b ==> !StringLess(a, b)
  {
    if a != [] && b != [] {
      StringTrichotomy(a[1..], b[1..]);
      assert a == [a[0]] + a[1..] && b == [b[0]] + b[1..];
    }
  }

  lemma {:induction false} StringTransitive(a: string, b: string, c: string)
    requires StringLess(a, b) && StringLess(b, c)
    ensures StringLess(a, c)
  {
    if a != [] && a[0] == b[0] == c[0] {
      StringTransitive(a[1..], b[1..], c[1..]);
    }
  }

  lemma StringOrder()
    ensures TotalOrder(StringLeq) && Antisymmetric(StringLeq)
  {
    forall x: string, y: string ensures StringLeq(x, y) || StringLeq(y, x) {
      StringTrichotomy(x, y);
    }
    forall x: string, y: string | StringLeq(x, y) && StringLeq(y, x) ensures x == y {
      StringTrichotomy(x, y);
    }
    forall x: string, y: string, z: string | StringLeq(x, y) && StringLeq(y, z) ensures StringLeq(x, z) {
      StringTrichotomy(x, y);
      StringTrichotomy(y, z);
      StringTrichotomy(x, z);
      if StringLess(z, x) {
        if x == y || y == z {
        } else {
          StringTransitive(x, y, z);
        }
      }
    }
  }

  // ---------- counting ----------

  ghost function Places<T>(s: seq<T>, x: T): set<int> {
    set k | 0 <= k < |s| && s[k] == x
  }

  lemma {:induction false} CountIsPlaces<T>(s: seq<T>, x: T)
    ensures multiset(s)[x] == |Places(s, x)|
  {
    if s != [] {
      var n := |s| - 1;
      CountIsPlaces(s[..n], x);
      assert s == s[..n] + [s[n]];
      assert Places(s, x) == if s[n] == x then Places(s[..n], x) + {n} else Places(s[..n], x);
    }
  }

  lemma RemoveAt<T>(s: seq<T>, j: nat)
    requires j < |s|
    ensures multiset(s[..j] + s[j + 1..]) == multiset(s) - multiset{s[j]}
  {
    assert s == s[..j] + ([s[j]] + s[j + 1..]);
  }

  lemma EmptyMeansNoMember(s: set<int>)
    ensures (forall j :: j !in s) ==> s == {}
  {
    if forall j :: j !in s {
      assert s == {};
    }
  }

  lemma Pick(s: set<int>) returns (i: int)
    requires s != {}
    ensures i in s
  {
    EmptyMeansNoMember(s);
    i :| i in s;
  }

  lemma {:induction false} InjectionSize(src: set<int>, to: set<int>, f: map<int, int>)
    requires forall i | i in src :: i in f && f[i] in to
    requires forall i, j | i in src && j in src && i != j :: f[i] != f[j]
    ensures |src| <= |to|
  {
    if src != {} {
      var i := Pick(src);
      InjectionSize(src - {i}, to - {f[i]}, f);
    }
  }

  ghost predicate MapsInto<T(!new)>(s: seq<T>, t: seq<T>, f: map<int, int>) {
    && (forall i | 0 <= i < |s| :: i in f && 0 <= f[i] < |t| && t[f[i]] == s[i])
    && (forall i, j | 0 <= i < j < |s| :: f[i] != f[j])
  }

  lemma MappedCount<T(!new)>(s: seq<T>, t: seq<T>, f: map<int, int>, x: T)
    requires MapsInto(s, t, f)
    ensures multiset(s)[x] <= multiset(t)[x]
  {
    CountIsPlaces(s, x);
    CountIsPlaces(t, x);
    forall i, j | i in Places(s, x) && j in Places(s, x) && i != j ensures f[i] != f[j] {
      assert i < j || j < i;
    }
    InjectionSize(Places(s, x), Places(t, x), f);
  }

  /** If each of two sequences maps one-to-one into the other, value for value, they
      hold the same elements equally often. */
  lemma MatchedBothWays<T(!new)>(s: seq<T>, t: seq<T>, f: map<int, int>, g: map<int, int>)
    requires MapsInto(s, t, f) && MapsInto(t, s, g)
    ensures multiset(s) == multiset(t)
  {
    forall x: T ensures multiset(s)[x] == multiset(t)[x] {
      MappedCount(s, t, f, x);
      MappedCount(t, s, g, x);
    }
  }

  lemma {:induction false} DistinctFit(perm: seq<int>, to: set<int>)
    requires forall i | 0 <= i < |perm| :: perm[i] in to
    requires forall i, j | 0 <= i < j < |perm| :: perm[i] != perm[j]
    ensures |perm| <= |to|
  {
    if perm != [] {
      var n := |perm| - 1;
      DistinctFit(perm[..n], to - {perm[n]});
    }
  }

  ghost function Range(n: nat): (r: set<int>)
    ensures |r| == n && forall i :: i in r <==> 0 <= i < n
  {
    if n == 0 then {} else Range(n - 1) + {n - 1}
  }

  /** A permutation reaches every place. */
  lemma PermutationHits(perm: seq<int>, k: int) returns (j: int)
    requires IsPermutation(perm) && 0 <= k < |perm|
    ensures 0 <= j < |perm| && perm[j] == k
  {
    PermutationCovers(perm, k);
    j :| 0 <= j < |perm| && perm[j] == k;
  }

  lemma PermutationCovers(perm: seq<int>, k: int)
    requires IsPermutation(perm) && 0 <= k < |perm|
    ensures k in perm
  {
    if k !in perm {
      DistinctFit(perm, Range(|perm|) - {k});
    }
  }
}
