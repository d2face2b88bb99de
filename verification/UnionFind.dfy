// The disjoint-set forest behind the marker detector: parent links with path
// halving, union by rank.
module UnionFinds {

  function Pow2(n: nat): (r: nat)
    ensures n < r
  {
    if n == 0 then 1 else 2 * Pow2(n - 1)
  }

  lemma {:induction false} Pow2Monotone(a: nat, b: nat)
    requires a <= b
    ensures Pow2(a) <= Pow2(b)
  {
    if a < b {
      Pow2Monotone(a, b - 1);
    }
  }

  // ---------- the forest as a value ----------

  /** Links stay inside the array and strictly increase the rank. */
  ghost predicate Ranked(p: seq<int>, k: seq<int>) {
    && |k| == |p|
    && (forall i | 0 <= i < |p| :: 0 <= p[i] < |p|)
    && (forall i | 0 <= i < |k| :: 0 <= k[i])
    && (forall i | 0 <= i < |p| && p[i] != i :: k[i] < k[p[i]])
  }

  ghost function MaxOf(k: seq<int>): (m: int)
    ensures forall i | 0 <= i < |k| :: k[i] <= m
  {
    if k == [] then 0
    else
      var m := MaxOf(k[..|k| - 1]);
      if m < k[|k| - 1] then k[|k| - 1] else m
  }

  /** The root that following parent links from i ends at. */
  ghost function Root(p: seq<int>, k: seq<int>, i: int): (r: int)
    requires Ranked(p, k) && 0 <= i < |p|
    ensures 0 <= r < |p| && p[r] == r
    ensures k[i] <= k[r]
    decreases MaxOf(k) - k[i]
  {
    if p[i] == i then i else Root(p, k, p[i])
  }

  ghost function Roots(p: seq<int>, k: seq<int>): (rs: seq<int>)
    requires Ranked(p, k)
    ensures |rs| == |p|
    ensures forall i {:trigger rs[i]} | 0 <= i < |p| :: rs[i] == Root(p, k, i)
  {
    seq(|p|, i requires 0 <= i < |p| => Root(p, k, i))
  }

  /** A labelling that every link agrees with. */
  ghost predicate Labels(p: seq<int>, l: seq<int>) {
    && |l| == |p|
    && forall i {:trigger p[i]} | 0 <= i < |p| :: 0 <= p[i] < |p| && l[i] == if p[i] == i then i else l[p[i]]
  }

  /** Only one labelling agrees with the links: the root of every element. */
  lemma {:induction false} LabelsAreRoots(p: seq<int>, k: seq<int>, l: seq<int>)
    requires Ranked(p, k) && Labels(p, l)
    ensures l == Roots(p, k)
  {
    forall i | 0 <= i < |p| ensures l[i] == Root(p, k, i) {
      LabelIsRoot(p, k, l, i);
    }
  }

  lemma {:induction false} LabelIsRoot(p: seq<int>, k: seq<int>, l: seq<int>, i: int)
    requires Ranked(p, k) && Labels(p, l) && 0 <= i < |p|
    ensures l[i] == Root(p, k, i)
    decreases MaxOf(k) - k[i]
  {
    if p[i] != i {
      LabelIsRoot(p, k, l, p[i]);
    }
  }

  ghost function Members(l: seq<int>, r: int): set<int> {
    set i | 0 <= i < |l| && l[i] == r
  }

  /** A root of rank k owns at least 2^k elements. */
  ghost predicate Weighted(p: seq<int>, k: seq<int>)
    requires Ranked(p, k)
  {
    forall r {:trigger Members(Roots(p, k), r)} | 0 <= r < |p| && p[r] == r :: Pow2(k[r]) <= |Members(Roots(p, k), r)|
  }

  /** The concrete forest (p, k) represents the roots l. */
  ghost predicate Forest(p: seq<int>, k: seq<int>, l: seq<int>) {
    Ranked(p, k) && Weighted(p, k) && l == Roots(p, k)
  }

  lemma {:induction false} MembersBound(l: seq<int>, r: int)
    ensures |Members(l, r)| <= |l|
  {
    if l != [] {
      var n := |l| - 1;
      MembersBound(l[..n], r);
      var small := Members(l[..n], r);
      assert Members(l, r) == if l[n] == r then small + {n} else small;
    }
  }

  /** Ranks are at most log2 of the number of elements. */
  lemma RankIsLogarithmic(p: seq<int>, k: seq<int>, i: int)
    requires Ranked(p, k) && Weighted(p, k) && 0 <= i < |p|
    ensures Pow2(k[i]) <= |p|
  {
    var r := Root(p, k, i);
    MembersBound(Roots(p, k), r);
    Pow2Monotone(k[i], k[r]);
  }

  // ---------- what find and union do to the forest ----------

  lemma NewForest(p: seq<int>, k: seq<int>, l: seq<int>)
    requires |p| == |k| == |l|
    requires forall i | 0 <= i < |p| :: p[i] == i && k[i] == 0 && l[i] == i
    ensures Ranked(p, k) && Weighted(p, k) && l == Roots(p, k)
  {
    LabelsAreRoots(p, k, l);
    forall r | 0 <= r < |p| ensures 1 <= |Members(l, r)| {
      assert r in Members(l, r);
    }
  }

  /** One halving step: i is linked to its grandparent. */
  lemma HalvingKeepsForest(p: seq<int>, k: seq<int>, i: int)
    requires Ranked(p, k) && 0 <= i < |p|
    ensures Ranked(p[i := p[p[i]]], k)
    ensures Roots(p[i := p[p[i]]], k) == Roots(p, k)
    ensures Weighted(p, k) ==> Weighted(p[i := p[p[i]]], k)
  {
    var p' := p[i := p[p[i]]];
    assert Ranked(p', k);
    var l := Roots(p, k);
    assert l[i] == l[p[i]] == l[p[p[i]]];
    forall j | 0 <= j < |p| ensures l[j] == if p'[j] == j then j else l[p'[j]] {
      assert p[i] != i ==> k[i] < k[p[i]] <= k[p[p[i]]];
    }
    LabelsAreRoots(p', k, l);
    forall r | 0 <= r < |p| && p'[r] == r ensures p[r] == r {
    }
  }

  /** Every element rooted at loser becomes rooted at winner. */
  ghost function Relabel(l: seq<int>, loser: int, winner: int): (m: seq<int>)
    ensures |m| == |l|
    ensures forall i | 0 <= i < |l| :: m[i] == if l[i] == loser then winner else l[i]
  {
    seq(|l|, i requires 0 <= i < |l| => if l[i] == loser then winner else l[i])
  }

  ghost function LinkedRank(k: seq<int>, loser: int, winner: int): (k': seq<int>)
    requires 0 <= loser < |k| && 0 <= winner < |k|
    ensures |k'| == |k|
  {
    if k[winner] == k[loser] then k[winner := k[winner] + 1] else k
  }

  lemma LinkKeepsRanked(p: seq<int>, k: seq<int>, loser: int, winner: int)
    requires Ranked(p, k)
    requires 0 <= loser < |p| && 0 <= winner < |p| && loser != winner
    requires p[loser] == loser && p[winner] == winner && k[loser] <= k[winner]
    ensures Ranked(p[loser := winner], LinkedRank(k, loser, winner))
    ensures Roots(p[loser := winner], LinkedRank(k, loser, winner)) == Relabel(Roots(p, k), loser, winner)
  {
    var p', k' := p[loser := winner], LinkedRank(k, loser, winner);
    forall i | 0 <= i < |p'| && p'[i] != i ensures k'[i] < k'[p'[i]] {
    }
    assert Ranked(p', k');
    var l' := Relabel(Roots(p, k), loser, winner);
    assert Labels(p', l');
    LabelsAreRoots(p', k', l');
  }

  /** Relabelling adds up the two sets and leaves every other one alone. */
  lemma RelabelMembers(l: seq<int>, loser: int, winner: int, r: int)
    requires loser != winner && r != loser
    ensures r != winner ==> Members(Relabel(l, loser, winner), r) == Members(l, r)
    ensures |Members(Relabel(l, loser, winner), winner)| == |Members(l, winner)| + |Members(l, loser)|
  {
    var m := Relabel(l, loser, winner);
    assert Members(m, winner) == Members(l, winner) + Members(l, loser);
    assert Members(l, winner) !! Members(l, loser);
  }

  lemma LinkKeepsForest(p: seq<int>, k: seq<int>, l: seq<int>, loser: int, winner: int, p': seq<int>, k': seq<int>)
    requires Forest(p, k, l)
    requires 0 <= loser < |p| && 0 <= winner < |p| && loser != winner
    requires p[loser] == loser && p[winner] == winner && k[loser] <= k[winner]
    requires p' == p[loser := winner] && k' == LinkedRank(k, loser, winner)
    ensures Forest(p', k', Relabel(l, loser, winner))
  {
    LinkKeepsRanked(p, k, loser, winner);
    forall r | 0 <= r < |p'| && p'[r] == r ensures Pow2(k'[r]) <= |Members(Roots(p', k'), r)| {
      assert r != loser && p[r] == r;
      RelabelMembers(l, loser, winner, r);
      LinkedWeight(k, loser, winner, |Members(l, loser)|, |Members(l, r)|, r);
    }
  }

  /** The rank grows only when two sets of equal rank are added up. */
  lemma LinkedWeight(k: seq<int>, loser: int, winner: int, losers: nat, others: nat, r: int)
    requires 0 <= loser < |k| && 0 <= winner < |k| && 0 <= r < |k| && loser != r
    requires 0 <= k[loser] <= k[winner] && 0 <= k[r]
    requires Pow2(k[loser]) <= losers && Pow2(k[r]) <= others
    ensures 0 <= LinkedRank(k, loser, winner)[r]
    ensures Pow2(LinkedRank(k, loser, winner)[r]) <= if r == winner then others + losers else others
  {
    if r == winner && k[winner] == k[loser] {
      assert Pow2(k[winner] + 1) == 2 * Pow2(k[winner]);
    }
  }

  // ---------- the mutable structure ----------

  /** True of every u. Valid states the concrete invariant once for all u, so that it is
      unfolded only where Inside is asserted and callers reason with the roots alone. */
  ghost predicate Inside(u: int) {
    true
  }

  /** The links and the position after t turns of find's loop from i: each turn links the
      position to its grandparent and moves there. */
  ghost function Halved(p: seq<int>, i: int, t: nat): (pr: (seq<int>, int)) {
    if t == 0 then (p, i)
    else
      var (q, j) := Halved(p, i, t - 1);
      if 0 <= j < |q| && 0 <= q[j] < |q| then (q[j := q[q[j]]], q[q[j]]) else (q, j)
  }

  lemma HalvedNext(p: seq<int>, i: int, t: nat, q: seq<int>, j: int)
    requires (q, j) == Halved(p, i, t) && 0 <= j < |q| && 0 <= q[j] < |q|
    ensures (q[j := q[q[j]]], q[q[j]]) == Halved(p, i, t + 1)
  {
  }

  class UnionFind {
    var parent: array<int>
    var rank: array<int>
    /** The abstract value: the root of every element. */
    ghost var roots: seq<int>

    ghost predicate Valid()
      reads this, parent, rank
    {
      && parent != rank
      && parent.Length == rank.Length == |roots|
      && (forall i | 0 <= i < |roots| :: 0 <= roots[i] < |roots|)
      && forall u {:trigger Inside(u)} | Inside(u) :: Forest(parent[..], rank[..], roots)
    }

    constructor (n: nat)
      ensures Valid() && fresh(parent) && fresh(rank)
      ensures roots == seq(n, i => i)
      ensures forall i | 0 <= i < n :: rank[i] == 0
    {
      parent := new int[n];
      rank := new int[n](_ => 0);
      roots := seq(n, i => i);
      new;
      for i := 0 to n
        invariant fresh(parent) && fresh(rank) && parent != rank
        invariant parent.Length == rank.Length == n && roots == seq(n, i => i)
        invariant forall j | 0 <= j < i :: parent[j] == j
        invariant forall j | 0 <= j < n :: rank[j] == 0
      {
        parent[i] := i;
      }
      NewForest(parent[..], rank[..], roots);
    }

    /** The loop body of find: links i to its grandparent and steps there, strictly up in
        rank. */
    method Halve(i: int) returns (j: int)
      requires Valid() && 0 <= i < |roots| && parent[i] != i
      modifies parent
      ensures Valid() && 0 <= old(parent[i]) < |roots|
      ensures j == old(parent[parent[i]]) && 0 <= j < |roots|
      ensures parent[..] == old(parent[..])[i := j]
      ensures roots[j] == roots[i] && rank[i] < rank[j]
    {
      assert Inside(0);
      ghost var p, k := parent[..], rank[..];
      HalvingKeepsForest(p, k, i);
      assert k[i] < k[p[i]] <= k[p[p[i]]];
      assert roots[i] == roots[p[i]] == roots[p[p[i]]];
      parent[i] := parent[parent[i]];
      assert parent[..] == p[i := p[p[i]]];
      j := parent[i];
    }

    /** Returns the root of i, halving the path on the way. No root changes, so no
        set is split or re-keyed, and the loop turns at most log2(n) times. */
    method Find(i: int) returns (r: int, ghost turns: nat)
      requires Valid() && 0 <= i < |roots|
      modifies parent
      ensures Valid()
      ensures r == roots[i] && parent[r] == r && roots[r] == r
      ensures Pow2(turns) <= |roots|
      ensures (parent[..], r) == Halved(old(parent[..]), i, turns)
    {
      assert 0 <= rank[i] by {
        assert Inside(0);
      }
      ghost var start := parent[..];
      r := i;
      turns := 0;
      while parent[r] != r
        invariant Valid()
        invariant 0 <= r < |roots| && roots[r] == roots[i]
        invariant turns <= rank[r]
        invariant (parent[..], r) == Halved(start, i, turns)
        decreases MaxOf(rank[..]) - rank[r]
      {
        ghost var p, at := parent[..], r;
        r := Halve(r);
        HalvedNext(start, i, turns, p, at);
        turns := turns + 1;
      }
      AtRoot(r, turns);
    }

    /** At a root the search ends after at most log2(n) turns. */
    lemma AtRoot(r: int, turns: nat)
      requires Valid() && 0 <= r < |roots| && parent[r] == r && turns <= rank[r]
      ensures roots[r] == r && Pow2(turns) <= |roots|
    {
      assert Inside(0);
      RankIsLogarithmic(parent[..], rank[..], r);
      Pow2Monotone(turns, rank[r]);
    }

    /** Merges the sets of a and b: the root of higher rank wins, a's root on a tie. */
    method Union(a: int, b: int)
      requires Valid() && 0 <= a < |roots| && 0 <= b < |roots|
      modifies parent, rank, `roots
      ensures Valid()
      ensures (roots, rank[..]) == old(United(roots, rank[..], a, b))
    {
      var ra, _ := Find(a);
      var rb, _ := Find(b);
      if ra == rb {
        return;
      }
      assert Inside(0);
      if rank[ra] < rank[rb] {
        ra, rb := rb, ra;
      }
      Link(ra, rb);
    }

    /** Links one root under another of no lower rank. */
    method Link(ra: int, rb: int)
      requires Valid() && 0 <= ra < |roots| && 0 <= rb < |roots| && ra != rb
      requires parent[ra] == ra && parent[rb] == rb && rank[rb] <= rank[ra]
      modifies parent, rank, `roots
      ensures Valid()
      ensures parent[..] == old(parent[..])[rb := ra]
      ensures roots == old(Relabel(roots, rb, ra)) && rank[..] == old(LinkedRank(rank[..], rb, ra))
    {
      assert Inside(0);
      ghost var p, k := parent[..], rank[..];
      parent[rb] := ra;
      if rank[ra] == rank[rb] {
        rank[ra] := rank[ra] + 1;
      }
      LinkKeepsForest(p, k, roots, rb, ra, parent[..], rank[..]);
      roots := Relabel(roots, rb, ra);
    }
  }

  /** What a union of a and b makes of the roots and ranks. */
  ghost function United(l: seq<int>, k: seq<int>, a: int, b: int): (lk: (seq<int>, seq<int>))
    requires |k| == |l| && 0 <= a < |l| && 0 <= b < |l|
    requires forall i | 0 <= i < |l| :: 0 <= l[i] < |l|
    ensures |lk.0| == |lk.1| == |l|
    ensures forall i | 0 <= i < |l| :: 0 <= lk.0[i] < |l|
  {
    var ra, rb := l[a], l[b];
    if ra == rb then (l, k)
    else if k[ra] < k[rb] then (Relabel(l, ra, rb), LinkedRank(k, ra, rb))
    else (Relabel(l, rb, ra), LinkedRank(k, rb, ra))
  }

  /** Which root a union makes of which, and what it does to the ranks: the higher rank wins,
      the first on a tie, and only a tie raises the winner's rank, by one. */
  lemma UnionExactly(l: seq<int>, k: seq<int>, a: int, b: int, x: int)
    requires |k| == |l| && 0 <= a < |l| && 0 <= b < |l| && 0 <= x < |l|
    requires forall i | 0 <= i < |l| :: 0 <= l[i] < |l|
    ensures var (m, n) := United(l, k, a, b);
            var winner := if k[l[b]] <= k[l[a]] then l[a] else l[b];
            && m[x] == (if l[x] == l[a] || l[x] == l[b] then winner else l[x])
            && n[x] == k[x] + if l[a] != l[b] && k[l[a]] == k[l[b]] && x == winner then 1 else 0
  {
  }

  /** Two elements share a root after a union exactly when they did before or the
      union bridged their sets. */
  lemma UnionJoins(l: seq<int>, k: seq<int>, a: int, b: int, x: int, y: int)
    requires |k| == |l| && 0 <= a < |l| && 0 <= b < |l| && 0 <= x < |l| && 0 <= y < |l|
    requires forall i | 0 <= i < |l| :: 0 <= l[i] < |l|
    ensures var m := United(l, k, a, b).0;
            m[x] == m[y] <==> l[x] == l[y] || (l[x] == l[a] && l[y] == l[b]) || (l[x] == l[b] && l[y] == l[a])
  {
  }
}
