// 4-connectivity of the marked pixels of a grid, and why merging the ends of every
// scanned edge computes it.
module Connectivity {
  import opened UnionFinds

  /** Index of the first pixel of row y: the product y * w, added up row by row. */
  function Start(w: int, y: int): (r: int)
    requires 0 < w
    ensures 0 <= r
  {
    if y <= 0 then 0 else Start(w, y - 1) + w
  }

  lemma {:induction false} StartIsProduct(w: int, y: int)
    requires 0 < w && 0 <= y
    ensures Start(w, y) == y * w == w * y
  {
    if y > 0 {
      StartIsProduct(w, y - 1);
      assert (y - 1) * w + w == y * w;
    }
  }

  lemma {:induction false} StartGrows(w: int, y: int, z: int)
    requires 0 < w && 0 <= y < z
    ensures Start(w, y) + w <= Start(w, z)
  {
    if y + 1 < z {
      StartGrows(w, y, z - 1);
    }
  }

  /** The place of pixel i in a row-by-row numbering. */
  function ColOf(w: int, i: int): int
    requires 0 < w
    decreases i
  {
    if i < w then i else ColOf(w, i - w)
  }

  function RowOf(w: int, i: int): int
    requires 0 < w
    decreases i
  {
    if i < w then 0 else 1 + RowOf(w, i - w)
  }

  /** Marked pixels of a w by h picture, numbered row by row. */
  datatype Grid = Grid(w: int, h: int, lit: seq<bool>) {
    ghost predicate Valid() {
      0 < w && 0 < h && |lit| == Start(w, h)
    }

    function Col(i: int): int
      requires 0 < w
    {
      ColOf(w, i)
    }

    function Row(i: int): int
      requires 0 < w
    {
      RowOf(w, i)
    }

    ghost predicate Lit(i: int) {
      0 <= i < |lit| && lit[i]
    }

    /** Marked pixels that share a side. */
    ghost predicate Adjacent(i: int, j: int)
      requires 0 < w
    {
      && Lit(i) && Lit(j)
      && (|| (Row(i) == Row(j) && (Col(i) == Col(j) + 1 || Col(j) == Col(i) + 1))
          || (Col(i) == Col(j) && (Row(i) == Row(j) + 1 || Row(j) == Row(i) + 1)))
    }

    ghost predicate Walk(s: seq<int>)
      requires 0 < w
    {
      && s != [] && Lit(s[0])
      && forall j, k | 0 <= j < k < |s| && k == j + 1 :: Adjacent(s[j], s[k])
    }

    /** Two marked pixels belong to the same blob. */
    ghost predicate Connected(a: int, b: int)
      requires 0 < w
    {
      exists s :: Walk(s) && s[0] == a && s[|s| - 1] == b
    }

    /** The pairs the scan merges: a pixel and its marked neighbour to the right or below. */
    ghost predicate Edge(i: int, j: int)
      requires 0 < w
    {
      && Lit(i) && Lit(j)
      && ((j == i + 1 && Col(i) + 1 < w) || j == i + w)
    }
  }

  /** Pixel (x, y) has index y * w + x, and no other pixel has. */
  lemma {:induction false} RowMajor(g: Grid, y: int, x: int)
    requires 0 <= x < g.w && 0 <= y
    ensures g.Col(Start(g.w, y) + x) == x && g.Row(Start(g.w, y) + x) == y
    ensures y < g.h ==> Start(g.w, y) + x < Start(g.w, g.h)
  {
    if y > 0 {
      RowMajor(g, y - 1, x);
    }
    if y < g.h {
      StartGrows(g.w, y, g.h);
    }
  }

  lemma {:induction false} CellOf(g: Grid, i: int)
    requires 0 < g.w && 0 <= i
    ensures 0 <= g.Col(i) < g.w && 0 <= g.Row(i) && i == Start(g.w, g.Row(i)) + g.Col(i)
    decreases i
  {
    if g.w <= i {
      CellOf(g, i - g.w);
    }
  }

  lemma CellBounds(g: Grid, i: int)
    requires g.Valid() && 0 <= i < |g.lit|
    ensures 0 <= g.Col(i) < g.w && 0 <= g.Row(i) < g.h && i == Start(g.w, g.Row(i)) + g.Col(i)
  {
    CellOf(g, i);
    if g.h < g.Row(i) {
      StartGrows(g.w, g.h, g.Row(i));
    }
  }

  /** Scanned edges are exactly the adjacencies, each seen from its left or upper end. */
  lemma EdgesAreAdjacency(g: Grid, i: int, j: int)
    requires g.Valid()
    ensures g.Adjacent(i, j) <==> g.Edge(i, j) || g.Edge(j, i)
  {
    if g.Lit(i) && g.Lit(j) {
      CellBounds(g, i);
      CellBounds(g, j);
      Neighbours(g, i, j);
      Neighbours(g, j, i);
    }
  }

  lemma Neighbours(g: Grid, i: int, j: int)
    requires g.Valid() && g.Lit(i) && g.Lit(j)
    ensures g.Edge(i, j) <==> (g.Row(i) == g.Row(j) && g.Col(j) == g.Col(i) + 1)
                              || (g.Col(i) == g.Col(j) && g.Row(j) == g.Row(i) + 1)
  {
    CellBounds(g, i);
    CellBounds(g, j);
    if g.Col(i) + 1 < g.w {
      RowMajor(g, g.Row(i), g.Col(i) + 1);
    }
  }

  // ---------- chains over a set of edges ----------

  type Edges = set<(int, int)>

  ghost predicate Joined(e: Edges, a: int, b: int) {
    (a, b) in e || (b, a) in e
  }

  ghost predicate Chain(e: Edges, s: seq<int>) {
    s != [] && forall j, k | 0 <= j < k < |s| && k == j + 1 :: Joined(e, s[j], s[k])
  }

  /** The reflexive, symmetric and transitive closure of a set of edges. */
  ghost predicate Linked(e: Edges, a: int, b: int) {
    exists s :: Chain(e, s) && s[0] == a && s[|s| - 1] == b
  }

  lemma LinkedSelf(e: Edges, a: int)
    ensures Linked(e, a, a)
  {
    assert Chain(e, [a]);
  }

  lemma LinkedEdge(e: Edges, a: int, b: int)
    requires Joined(e, a, b)
    ensures Linked(e, a, b)
  {
    assert Chain(e, [a, b]);
  }

  lemma LinkedMore(e: Edges, e': Edges, a: int, b: int)
    requires e <= e' && Linked(e, a, b)
    ensures Linked(e', a, b)
  {
    var s :| Chain(e, s) && s[0] == a && s[|s| - 1] == b;
    forall j, k | 0 <= j < k < |s| && k == j + 1 ensures Joined(e', s[j], s[k]) {
      assert Joined(e, s[j], s[k]);
    }
    assert Chain(e', s);
  }

  lemma LinkedJoin(e: Edges, a: int, b: int, c: int)
    requires Linked(e, a, b) && Linked(e, b, c)
    ensures Linked(e, a, c)
  {
    var s :| Chain(e, s) && s[0] == a && s[|s| - 1] == b;
    var t :| Chain(e, t) && t[0] == b && t[|t| - 1] == c;
    var u := s + t[1..];
    forall j, k | 0 <= j < k < |u| && k == j + 1 ensures Joined(e, u[j], u[k]) {
      if k < |s| {
        assert u[j] == s[j] && u[k] == s[k];
      } else {
        assert u[j] == t[k - |s|] && u[k] == t[k - |s| + 1];
      }
    }
    assert Chain(e, u);
  }

  /** A labelling constant on every edge is constant along every chain. */
  lemma {:induction false} ChainKeepsLabel(e: Edges, l: seq<int>, s: seq<int>)
    requires forall a, b | (a, b) in e :: 0 <= a < |l| && 0 <= b < |l| && l[a] == l[b]
    requires Chain(e, s) && 0 <= s[0] < |l|
    ensures 0 <= s[|s| - 1] < |l| && l[s[|s| - 1]] == l[s[0]]
  {
    if |s| > 1 {
      var n := |s| - 1;
      assert Chain(e, s[..n]);
      ChainKeepsLabel(e, l, s[..n]);
      assert Joined(e, s[n - 1], s[n]);
    }
  }

  /** Labels are equal exactly for linked elements. */
  ghost predicate Partitions(l: seq<int>, e: Edges) {
    && (forall a, b | (a, b) in e :: 0 <= a < |l| && 0 <= b < |l|)
    && (forall a, b {:trigger Linked(e, a, b)} | 0 <= a < |l| && 0 <= b < |l| :: l[a] == l[b] <==> Linked(e, a, b))
  }

  lemma NoEdgesPartition(n: nat)
    ensures Partitions(seq(n, i => i), {})
  {
    var l := seq(n, i => i);
    forall a, b | 0 <= a < n && 0 <= b < n ensures l[a] == l[b] <==> Linked({}, a, b) {
      LinkedSelf({}, a);
      if Linked({}, a, b) {
        var s :| Chain({}, s) && s[0] == a && s[|s| - 1] == b;
        ChainKeepsLabel({}, l, s);
      }
    }
  }

  /** Union keeps root equality and linkedness the same relation. */
  lemma UnionPartitions(l: seq<int>, k: seq<int>, e: Edges, u: int, v: int)
    requires |k| == |l| && 0 <= u < |l| && 0 <= v < |l|
    requires forall i | 0 <= i < |l| :: 0 <= l[i] < |l|
    requires Partitions(l, e)
    ensures Partitions(United(l, k, u, v).0, e + {(u, v)})
  {
    var l', e' := United(l, k, u, v).0, e + {(u, v)};
    assert l'[u] == l'[v] by { UnionJoins(l, k, u, v, u, v); }
    forall a, b | (a, b) in e' ensures 0 <= a < |l'| && 0 <= b < |l'| && l'[a] == l'[b] {
      if (a, b) in e {
        LinkedEdge(e, a, b);
        UnionJoins(l, k, u, v, a, b);
      }
    }
    forall a, b | 0 <= a < |l'| && 0 <= b < |l'| ensures l'[a] == l'[b] <==> Linked(e', a, b) {
      UnionJoins(l, k, u, v, a, b);
      if Linked(e', a, b) {
        var s :| Chain(e', s) && s[0] == a && s[|s| - 1] == b;
        ChainKeepsLabel(e', l', s);
      }
      if l'[a] == l'[b] {
        BridgeLinks(l, e, u, v, a, b);
      }
    }
  }

  lemma BridgeLinks(l: seq<int>, e: Edges, u: int, v: int, a: int, b: int)
    requires 0 <= u < |l| && 0 <= v < |l| && 0 <= a < |l| && 0 <= b < |l|
    requires Partitions(l, e)
    requires l[a] == l[b] || (l[a] == l[u] && l[b] == l[v]) || (l[a] == l[v] && l[b] == l[u])
    ensures Linked(e + {(u, v)}, a, b)
  {
    var e' := e + {(u, v)};
    if l[a] == l[b] {
      LinkedMore(e, e', a, b);
    } else {
      var (x, y) := if l[a] == l[u] then (u, v) else (v, u);
      assert Linked(e, a, x) && Linked(e, y, b);
      LinkedMore(e, e', a, x);
      LinkedMore(e, e', y, b);
      LinkedEdge(e', x, y);
      LinkedJoin(e', a, x, y);
      LinkedJoin(e', a, y, b);
    }
  }

  /** Once every edge of the grid is in, chains are walks. */
  lemma LinkedIsConnected(g: Grid, e: Edges, a: int, b: int)
    requires g.Valid() && g.Lit(a)
    requires forall i, j :: (i, j) in e <==> g.Edge(i, j)
    ensures Linked(e, a, b) <==> g.Connected(a, b)
  {
    forall i, j ensures Joined(e, i, j) <==> g.Adjacent(i, j) {
      EdgesAreAdjacency(g, i, j);
    }
    if Linked(e, a, b) {
      var s :| Chain(e, s) && s[0] == a && s[|s| - 1] == b;
      assert g.Walk(s);
    }
    if g.Connected(a, b) {
      var s :| g.Walk(s) && s[0] == a && s[|s| - 1] == b;
      assert Chain(e, s);
    }
  }

  /** The roots left by the scan name the blobs. */
  lemma PartitionIsConnected(g: Grid, e: Edges, l: seq<int>)
    requires g.Valid() && |l| == |g.lit| && Partitions(l, e)
    requires forall i, j :: (i, j) in e <==> g.Edge(i, j)
    ensures forall a, b | g.Lit(a) && g.Lit(b) :: l[a] == l[b] <==> g.Connected(a, b)
    ensures forall a, b | g.Connected(a, b) :: g.Lit(a) && g.Lit(b)
  {
    forall a, b | g.Lit(a) && g.Lit(b) ensures l[a] == l[b] <==> g.Connected(a, b) {
      LinkedIsConnected(g, e, a, b);
    }
    forall a, b | g.Connected(a, b) ensures g.Lit(a) && g.Lit(b) {
      var s :| g.Walk(s) && s[0] == a && s[|s| - 1] == b;
      if |s| > 1 {
        assert g.Adjacent(s[|s| - 2], s[|s| - 1]);
      }
    }
  }
}
