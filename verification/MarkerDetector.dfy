// The region-marker detector: one bounding box per 4-connected blob of
// marker-coloured pixels.
module MarkerDetector {
  import opened Geometry
  import opened UnionFinds
  import opened Connectivity
  import opened Sorting

  datatype Region = Region(rect: Rect, category: string)

  datatype Marker = Marker(color: RGBA, tolerance: nat, minArea: int, category: string) {

    function Label(): string {
      if category == "" then "marker" else category
    }

    predicate Matches(p: RGBA) {
      && AbsDiff(p.a, color.a) <= tolerance
      && AbsDiff(p.r, color.r) <= tolerance
      && AbsDiff(p.g, color.g) <= tolerance
      && AbsDiff(p.b, color.b) <= tolerance
    }

    /** Noise suppression by bounding-box area; a cap of zero or less keeps every blob. */
    predicate Keeps(r: Rect) {
      minArea <= 0 || minArea <= r.Dx() * r.Dy()
    }
  }

  function AbsDiff(a: int, b: int): int {
    if a > b then a - b else b - a
  }

  datatype Detection = Found(regions: seq<Region>) | Canceled

  // ---------- what the detector must find ----------

  function PixelOf(img: Image, i: int): RGBA
    requires img.Valid() && !img.bounds.Empty() && 0 <= i < Start(img.bounds.Dx(), img.bounds.Dy())
  {
    var w, h := img.bounds.Dx(), img.bounds.Dy();
    var g := Grid(w, h, seq(Start(w, h), _ => false));
    CellBounds(g, i);
    img.rows[RowOf(w, i)][ColOf(w, i)]
  }

  ghost function GridOf(d: Marker, img: Image): (g: Grid)
    requires img.Valid() && !img.bounds.Empty()
    ensures g.Valid() && g.w == img.bounds.Dx() && g.h == img.bounds.Dy()
  {
    var w, h := img.bounds.Dx(), img.bounds.Dy();
    Grid(w, h, seq(Start(w, h), i requires 0 <= i < Start(w, h) => d.Matches(PixelOf(img, i))))
  }

  /** r is the smallest half-open rectangle around the blob of pixel a. */
  ghost predicate BlobBox(g: Grid, a: int, r: Rect)
    requires g.Valid()
  {
    && g.Lit(a)
    && (forall b {:trigger g.Connected(a, b)} | g.Connected(a, b) :: r.Has(g.Col(b), g.Row(b)))
    && (exists b {:trigger g.Connected(a, b)} :: g.Connected(a, b) && g.Col(b) == r.minX)
    && (exists b {:trigger g.Connected(a, b)} :: g.Connected(a, b) && g.Row(b) == r.minY)
    && (exists b {:trigger g.Connected(a, b)} :: g.Connected(a, b) && g.Col(b) + 1 == r.maxX)
    && (exists b {:trigger g.Connected(a, b)} :: g.Connected(a, b) && g.Row(b) + 1 == r.maxY)
  }

  /** Rectangle k is the box of the blob of pixel reps[k]; no blob is reported twice,
      and every blob whose box is large enough is reported. */
  ghost predicate OneBoxPerBlob(d: Marker, g: Grid, rects: seq<Rect>, reps: seq<int>)
    requires g.Valid()
  {
    && |reps| == |rects|
    && (forall k | 0 <= k < |reps| :: BlobBox(g, reps[k], rects[k]) && d.Keeps(rects[k]))
    && Apart(g, reps)
    && (forall a, r {:trigger Reported(g, reps, a), BlobBox(g, a, r)} | BlobBox(g, a, r) && d.Keeps(r) ::
         Reported(g, reps, a))
  }

  ghost predicate Apart(g: Grid, reps: seq<int>)
    requires g.Valid()
  {
    forall j, k | 0 <= j < k < |reps| :: !g.Connected(reps[j], reps[k])
  }

  ghost predicate Reported(g: Grid, reps: seq<int>, a: int)
    requires g.Valid()
  {
    exists k :: 0 <= k < |reps| && g.Connected(reps[k], a)
  }

  // ---------- connectedness is an equivalence ----------

  lemma ConnectedBothWays(g: Grid, a: int, b: int)
    requires g.Valid() && g.Connected(a, b)
    ensures g.Connected(b, a)
  {
    var s :| g.Walk(s) && s[0] == a && s[|s| - 1] == b;
    var t := seq(|s|, k requires 0 <= k < |s| => s[|s| - 1 - k]);
    forall j, k | 0 <= j < k < |t| && k == j + 1 ensures g.Adjacent(t[j], t[k]) {
      assert g.Adjacent(s[|s| - k - 1], s[|s| - k]);
    }
    assert g.Lit(t[0]) by {
      if |s| > 1 {
        assert g.Adjacent(s[|s| - 2], s[|s| - 1]);
      }
    }
    assert g.Walk(t);
  }

  lemma ConnectedThrough(g: Grid, a: int, b: int, c: int)
    requires g.Valid() && g.Connected(a, b) && g.Connected(b, c)
    ensures g.Connected(a, c)
  {
    var s :| g.Walk(s) && s[0] == a && s[|s| - 1] == b;
    var t :| g.Walk(t) && t[0] == b && t[|t| - 1] == c;
    var u := s + t[1..];
    forall j, k | 0 <= j < k < |u| && k == j + 1 ensures g.Adjacent(u[j], u[k]) {
      if k < |s| {
        assert u[j] == s[j] && u[k] == s[k];
      } else {
        assert u[j] == t[k - |s|] && u[k] == t[k - |s| + 1];
      }
    }
    assert g.Walk(u);
  }

  /** The smallest rectangle is determined by the blob. */
  lemma BlobBoxIsUnique(g: Grid, a: int, b: int, r: Rect, q: Rect)
    requires g.Valid() && g.Connected(a, b) && BlobBox(g, a, r) && BlobBox(g, b, q)
    ensures r == q
  {
    ConnectedBothWays(g, a, b);
    forall c ensures g.Connected(a, c) <==> g.Connected(b, c) {
      if g.Connected(a, c) { ConnectedThrough(g, b, a, c); }
      if g.Connected(b, c) { ConnectedThrough(g, a, b, c); }
    }
  }

  // ---------- the order of the result ----------

  predicate RegionLeq(a: Region, b: Region) {
    if a.rect.minY != b.rect.minY then a.rect.minY < b.rect.minY
    else if a.rect.minX != b.rect.minX then a.rect.minX < b.rect.minX
    else if a.rect.maxY != b.rect.maxY then a.rect.maxY < b.rect.maxY
    else if a.rect.maxX != b.rect.maxX then a.rect.maxX < b.rect.maxX
    else StringLeq(a.category, b.category)
  }

  lemma RegionOrder()
    ensures TotalOrder(RegionLeq) && Antisymmetric(RegionLeq)
  {
    StringOrder();
  }

  /** Grid rectangles as regions of the picture. */
  ghost function RegionsAt(d: Marker, img: Image, rects: seq<Rect>): (rs: seq<Region>)
    ensures |rs| == |rects|
    ensures forall k | 0 <= k < |rects| :: rs[k] == RegionAt(d, img, rects[k])
  {
    seq(|rects|, k requires 0 <= k < |rects| => RegionAt(d, img, rects[k]))
  }

  function RegionAt(d: Marker, img: Image, r: Rect): Region {
    Region(r.Moved(img.bounds.minX, img.bounds.minY), d.Label())
  }

  /** What a completed detection owes: one tight box per blob, in the canonical order. */
  ghost predicate Answers(d: Marker, img: Image, regions: seq<Region>)
    requires img.Valid()
  {
    && Sorted(RegionLeq, regions)
    && if img.bounds.Empty() then regions == []
       else exists rects, reps ::
              OneBoxPerBlob(d, GridOf(d, img), rects, reps) && regions == RegionsAt(d, img, rects)
  }

  ghost function Rearranged<T>(s: seq<T>, perm: seq<int>): (t: seq<T>)
    requires |perm| == |s| && IsPermutation(perm)
    ensures |t| == |s| && forall k | 0 <= k < |s| :: t[k] == s[perm[k]]
  {
    seq(|s|, k requires 0 <= k < |s| => s[perm[k]])
  }

  /** Reordering the boxes together with their blobs changes nothing. */
  lemma ReorderedBoxes(d: Marker, g: Grid, rects: seq<Rect>, reps: seq<int>, perm: seq<int>)
    requires g.Valid() && OneBoxPerBlob(d, g, rects, reps)
    requires |perm| == |rects| && IsPermutation(perm)
    ensures OneBoxPerBlob(d, g, Rearranged(rects, perm), Rearranged(reps, perm))
  {
    ReorderedApart(g, reps, perm);
    forall a, r | BlobBox(g, a, r) && d.Keeps(r) ensures Reported(g, Rearranged(reps, perm), a) {
      assert Reported(g, reps, a);
      ReorderedReported(g, reps, perm, a);
    }
  }

  lemma ReorderedApart(g: Grid, reps: seq<int>, perm: seq<int>)
    requires g.Valid() && Apart(g, reps) && |perm| == |reps| && IsPermutation(perm)
    ensures Apart(g, Rearranged(reps, perm))
  {
    var t := Rearranged(reps, perm);
    forall j, k | 0 <= j < k < |t| ensures !g.Connected(t[j], t[k]) {
      if perm[k] < perm[j] && g.Connected(t[j], t[k]) {
        ConnectedBothWays(g, t[j], t[k]);
      }
    }
  }

  lemma ReorderedReported(g: Grid, reps: seq<int>, perm: seq<int>, a: int)
    requires g.Valid() && Reported(g, reps, a) && |perm| == |reps| && IsPermutation(perm)
    ensures Reported(g, Rearranged(reps, perm), a)
  {
    var k :| 0 <= k < |reps| && g.Connected(reps[k], a);
    var j := PermutationHits(perm, k);
    assert Rearranged(reps, perm)[j] == reps[k];
  }

  // ---------- the detector ----------

  /** m holds the first n entries of lit and is unset from there on. */
  ghost predicate FilledTo(m: seq<bool>, lit: seq<bool>, n: int) {
    |m| == |lit| && forall i | 0 <= i < |m| :: m[i] == (i < n && lit[i])
  }

  ghost predicate AnyBefore(lit: seq<bool>, n: int) {
    exists i :: 0 <= i < n && i < |lit| && lit[i]
  }

  lemma FilledNext(m: seq<bool>, lit: seq<bool>, n: nat, next: nat)
    requires FilledTo(m, lit, n) && n < |lit| && next == n + 1
    ensures FilledTo(if lit[n] then m[n := true] else m, lit, next)
    ensures AnyBefore(lit, next) <==> AnyBefore(lit, n) || lit[n]
  {
  }

  /** Arithmetic of pixel (x, y) in a row-by-row layout. */
  lemma PixelIndex(g: Grid, y: int, x: int)
    requires 0 <= x < g.w && 0 <= y < g.h
    ensures Start(g.w, y) + x < Start(g.w, g.h)
    ensures g.Col(Start(g.w, y) + x) == x && g.Row(Start(g.w, y) + x) == y
    ensures Start(g.w, y + 1) == Start(g.w, y) + g.w
    ensures x + 1 < g.w ==> Start(g.w, y) + x + 1 < Start(g.w, g.h)
    ensures y + 1 < g.h <==> Start(g.w, y) + x + g.w < Start(g.w, g.h)
  {
    RowMajor(g, y, x);
    StartGrows(g.w, y, g.h);
    if y + 1 < g.h {
      StartGrows(g.w, y + 1, g.h);
    }
  }

  /** Entry y * w + x of the grid is about pixel (x, y) of the picture. */
  lemma PixelLit(d: Marker, img: Image, y: int, x: int)
    requires img.Valid() && !img.bounds.Empty()
    requires 0 <= x < img.bounds.Dx() && 0 <= y < img.bounds.Dy()
    ensures var g := GridOf(d, img);
            && Start(g.w, y) + x < |g.lit|
            && g.lit[Start(g.w, y) + x] == d.Matches(img.At(img.bounds.minX + x, img.bounds.minY + y))
  {
    var g := GridOf(d, img);
    PixelIndex(g, y, x);
    assert g.lit[Start(g.w, y) + x] == d.Matches(PixelOf(img, Start(g.w, y) + x));
  }

  /** The inner loop of the marker scan: row y. */
  method ScanRow(d: Marker, img: Image, y: int, marks: array<bool>) returns (found: bool)
    requires img.Valid() && !img.bounds.Empty() && 0 <= y < img.bounds.Dy()
    requires FilledTo(marks[..], GridOf(d, img).lit, Start(img.bounds.Dx(), y))
    modifies marks
    ensures FilledTo(marks[..], GridOf(d, img).lit, Start(img.bounds.Dx(), y + 1))
    ensures found || AnyBefore(GridOf(d, img).lit, Start(img.bounds.Dx(), y))
            <==> AnyBefore(GridOf(d, img).lit, Start(img.bounds.Dx(), y + 1))
  {
    var w := img.bounds.Dx();
    ghost var lit := GridOf(d, img).lit;
    var base := Start(w, y);
    found := false;
    for x := 0 to w
      invariant FilledTo(marks[..], lit, base + x)
      invariant found || AnyBefore(lit, base) <==> AnyBefore(lit, base + x)
    {
      PixelLit(d, img, y, x);
      var i := base + x;
      ghost var m := marks[..];
      FilledNext(m, lit, i, i + 1);
      if d.Matches(img.At(img.bounds.minX + x, img.bounds.minY + y)) {
        marks[i] := true;
        found := true;
      }
      assert marks[..] == if lit[i] then m[i := true] else m;
    }
    assert Start(w, y + 1) == base + w;
  }

  /** Fills marks and polls the context once every 64 rows. */
  method ScanMarkers(d: Marker, img: Image, polls: int -> bool)
    returns (marks: array<bool>, any: bool, stopped: bool)
    requires img.Valid() && !img.bounds.Empty()
    ensures fresh(marks)
    ensures stopped <==> exists y :: 0 <= y < img.bounds.Dy() && y % 64 == 0 && polls(y)
    ensures !stopped ==> marks[..] == GridOf(d, img).lit
    ensures !stopped ==> any == AnyBefore(GridOf(d, img).lit, |GridOf(d, img).lit|)
  {
    var w, h := img.bounds.Dx(), img.bounds.Dy();
    ghost var lit := GridOf(d, img).lit;
    marks := new bool[Start(w, h)](_ => false);
    any, stopped := false, false;
    for y := 0 to h
      invariant fresh(marks)
      invariant forall k | 0 <= k < y && k % 64 == 0 :: !polls(k)
      invariant FilledTo(marks[..], lit, Start(w, y))
      invariant any == AnyBefore(lit, Start(w, y))
    {
      if y % 64 == 0 {
        if polls(y) {
          stopped := true;
          return;
        }
      }
      var found := ScanRow(d, img, y, marks);
      any := any || found;
    }
  }

  ghost predicate EdgesTo(g: Grid, edges: Edges, n: int)
    requires g.Valid()
  {
    forall i, j :: (i, j) in edges <==> g.Edge(i, j) && i < n
  }

  ghost function EdgeIf(taken: bool, i: int, j: int): Edges {
    if taken then {(i, j)} else {}
  }

  /** The two neighbours looked at are all the edges that start at a pixel. */
  lemma PixelEdges(g: Grid, edges: Edges, x: int, y: int, right: bool, down: bool)
    requires g.Valid() && 0 <= x < g.w && 0 <= y < g.h
    requires EdgesTo(g, edges, Start(g.w, y) + x)
    requires var i := Start(g.w, y) + x;
             && (right <==> x + 1 < g.w && g.Lit(i) && g.Lit(i + 1))
             && (down <==> y + 1 < g.h && g.Lit(i) && g.Lit(i + g.w))
    ensures var i := Start(g.w, y) + x;
            EdgesTo(g, edges + EdgeIf(right, i, i + 1) + EdgeIf(down, i, i + g.w), i + 1)
  {
    PixelIndex(g, y, x);
  }

  /** Merges the ends of an edge if the neighbour is there and marked. */
  method JoinIf(taken: bool, i: int, j: int, uf: UnionFind, ghost edges: Edges)
    requires uf.Valid() && (taken ==> 0 <= i < |uf.roots| && 0 <= j < |uf.roots|)
    requires Partitions(uf.roots, edges)
    modifies uf.parent, uf.rank, uf`roots
    ensures uf.Valid() && Partitions(uf.roots, edges + EdgeIf(taken, i, j))
  {
    if taken {
      UnionPartitions(uf.roots, uf.rank[..], edges, i, j);
      uf.Union(i, j);
    } else {
      assert edges + EdgeIf(taken, i, j) == edges;
    }
  }

  /** The body of the union pass at pixel i: merges it with its marked right and lower
      neighbours, where there are any. */
  method MergePixel(i: int, w: int, hasRight: bool, hasDown: bool, lit: seq<bool>, uf: UnionFind, ghost edges: Edges)
    requires 0 <= i < |lit| == |uf.roots| && 0 < w
    requires (hasRight ==> i + 1 < |lit|) && (hasDown ==> i + w < |lit|)
    requires uf.Valid() && Partitions(uf.roots, edges)
    modifies uf.parent, uf.rank, uf`roots
    ensures uf.Valid()
    ensures Partitions(uf.roots, edges + EdgeIf(lit[i] && hasRight && lit[i + 1], i, i + 1)
                                          + EdgeIf(lit[i] && hasDown && lit[i + w], i, i + w))
  {
    var right := lit[i] && hasRight && lit[i + 1];
    JoinIf(right, i, i + 1, uf, edges);
    var down := lit[i] && hasDown && lit[i + w];
    JoinIf(down, i, i + w, uf, edges + EdgeIf(right, i, i + 1));
  }

  /** One row of the union pass. */
  method MergeRow(w: int, h: int, y: int, lit: seq<bool>, uf: UnionFind, ghost before: Edges)
    returns (ghost edges: Edges)
    requires Grid(w, h, lit).Valid() && 0 <= y < h
    requires uf.Valid() && |uf.roots| == |lit|
    requires Partitions(uf.roots, before) && EdgesTo(Grid(w, h, lit), before, Start(w, y))
    modifies uf.parent, uf.rank, uf`roots
    ensures uf.Valid() && |uf.roots| == |lit|
    ensures Partitions(uf.roots, edges) && EdgesTo(Grid(w, h, lit), edges, Start(w, y + 1))
  {
    ghost var g := Grid(w, h, lit);
    edges := before;
    for x := 0 to w
      invariant uf.Valid() && |uf.roots| == |lit|
      invariant Partitions(uf.roots, edges) && EdgesTo(g, edges, Start(w, y) + x)
    {
      PixelIndex(g, y, x);
      var i := Start(w, y) + x;
      ghost var right, down := lit[i] && x + 1 < w && lit[i + 1], lit[i] && y + 1 < h && lit[i + w];
      PixelEdges(g, edges, x, y, right, down);
      MergePixel(i, w, x + 1 < w, y + 1 < h, lit, uf, edges);
      edges := edges + EdgeIf(right, i, i + 1) + EdgeIf(down, i, i + w);
    }
  }

  /** The union pass: afterwards two marked pixels share a root exactly when a path of
      adjacent marked pixels joins them. */
  method MergeNeighbours(w: int, h: int, lit: seq<bool>) returns (uf: UnionFind)
    requires Grid(w, h, lit).Valid()
    ensures fresh(uf) && fresh(uf.parent) && fresh(uf.rank) && uf.Valid()
    ensures RootsNameBlobs(Grid(w, h, lit), uf.roots)
  {
    ghost var g := Grid(w, h, lit);
    uf := new UnionFind(Start(w, h));
    ghost var edges: Edges := {};
    NoEdgesPartition(Start(w, h));
    for y := 0 to h
      invariant fresh(uf) && fresh(uf.parent) && fresh(uf.rank) && uf.Valid() && |uf.roots| == |lit|
      invariant Partitions(uf.roots, edges) && EdgesTo(g, edges, Start(w, y))
    {
      edges := MergeRow(w, h, y, lit, uf, edges);
    }
    PartitionIsConnected(g, edges, uf.roots);
  }

  /** Roots are equal exactly for marked pixels joined by a walk. */
  ghost predicate RootsNameBlobs(g: Grid, l: seq<int>)
    requires g.Valid()
  {
    && |l| == |g.lit|
    && (forall i | 0 <= i < |l| :: 0 <= l[i] < |l|)
    && (forall a, b {:trigger g.Connected(a, b)} | g.Lit(a) && g.Lit(b) :: l[a] == l[b] <==> g.Connected(a, b))
    && (forall a, b | g.Connected(a, b) :: g.Lit(a) && g.Lit(b))
  }

  // ---------- the box pass ----------

  /** Inclusive bounds of the pixels of one root seen so far. */
  datatype Box = Box(minX: int, minY: int, maxX: int, maxY: int) {
    function Rectangle(): Rect {
      Rect(minX, minY, maxX + 1, maxY + 1)
    }
  }

  /** Marked pixel a is among the first n and has root r. */
  ghost predicate Seen(g: Grid, l: seq<int>, r: int, n: int, a: int)
    requires |l| == |g.lit|
  {
    0 <= a < n && g.Lit(a) && l[a] == r
  }

  ghost predicate Spans(g: Grid, l: seq<int>, r: int, n: int, b: Box)
    requires g.Valid() && |l| == |g.lit|
  {
    && (forall a {:trigger Seen(g, l, r, n, a)} | Seen(g, l, r, n, a) ::
         b.minX <= g.Col(a) <= b.maxX && b.minY <= g.Row(a) <= b.maxY)
    && (exists a {:trigger Seen(g, l, r, n, a)} :: Seen(g, l, r, n, a) && g.Col(a) == b.minX)
    && (exists a {:trigger Seen(g, l, r, n, a)} :: Seen(g, l, r, n, a) && g.Row(a) == b.minY)
    && (exists a {:trigger Seen(g, l, r, n, a)} :: Seen(g, l, r, n, a) && g.Col(a) == b.maxX)
    && (exists a {:trigger Seen(g, l, r, n, a)} :: Seen(g, l, r, n, a) && g.Row(a) == b.maxY)
  }

  /** One box per root among the first n pixels. */
  ghost predicate BoxesTo(g: Grid, l: seq<int>, n: int, boxes: map<nat, Box>)
    requires g.Valid() && |l| == |g.lit|
  {
    && (forall a {:trigger g.Lit(a)} | 0 <= a < n && g.Lit(a) :: l[a] in boxes)
    && (forall r: nat {:trigger SpansOf(g, l, r, n, boxes)} :: SpansOf(g, l, r, n, boxes))
  }

  ghost predicate SpansOf(g: Grid, l: seq<int>, r: nat, n: int, boxes: map<nat, Box>)
    requires g.Valid() && |l| == |g.lit|
  {
    r in boxes ==> Spans(g, l, r, n, boxes[r])
  }

  function Grown(b: Box, x: int, y: int): Box {
    Box(Min(b.minX, x), Min(b.minY, y), Max(b.maxX, x), Max(b.maxY, y))
  }

  /** Pixel n joins root r's pixels if it has that root, and nothing else happens. */
  lemma SeenNext(g: Grid, l: seq<int>, r: int, n: int, m: int)
    requires |l| == |g.lit| && m == n + 1
    ensures forall a {:trigger Seen(g, l, r, m, a)} {:trigger Seen(g, l, r, n, a)} ::
              Seen(g, l, r, m, a) <==> Seen(g, l, r, n, a) || (a == n && Seen(g, l, r, m, n))
  {
  }

  lemma SpansUnmarked(g: Grid, l: seq<int>, r: int, n: int, m: int, b: Box)
    requires g.Valid() && |l| == |g.lit| && m == n + 1 && Spans(g, l, r, n, b)
    requires !Seen(g, l, r, m, n)
    ensures Spans(g, l, r, m, b)
  {
    SeenNext(g, l, r, n, m);
  }

  lemma SpansGrown(g: Grid, l: seq<int>, r: int, n: int, m: int, b: Box)
    requires g.Valid() && |l| == |g.lit| && m == n + 1 && Spans(g, l, r, n, b)
    requires Seen(g, l, r, m, n)
    ensures Spans(g, l, r, m, Grown(b, g.Col(n), g.Row(n)))
  {
    SeenNext(g, l, r, n, m);
  }

  lemma SpansFirst(g: Grid, l: seq<int>, r: int, n: int, m: int)
    requires g.Valid() && |l| == |g.lit| && m == n + 1
    requires Seen(g, l, r, m, n) && forall a :: !Seen(g, l, r, n, a)
    ensures Spans(g, l, r, m, Box(g.Col(n), g.Row(n), g.Col(n), g.Row(n)))
  {
    SeenNext(g, l, r, n, m);
  }

  lemma BoxesStep(g: Grid, l: seq<int>, n: nat, m: nat, boxes: map<nat, Box>, x: int, y: int)
    requires g.Valid() && |l| == |g.lit| && m == n + 1 && BoxesTo(g, l, n, boxes)
    requires n < |l| && 0 <= l[n] && x == g.Col(n) && y == g.Row(n)
    ensures BoxesTo(g, l, m, if g.lit[n] then WithPixel(boxes, l[n], x, y) else boxes)
  {
    var r := l[n];
    var more := if g.lit[n] then WithPixel(boxes, l[n], x, y) else boxes;
    forall q: nat ensures SpansOf(g, l, q, m, more) {
      assert SpansOf(g, l, q, n, boxes);
      if q !in more {
      } else if !g.lit[n] || q != r {
        SpansUnmarked(g, l, q, n, m, boxes[q]);
      } else if r in boxes {
        SpansGrown(g, l, r, n, m, boxes[r]);
      } else {
        SpansFirst(g, l, r, n, m);
      }
    }
  }

  method GrowBox(b: Box, x: int, y: int) returns (bx: Box)
    ensures bx == Grown(b, x, y)
  {
    bx := b;
    if x < bx.minX {
      bx := bx.(minX := x);
    }
    if x > bx.maxX {
      bx := bx.(maxX := x);
    }
    if y < bx.minY {
      bx := bx.(minY := y);
    }
    if y > bx.maxY {
      bx := bx.(maxY := y);
    }
  }

  /** The body of the box pass at pixel i = (x, y). */
  method AddPixel(i: nat, x: int, y: int, lit: seq<bool>, uf: UnionFind, boxes: map<nat, Box>)
    returns (more: map<nat, Box>)
    requires uf.Valid() && i < |uf.roots| == |lit|
    modifies uf.parent
    ensures uf.Valid()
    ensures more == if lit[i] then WithPixel(boxes, uf.roots[i], x, y) else boxes
  {
    if !lit[i] {
      return boxes;
    }
    var r, _ := uf.Find(i);
    if r !in boxes {
      return boxes[r := Box(x, y, x, y)];
    }
    var bx := GrowBox(boxes[r], x, y);
    return boxes[r := bx];
  }

  function WithPixel(boxes: map<nat, Box>, r: nat, x: int, y: int): map<nat, Box> {
    boxes[r := if r in boxes then Grown(boxes[r], x, y) else Box(x, y, x, y)]
  }

  /** Accumulates one bounding box per root. Finds halve paths as they go, which never
      changes a root, so no blob is split or filed under a second key. */
  method CollectBoxes(w: int, h: int, lit: seq<bool>, uf: UnionFind) returns (boxes: map<nat, Box>)
    requires Grid(w, h, lit).Valid()
    requires uf.Valid() && |uf.roots| == |lit|
    modifies uf.parent
    ensures uf.Valid()
    ensures BoxesTo(Grid(w, h, lit), uf.roots, |lit|, boxes)
  {
    ghost var g, l := Grid(w, h, lit), uf.roots;
    boxes := map[];
    for y := 0 to h
      invariant uf.Valid() && uf.roots == l
      invariant BoxesTo(g, l, Start(w, y), boxes)
    {
      for x := 0 to w
        invariant uf.Valid() && uf.roots == l
        invariant BoxesTo(g, l, Start(w, y) + x, boxes)
      {
        PixelIndex(g, y, x);
        var i := Start(w, y) + x;
        BoxesStep(g, l, i, i + 1, boxes, x, y);
        boxes := AddPixel(i, x, y, lit, uf, boxes);
      }
    }
  }

  /** A box that spans a root's pixels is the tight box of their blob. */
  lemma SpansIsBlobBox(g: Grid, l: seq<int>, r: int, n: int, b: Box, a: int)
    requires g.Valid() && RootsNameBlobs(g, l) && n == |l| && Spans(g, l, r, n, b) && Seen(g, l, r, n, a)
    ensures BlobBox(g, a, b.Rectangle())
  {
    forall c {:trigger Seen(g, l, r, n, c)} {:trigger g.Connected(a, c)}
      ensures Seen(g, l, r, n, c) <==> g.Connected(a, c)
    {
      if g.Connected(a, c) {
        assert g.Lit(c);
      }
    }
  }

  /** Boxes taken so far, each under its own root. */
  ghost predicate Taken(d: Marker, boxes: map<nat, Box>, rest: set<nat>, rects: seq<Rect>, keys: seq<nat>) {
    && |keys| == |rects|
    && (forall k | 0 <= k < |keys| :: keys[k] in boxes && keys[k] !in rest && rects[k] == boxes[keys[k]].Rectangle())
    && (forall k | 0 <= k < |rects| :: d.Keeps(rects[k]))
    && (forall j, k | 0 <= j < k < |keys| :: keys[j] != keys[k])
    && (forall r | r in boxes && r !in rest && d.Keeps(boxes[r].Rectangle()) :: r in keys)
  }

  /** The final loop over the box map, in whatever order the map yields its keys. */
  method TakeBoxes(d: Marker, img: Image, boxes: map<nat, Box>)
    returns (regions: seq<Region>, ghost rects: seq<Rect>, ghost keys: seq<nat>)
    ensures Taken(d, boxes, {}, rects, keys)
    ensures regions == RegionsAt(d, img, rects)
  {
    regions, rects, keys := [], [], [];
    var rest := boxes.Keys;
    while rest != {}
      invariant rest <= boxes.Keys
      invariant Taken(d, boxes, rest, rects, keys)
      invariant regions == RegionsAt(d, img, rects)
      decreases rest
    {
      var r :| r in rest;
      rest := rest - {r};
      var rect := boxes[r].Rectangle();
      if d.Keeps(rect) {
        regions := regions + [RegionAt(d, img, rect)];
        rects := rects + [rect];
        keys := keys + [r];
      }
    }
  }

  ghost function SomeSeen(g: Grid, l: seq<int>, r: int, n: int, b: Box): (a: int)
    requires g.Valid() && |l| == |g.lit| && Spans(g, l, r, n, b)
    ensures Seen(g, l, r, n, a)
  {
    var a :| Seen(g, l, r, n, a) && g.Col(a) == b.minX;
    a
  }

  lemma ConnectedSelf(g: Grid, a: int)
    requires g.Valid() && g.Lit(a)
    ensures g.Connected(a, a)
  {
    assert g.Walk([a]);
  }

  /** A blob whose box is large enough was taken under its root. */
  lemma TakenReports(d: Marker, g: Grid, l: seq<int>, boxes: map<nat, Box>, rects: seq<Rect>, keys: seq<nat>, a: int,
                     r: Rect)
    returns (k: int)
    requires g.Valid() && RootsNameBlobs(g, l)
    requires BoxesTo(g, l, |l|, boxes) && Taken(d, boxes, {}, rects, keys)
    requires BlobBox(g, a, r) && d.Keeps(r)
    ensures 0 <= k < |keys| && keys[k] == l[a]
  {
    var q: nat, n := l[a], |l|;
    assert SpansOf(g, l, q, n, boxes);
    assert Seen(g, l, q, n, a);
    SpansIsBlobBox(g, l, q, n, boxes[q], a);
    ConnectedSelf(g, a);
    BlobBoxIsUnique(g, a, a, r, boxes[q].Rectangle());
    k :| 0 <= k < |keys| && keys[k] == q;
  }

  /** The boxes collected under the roots are one per blob. */
  lemma TakenAreBlobs(d: Marker, g: Grid, l: seq<int>, boxes: map<nat, Box>, rects: seq<Rect>, keys: seq<nat>)
    requires g.Valid() && RootsNameBlobs(g, l)
    requires BoxesTo(g, l, |l|, boxes) && Taken(d, boxes, {}, rects, keys)
    ensures exists reps :: OneBoxPerBlob(d, g, rects, reps)
  {
    var n := |l|;
    forall k | 0 <= k < |keys| ensures Spans(g, l, keys[k], n, boxes[keys[k]]) {
      assert SpansOf(g, l, keys[k], n, boxes);
    }
    var reps := seq(|keys|, k requires 0 <= k < |keys| => SomeSeen(g, l, keys[k], n, boxes[keys[k]]));
    forall k | 0 <= k < |reps| ensures BlobBox(g, reps[k], rects[k]) {
      SpansIsBlobBox(g, l, keys[k], n, boxes[keys[k]], reps[k]);
    }
    forall a, r | BlobBox(g, a, r) && d.Keeps(r) ensures Reported(g, reps, a) {
      var k := TakenReports(d, g, l, boxes, rects, keys, a, r);
      assert g.Connected(reps[k], a);
    }
    assert OneBoxPerBlob(d, g, rects, reps);
  }

  /** Sorting the regions keeps them one box per blob. */
  lemma SortedAnswers(d: Marker, img: Image, rects: seq<Rect>, reps: seq<int>)
    requires img.Valid() && !img.bounds.Empty() && OneBoxPerBlob(d, GridOf(d, img), rects, reps)
    ensures Answers(d, img, Sort(RegionLeq, RegionsAt(d, img, rects)))
  {
    var regions := RegionsAt(d, img, rects);
    var perm := SortOrder(RegionLeq, regions);
    RegionOrder();
    SortSorts(RegionLeq, regions);
    ReorderedBoxes(d, GridOf(d, img), rects, reps, perm);
    assert Sort(RegionLeq, regions) == RegionsAt(d, img, Rearranged(rects, perm));
  }

  /** Detect: canceled exactly when one of the polls made before an answer is known says
      so, and otherwise one tight box per blob in canonical order. polls(-1) is the poll
      on entry, polls(y) the one before row y. */
  method Detect(d: Marker, img: Image, polls: int -> bool) returns (res: Detection)
    requires img.Valid()
    ensures res.Canceled? <==> polls(-1) || exists y ::
              0 <= y < img.bounds.Dy() && 0 < img.bounds.Dx() && y % 64 == 0 && polls(y)
    ensures res.Found? ==> Answers(d, img, res.regions)
  {
    if polls(-1) {
      return Canceled;
    }
    var w, h := img.bounds.Dx(), img.bounds.Dy();
    if w <= 0 || h <= 0 {
      return Found([]);
    }
    ghost var g := GridOf(d, img);
    var marks, any, stopped := ScanMarkers(d, img, polls);
    if stopped {
      return Canceled;
    }
    if !any {
      assert OneBoxPerBlob(d, g, [], []);
      assert [] == RegionsAt(d, img, []);
      return Found([]);
    }
    var lit := marks[..];
    assert Grid(w, h, lit) == g;
    var uf := MergeNeighbours(w, h, lit);
    ghost var l := uf.roots;
    var boxes := CollectBoxes(w, h, lit, uf);
    var regions, rects, keys := TakeBoxes(d, img, boxes);
    TakenAreBlobs(d, g, l, boxes, rects, keys);
    ghost var reps: seq<int> :| OneBoxPerBlob(d, g, rects, reps);
    SortedAnswers(d, img, rects, reps);
    res := Found(Sort(RegionLeq, regions));
  }

  // ---------- what the answer means ----------

  /** Some box spans the pixels of a root, if there are any. */
  lemma {:induction false} SpanExists(g: Grid, l: seq<int>, r: int, n: nat) returns (any: bool, b: Box)
    requires g.Valid() && |l| == |g.lit| && n <= |l|
    ensures any ==> Spans(g, l, r, n, b)
    ensures !any ==> forall a :: !Seen(g, l, r, n, a)
  {
    if n == 0 {
      return false, Box(0, 0, 0, 0);
    }
    any, b := SpanExists(g, l, r, n - 1);
    SeenNext(g, l, r, n - 1, n);
    if Seen(g, l, r, n, n - 1) {
      if any {
        SpansGrown(g, l, r, n - 1, n, b);
        b := Grown(b, g.Col(n - 1), g.Row(n - 1));
      } else {
        SpansFirst(g, l, r, n - 1, n);
        any, b := true, Box(g.Col(n - 1), g.Row(n - 1), g.Col(n - 1), g.Row(n - 1));
      }
    } else if any {
      SpansUnmarked(g, l, r, n - 1, n, b);
    }
  }

  /** Every marked pixel has a tight box, so none can be missed for want of one. */
  lemma BlobHasBox(g: Grid, a: int) returns (r: Rect)
    requires g.Valid() && g.Lit(a)
    ensures BlobBox(g, a, r)
  {
    var l := seq(|g.lit|, i => if g.Connected(a, i) then 1 else 0);
    ConnectedSelf(g, a);
    var any, b := SpanExists(g, l, 1, |l|);
    var n := |l|;
    assert Seen(g, l, 1, n, a);
    forall c {:trigger Seen(g, l, 1, n, c)} {:trigger g.Connected(a, c)}
      ensures Seen(g, l, 1, n, c) <==> g.Connected(a, c)
    {
      if g.Connected(a, c) {
        ConnectedBothWays(g, a, c);
      }
    }
    r := b.Rectangle();
  }

  lemma LitIsCovered(d: Marker, g: Grid, rects: seq<Rect>, reps: seq<int>, i: int) returns (k: int)
    requires g.Valid() && OneBoxPerBlob(d, g, rects, reps) && d.minArea <= 0 && g.Lit(i)
    ensures 0 <= k < |rects| && rects[k].Has(g.Col(i), g.Row(i))
  {
    var r := BlobHasBox(g, i);
    assert Reported(g, reps, i);
    k :| 0 <= k < |reps| && g.Connected(reps[k], i);
    assert BlobBox(g, reps[k], rects[k]);
  }

  lemma MarkerIsLit(d: Marker, img: Image, x: int, y: int) returns (i: int)
    requires img.Valid() && img.bounds.Has(x, y) && d.Matches(img.At(x, y))
    ensures var g := GridOf(d, img);
            g.Lit(i) && g.Col(i) == x - img.bounds.minX && g.Row(i) == y - img.bounds.minY
  {
    var col, row := x - img.bounds.minX, y - img.bounds.minY;
    var g := GridOf(d, img);
    i := Start(g.w, row) + col;
    PixelLit(d, img, row, col);
    PixelIndex(g, row, col);
  }

  /** With no area threshold every marker-coloured pixel lies in a reported region. */
  lemma MarkersAreCovered(d: Marker, img: Image, regions: seq<Region>, x: int, y: int) returns (k: int)
    requires img.Valid() && Answers(d, img, regions) && d.minArea <= 0
    requires img.bounds.Has(x, y) && d.Matches(img.At(x, y))
    ensures 0 <= k < |regions| && regions[k].rect.Has(x, y)
  {
    var i := MarkerIsLit(d, img, x, y);
    var g := GridOf(d, img);
    var rects: seq<Rect>, reps: seq<int> :| OneBoxPerBlob(d, g, rects, reps) && regions == RegionsAt(d, img, rects);
    k := LitIsCovered(d, g, rects, reps, i);
  }

  // ---------- the answer in terms of the picture alone ----------

  datatype Point = Point(x: int, y: int)

  /** Every channel of the pixel is within the tolerance of the marker colour. */
  ghost predicate Marked(d: Marker, img: Image, p: Point)
    requires img.Valid()
  {
    && img.bounds.Has(p.x, p.y)
    && var c := img.At(p.x, p.y);
    && c.r <= d.color.r + d.tolerance && d.color.r <= c.r + d.tolerance
    && c.g <= d.color.g + d.tolerance && d.color.g <= c.g + d.tolerance
    && c.b <= d.color.b + d.tolerance && d.color.b <= c.b + d.tolerance
    && c.a <= d.color.a + d.tolerance && d.color.a <= c.a + d.tolerance
  }

  /** The two pixels share a side. */
  predicate Beside(p: Point, q: Point) {
    || (p.y == q.y && (p.x == q.x + 1 || q.x == p.x + 1))
    || (p.x == q.x && (p.y == q.y + 1 || q.y == p.y + 1))
  }

  ghost predicate Path(d: Marker, img: Image, s: seq<Point>)
    requires img.Valid()
  {
    && s != []
    && (forall k | 0 <= k < |s| :: Marked(d, img, s[k]))
    && (forall j, k | 0 <= j < k < |s| && k == j + 1 :: Beside(s[j], s[k]))
  }

  ghost predicate Joined(d: Marker, img: Image, p: Point, q: Point)
    requires img.Valid()
  {
    exists s :: Path(d, img, s) && s[0] == p && s[|s| - 1] == q
  }

  /** r is the smallest half-open rectangle around the marked pixels that paths join to p. */
  ghost predicate TightAround(d: Marker, img: Image, p: Point, r: Rect)
    requires img.Valid()
  {
    && (forall q | Joined(d, img, p, q) :: r.Has(q.x, q.y))
    && InColumn(d, img, p, r.minX) && InColumn(d, img, p, r.maxX - 1)
    && InRow(d, img, p, r.minY) && InRow(d, img, p, r.maxY - 1)
  }

  ghost predicate InColumn(d: Marker, img: Image, p: Point, x: int)
    requires img.Valid()
  {
    exists q :: Joined(d, img, p, q) && q.x == x
  }

  ghost predicate InRow(d: Marker, img: Image, p: Point, y: int)
    requires img.Valid()
  {
    exists q :: Joined(d, img, p, q) && q.y == y
  }

  ghost function IndexOf(img: Image, p: Point): int
    requires !img.bounds.Empty()
  {
    Start(img.bounds.Dx(), p.y - img.bounds.minY) + (p.x - img.bounds.minX)
  }

  ghost function PointAt(img: Image, i: int): Point
    requires !img.bounds.Empty()
  {
    var w := img.bounds.Dx();
    Point(ColOf(w, i) + img.bounds.minX, RowOf(w, i) + img.bounds.minY)
  }

  lemma MarkedIsLit(d: Marker, img: Image, p: Point)
    requires img.Valid() && img.bounds.Has(p.x, p.y)
    ensures var g, i := GridOf(d, img), IndexOf(img, p);
            && (g.Lit(i) <==> Marked(d, img, p))
            && g.Col(i) == p.x - img.bounds.minX && g.Row(i) == p.y - img.bounds.minY
            && PointAt(img, i) == p
  {
    var col, row := p.x - img.bounds.minX, p.y - img.bounds.minY;
    PixelLit(d, img, row, col);
    PixelIndex(GridOf(d, img), row, col);
  }

  lemma LitIsMarked(d: Marker, img: Image, i: int)
    requires img.Valid() && !img.bounds.Empty() && GridOf(d, img).Lit(i)
    ensures Marked(d, img, PointAt(img, i)) && IndexOf(img, PointAt(img, i)) == i
  {
    CellBounds(GridOf(d, img), i);
    MarkedIsLit(d, img, PointAt(img, i));
  }

  lemma BesideIsAdjacent(d: Marker, img: Image, p: Point, q: Point)
    requires img.Valid() && Marked(d, img, p) && Marked(d, img, q)
    ensures Beside(p, q) <==> GridOf(d, img).Adjacent(IndexOf(img, p), IndexOf(img, q))
  {
    MarkedIsLit(d, img, p);
    MarkedIsLit(d, img, q);
  }

  lemma JoinedIsConnected(d: Marker, img: Image, p: Point, q: Point)
    requires img.Valid() && Marked(d, img, p) && Joined(d, img, p, q)
    ensures Marked(d, img, q) && GridOf(d, img).Connected(IndexOf(img, p), IndexOf(img, q))
  {
    var g := GridOf(d, img);
    var s :| Path(d, img, s) && s[0] == p && s[|s| - 1] == q;
    var t := seq(|s|, k requires 0 <= k < |s| => IndexOf(img, s[k]));
    MarkedIsLit(d, img, p);
    forall j, k | 0 <= j < k < |t| && k == j + 1 ensures g.Adjacent(t[j], t[k]) {
      assert Beside(s[j], s[k]);
      BesideIsAdjacent(d, img, s[j], s[k]);
    }
    assert g.Walk(t);
  }

  lemma ConnectedIsJoined(d: Marker, img: Image, a: int, b: int)
    requires img.Valid() && !img.bounds.Empty() && GridOf(d, img).Connected(a, b)
    ensures Joined(d, img, PointAt(img, a), PointAt(img, b))
  {
    var g := GridOf(d, img);
    var t :| g.Walk(t) && t[0] == a && t[|t| - 1] == b;
    forall k | 0 <= k < |t| ensures g.Lit(t[k]) {
      assert k > 0 ==> g.Adjacent(t[k - 1], t[k]);
    }
    var s := seq(|t|, k requires 0 <= k < |t| => PointAt(img, t[k]));
    forall k | 0 <= k < |s| ensures Marked(d, img, s[k]) && IndexOf(img, s[k]) == t[k] {
      LitIsMarked(d, img, t[k]);
    }
    forall j, k | 0 <= j < k < |s| && k == j + 1 ensures Beside(s[j], s[k]) {
      assert g.Adjacent(t[j], t[k]);
      BesideIsAdjacent(d, img, s[j], s[k]);
    }
    assert Path(d, img, s);
  }

  lemma JoinedExactly(d: Marker, img: Image, p: Point, q: Point)
    requires img.Valid() && Marked(d, img, p)
    ensures Joined(d, img, p, q) <==>
            Marked(d, img, q) && GridOf(d, img).Connected(IndexOf(img, p), IndexOf(img, q))
  {
    MarkedIsLit(d, img, p);
    if Joined(d, img, p, q) {
      JoinedIsConnected(d, img, p, q);
    } else if Marked(d, img, q) && GridOf(d, img).Connected(IndexOf(img, p), IndexOf(img, q)) {
      MarkedIsLit(d, img, q);
      ConnectedIsJoined(d, img, IndexOf(img, p), IndexOf(img, q));
    }
  }

  lemma ConnectedIsLit(g: Grid, a: int, b: int)
    requires g.Valid() && g.Connected(a, b)
    ensures g.Lit(a) && g.Lit(b)
  {
    ConnectedBothWays(g, a, b);
  }

  lemma ConnectedIsAt(d: Marker, img: Image, p: Point, b: int)
    requires img.Valid() && Marked(d, img, p) && GridOf(d, img).Connected(IndexOf(img, p), b)
    ensures InColumn(d, img, p, GridOf(d, img).Col(b) + img.bounds.minX)
    ensures InRow(d, img, p, GridOf(d, img).Row(b) + img.bounds.minY)
  {
    ConnectedIsLit(GridOf(d, img), IndexOf(img, p), b);
    LitIsMarked(d, img, b);
    JoinedExactly(d, img, p, PointAt(img, b));
  }

  lemma JoinedIsInside(d: Marker, img: Image, p: Point, r: Rect, q: Point)
    requires img.Valid() && Marked(d, img, p) && BlobBox(GridOf(d, img), IndexOf(img, p), r)
    requires Joined(d, img, p, q)
    ensures r.Moved(img.bounds.minX, img.bounds.minY).Has(q.x, q.y)
  {
    JoinedExactly(d, img, p, q);
    MarkedIsLit(d, img, q);
  }

  /** The box of a marked pixel's blob is the tight rectangle around it. */
  lemma BoxIsTight(d: Marker, img: Image, p: Point, r: Rect)
    requires img.Valid() && Marked(d, img, p) && BlobBox(GridOf(d, img), IndexOf(img, p), r)
    ensures TightAround(d, img, p, r.Moved(img.bounds.minX, img.bounds.minY))
  {
    var g, a := GridOf(d, img), IndexOf(img, p);
    forall q | Joined(d, img, p, q) ensures r.Moved(img.bounds.minX, img.bounds.minY).Has(q.x, q.y) {
      JoinedIsInside(d, img, p, r, q);
    }
    var left :| g.Connected(a, left) && g.Col(left) == r.minX;
    ConnectedIsAt(d, img, p, left);
    var top :| g.Connected(a, top) && g.Row(top) == r.minY;
    ConnectedIsAt(d, img, p, top);
    var right :| g.Connected(a, right) && g.Col(right) + 1 == r.maxX;
    ConnectedIsAt(d, img, p, right);
    var bottom :| g.Connected(a, bottom) && g.Row(bottom) + 1 == r.maxY;
    ConnectedIsAt(d, img, p, bottom);
  }

  /** Only one rectangle is tight. */
  lemma TightIsUnique(d: Marker, img: Image, p: Point, r: Rect, q: Rect)
    requires img.Valid() && TightAround(d, img, p, r) && TightAround(d, img, p, q)
    ensures r == q
  {
  }

  lemma MovedKeeps(d: Marker, r: Rect, dx: int, dy: int)
    ensures d.Keeps(r.Moved(dx, dy)) <==> d.Keeps(r)
  {
    assert r.Moved(dx, dy).Dx() == r.Dx() && r.Moved(dx, dy).Dy() == r.Dy();
  }

  lemma BoxIsReported(d: Marker, img: Image, r: Rect, a: int, q: Region) returns (p: Point)
    requires img.Valid() && !img.bounds.Empty() && BlobBox(GridOf(d, img), a, r) && d.Keeps(r)
    requires q == RegionAt(d, img, r)
    ensures Marked(d, img, p) && TightAround(d, img, p, q.rect) && d.Keeps(q.rect) && q.category == d.Label()
  {
    p := PointAt(img, a);
    LitIsMarked(d, img, a);
    BoxIsTight(d, img, p, r);
    MovedKeeps(d, r, img.bounds.minX, img.bounds.minY);
  }

  lemma TightHasBox(d: Marker, img: Image, p: Point, q: Region) returns (r: Rect)
    requires img.Valid() && Marked(d, img, p) && TightAround(d, img, p, q.rect)
    requires q.category == d.Label() && d.Keeps(q.rect)
    ensures BlobBox(GridOf(d, img), IndexOf(img, p), r) && d.Keeps(r) && q == RegionAt(d, img, r)
  {
    MarkedIsLit(d, img, p);
    r := BlobHasBox(GridOf(d, img), IndexOf(img, p));
    BoxIsTight(d, img, p, r);
    TightIsUnique(d, img, p, q.rect, r.Moved(img.bounds.minX, img.bounds.minY));
    MovedKeeps(d, r, img.bounds.minX, img.bounds.minY);
  }

  lemma BoxHasPlace(d: Marker, g: Grid, rects: seq<Rect>, reps: seq<int>, a: int, r: Rect) returns (k: int)
    requires g.Valid() && OneBoxPerBlob(d, g, rects, reps) && BlobBox(g, a, r) && d.Keeps(r)
    ensures 0 <= k < |rects| && rects[k] == r
  {
    assert Reported(g, reps, a);
    k :| 0 <= k < |reps| && g.Connected(reps[k], a);
    BlobBoxIsUnique(g, reps[k], a, rects[k], r);
  }

  /** A marked pixel and what paths join to it fill this rectangle tightly. */
  ghost predicate IsTight(d: Marker, img: Image, r: Rect)
    requires img.Valid()
  {
    exists p :: Marked(d, img, p) && TightAround(d, img, p, r)
  }

  lemma InGridExactly(d: Marker, img: Image, rects: seq<Rect>, reps: seq<int>, q: Region)
    requires img.Valid() && !img.bounds.Empty() && OneBoxPerBlob(d, GridOf(d, img), rects, reps)
    ensures q in RegionsAt(d, img, rects) <==>
            q.category == d.Label() && d.Keeps(q.rect) && IsTight(d, img, q.rect)
  {
    if q in RegionsAt(d, img, rects) {
      var k :| 0 <= k < |rects| && RegionsAt(d, img, rects)[k] == q;
      var p := BoxIsReported(d, img, rects[k], reps[k], q);
    }
    if q.category == d.Label() && d.Keeps(q.rect) && IsTight(d, img, q.rect) {
      var p :| Marked(d, img, p) && TightAround(d, img, p, q.rect);
      var r := TightHasBox(d, img, p, q);
      var k := BoxHasPlace(d, GridOf(d, img), rects, reps, IndexOf(img, p), r);
      assert RegionsAt(d, img, rects)[k] == q;
    }
  }

  lemma KeepsExactly(d: Marker, r: Rect)
    ensures d.Keeps(r) <==> d.minArea <= 0 || d.minArea <= (r.maxX - r.minX) * (r.maxY - r.minY)
  {
  }

  /** The answer on the picture: a region is reported exactly when its rectangle is tight
      around some marked pixel and what paths join to it, has at least the least area where
      one is set, and its label is the configured one, or "marker". */
  lemma RegionsExactly(d: Marker, img: Image, regions: seq<Region>, q: Region)
    requires img.Valid() && Answers(d, img, regions)
    ensures q in regions <==>
            && q.category == (if d.category == "" then "marker" else d.category)
            && (d.minArea <= 0 || d.minArea <= (q.rect.maxX - q.rect.minX) * (q.rect.maxY - q.rect.minY))
            && IsTight(d, img, q.rect)
  {
    KeepsExactly(d, q.rect);
    if !img.bounds.Empty() {
      var rects: seq<Rect>, reps: seq<int>
        :| OneBoxPerBlob(d, GridOf(d, img), rects, reps) && regions == RegionsAt(d, img, rects);
      InGridExactly(d, img, rects, reps, q);
    }
  }

  /** The regions come top to bottom, then left to right, and of two with one upper left
      corner the lower, and then the narrower, comes first. */
  lemma AnswerOrder(d: Marker, img: Image, regions: seq<Region>, i: nat, j: nat)
    requires img.Valid() && Answers(d, img, regions) && i < j < |regions|
    ensures var r, q := regions[i].rect, regions[j].rect;
            || r.minY < q.minY
            || (r.minY == q.minY && r.minX < q.minX)
            || (r.minY == q.minY && r.minX == q.minX && r.maxY < q.maxY)
            || (r.minY == q.minY && r.minX == q.minX && r.maxY == q.maxY && r.maxX <= q.maxX)
  {
    assert RegionLeq(regions[i], regions[j]);
  }

  /** The answer is a function of the picture: neither the map order nor the sorting
      algorithm shows. */
  lemma AnswerIsUnique(d: Marker, img: Image, one: seq<Region>, two: seq<Region>)
    requires img.Valid() && Answers(d, img, one) && Answers(d, img, two)
    ensures one == two
  {
    if !img.bounds.Empty() {
      var g := GridOf(d, img);
      var rects: seq<Rect>, reps: seq<int> :| OneBoxPerBlob(d, g, rects, reps) && one == RegionsAt(d, img, rects);
      var rects2: seq<Rect>, reps2: seq<int> :| OneBoxPerBlob(d, g, rects2, reps2) && two == RegionsAt(d, img, rects2);
      SameRegions(d, img, rects, reps, rects2, reps2);
      RegionOrder();
      SortedIsUnique(RegionLeq, one, two);
    }
  }

  lemma SameRegions(d: Marker, img: Image, rects: seq<Rect>, reps: seq<int>, rects2: seq<Rect>, reps2: seq<int>)
    requires img.Valid() && !img.bounds.Empty()
    requires OneBoxPerBlob(d, GridOf(d, img), rects, reps) && OneBoxPerBlob(d, GridOf(d, img), rects2, reps2)
    ensures multiset(RegionsAt(d, img, rects)) == multiset(RegionsAt(d, img, rects2))
  {
    var one, two := RegionsAt(d, img, rects), RegionsAt(d, img, rects2);
    var f := SameBlobs(d, GridOf(d, img), rects, reps, rects2, reps2);
    var b := SameBlobs(d, GridOf(d, img), rects2, reps2, rects, reps);
    assert MapsInto(one, two, f) && MapsInto(two, one, b);
    MatchedBothWays(one, two, f, b);
  }

  /** Each box of one answer appears in the other, under the same blob. */
  lemma SameBlobs(d: Marker, g: Grid, rects: seq<Rect>, reps: seq<int>, rects2: seq<Rect>, reps2: seq<int>)
    returns (f: map<int, int>)
    requires g.Valid() && OneBoxPerBlob(d, g, rects, reps) && OneBoxPerBlob(d, g, rects2, reps2)
    ensures MapsInto(rects, rects2, f)
  {
    f := map i | 0 <= i < |reps| :: SameBlob(d, g, rects, reps, rects2, reps2, i);
    forall i, j | 0 <= i < j < |reps| ensures f[i] != f[j] {
      if f[i] == f[j] {
        OneBlob(d, g, rects, reps, i, j, reps2[f[i]]);
      }
    }
  }

  /** Two boxes of one answer do not share a blob. */
  lemma OneBlob(d: Marker, g: Grid, rects: seq<Rect>, reps: seq<int>, i: int, j: int, a: int)
    requires g.Valid() && OneBoxPerBlob(d, g, rects, reps) && 0 <= i < j < |reps|
    ensures !(g.Connected(a, reps[i]) && g.Connected(a, reps[j]))
  {
    if g.Connected(a, reps[i]) && g.Connected(a, reps[j]) {
      ConnectedBothWays(g, a, reps[i]);
      ConnectedThrough(g, reps[i], a, reps[j]);
    }
  }

  ghost function SameBlob(d: Marker, g: Grid, rects: seq<Rect>, reps: seq<int>, rects2: seq<Rect>, reps2: seq<int>,
                          i: int): (j: int)
    requires g.Valid() && OneBoxPerBlob(d, g, rects, reps) && OneBoxPerBlob(d, g, rects2, reps2)
    requires 0 <= i < |reps|
    ensures 0 <= j < |reps2| && g.Connected(reps2[j], reps[i]) && rects2[j] == rects[i]
  {
    assert Reported(g, reps2, reps[i]);
    var j :| 0 <= j < |reps2| && g.Connected(reps2[j], reps[i]);
    BlobBoxIsUnique(g, reps2[j], reps[i], rects2[j], rects[i]);
    j
  }
}
