// Routes by longest path-segment prefix.
module Policy {

  import opened Sorting
  import opened Wrappers

  /** Redact and Blur mask; an unknown name is not a valid action. */
  datatype Action = Redact | Blur | Drop | Pass | Unknown(name: string) {

    predicate Valid() { !Unknown? }

    predicate Masks() { Redact? || Blur? }
  }

  datatype Route = Route(
    prefix: string,
    action: Action,
    detectors: seq<string>,
    failOpen: bool,
    maxBytes: int,
    stripMetadata: bool,
    acceptedFormats: seq<string>)

  /** The routes to try in order, and the one applied when none of them matches. */
  datatype Table = Table(routes: seq<Route>, fallback: Option<Route>)

  datatype Result = Ok(table: Table) | InvalidAction(route: Route)

  /** The four known actions; two of them mask. */
  lemma ActionsExactly(a: Action)
    ensures a.Valid() <==> a == Redact || a == Blur || a == Drop || a == Pass
    ensures a.Masks() <==> a == Redact || a == Blur
  {
  }

  // ---------- matching one prefix ----------

  /** The prefix without its trailing slashes. */
  function Trimmed(prefix: string): (p: string)
    ensures p <= prefix
    ensures p != "" ==> p[|p| - 1] != '/'
  {
    if prefix != "" && prefix[|prefix| - 1] == '/' then Trimmed(prefix[..|prefix| - 1]) else prefix
  }

  /** path is p, or lies under p as a path segment. */
  predicate Covers(p: string, path: string) {
    p == "" || path == p || p + "/" <= path
  }

  predicate Matches(r: Route, path: string) {
    Covers(Trimmed(r.prefix), path)
  }

  predicate IsDefault(r: Route) {
    r.prefix == "" || r.prefix == "/"
  }

  lemma {:induction false} TrimmedLength(prefix: string)
    requires !EndsInTwoSlashes(prefix)
    ensures |prefix| - 1 <= |Trimmed(prefix)| <= |prefix|
  {
    if prefix != "" && prefix[|prefix| - 1] == '/' {
      assert Trimmed(prefix[..|prefix| - 1]) == prefix[..|prefix| - 1];
    }
  }

  predicate EndsInTwoSlashes(prefix: string) {
    |prefix| >= 2 && prefix[|prefix| - 1] == '/' && prefix[|prefix| - 2] == '/'
  }

  // ---------- building the table ----------

  /** Longer prefixes first, equal lengths by byte order. */
  predicate RouteLeq(a: Route, b: Route) {
    |a.prefix| > |b.prefix| || (|a.prefix| == |b.prefix| && StringLeq(a.prefix, b.prefix))
  }

  lemma RouteOrder()
    ensures TotalOrder(RouteLeq)
  {
    StringOrder();
  }

  function Proper(rs: seq<Route>): seq<Route> {
    if rs == [] then []
    else Proper(rs[..|rs| - 1]) + if IsDefault(rs[|rs| - 1]) then [] else [rs[|rs| - 1]]
  }

  /** What a route is looked for by. */
  datatype Test = Hits(path: string) | Named(prefix: string) | Default | Invalid {

    predicate Passes(r: Route) {
      match this
      case Hits(path) => Matches(r, path)
      case Named(prefix) => r.prefix == prefix
      case Default => IsDefault(r)
      case Invalid => !r.action.Valid()
    }
  }

  /** The first route that passes the test. */
  function First(rs: seq<Route>, f: Test): Option<Route> {
    if rs == [] then None
    else if f.Passes(rs[0]) then Some(rs[0])
    else First(rs[1..], f)
  }

  /** The table New builds, or the first route in sorted order it refuses. */
  function Built(routes: seq<Route>): Result {
    FromSorted(Sort(RouteLeq, routes))
  }

  function FromSorted(sorted: seq<Route>): Result {
    var bad := First(sorted, Invalid);
    if bad.Some? then InvalidAction(bad.value)
    else Ok(Table(Proper(sorted), First(sorted, Default)))
  }

  lemma {:induction false} FirstMeans(rs: seq<Route>, f: Test)
    ensures var o := First(rs, f);
            && (o.None? <==> forall r | r in rs :: !f.Passes(r))
            && (o.Some? ==> o.value in rs && f.Passes(o.value))
  {
    if rs != [] {
      assert rs[0] in rs;
      FirstMeans(rs[1..], f);
      assert forall r | r in rs :: r == rs[0] || r in rs[1..];
    }
  }

  lemma {:induction false} ProperMembers(rs: seq<Route>)
    ensures forall r :: r in Proper(rs) <==> r in rs && !IsDefault(r)
  {
    if rs != [] {
      ProperMembers(rs[..|rs| - 1]);
      assert rs == rs[..|rs| - 1] + [rs[|rs| - 1]];
    }
  }

  lemma {:induction false} FirstJoin(a: seq<Route>, b: seq<Route>, f: Test)
    ensures First(a + b, f) == if First(a, f).Some? then First(a, f) else First(b, f)
  {
    if a == [] {
      assert a + b == b;
    } else {
      assert (a + b)[1..] == a[1..] + b;
      FirstJoin(a[1..], b, f);
    }
  }

  lemma Grown(sorted: seq<Route>, i: nat, f: Test)
    requires i < |sorted|
    ensures sorted[..i + 1] == sorted[..i] + [sorted[i]]
    ensures First(sorted[..i + 1], f)
         == if First(sorted[..i], f).Some? then First(sorted[..i], f)
            else if f.Passes(sorted[i]) then Some(sorted[i]) else None
    ensures Proper(sorted[..i + 1]) == Proper(sorted[..i]) + if IsDefault(sorted[i]) then [] else [sorted[i]]
  {
    assert sorted[..i + 1] == sorted[..i] + [sorted[i]];
    FirstJoin(sorted[..i], [sorted[i]], f);
  }

  method Scan(sorted: seq<Route>) returns (r: Result)
    ensures r == FromSorted(sorted)
  {
    var kept: seq<Route> := [];
    var defroute: Option<Route> := None;
    var i := 0;
    while i < |sorted|
      invariant i <= |sorted|
      invariant First(sorted[..i], Invalid).None?
      invariant kept == Proper(sorted[..i]) && defroute == First(sorted[..i], Default)
    {
      var route := sorted[i];
      Grown(sorted, i, Invalid);
      Grown(sorted, i, Default);
      i := i + 1;
      if !route.action.Valid() {
        FirstJoin(sorted[..i], sorted[i..], Invalid);
        assert sorted == sorted[..i] + sorted[i..];
        return InvalidAction(route);
      }
      if route.prefix == "" || route.prefix == "/" {
        if defroute.Some? {
          continue;
        }
        defroute := Some(route);
        continue;
      }
      kept := kept + [route];
    }
    assert sorted[..i] == sorted;
    return Ok(Table(kept, defroute));
  }

  method New(routes: seq<Route>) returns (r: Result)
    ensures r == Built(routes)
  {
    var sorted := Sort(RouteLeq, routes);
    r := Scan(sorted);
  }

  /** What Match answers: the first route of the table that matches, else the default. */
  function Answer(t: Table, path: string): Option<Route> {
    var hit := First(t.routes, Hits(path));
    if hit.Some? then hit else t.fallback
  }

  method Match(t: Table, path: string) returns (r: Option<Route>)
    ensures r == Answer(t, path)
  {
    ghost var f := Hits(path);
    var i := 0;
    while i < |t.routes|
      invariant i <= |t.routes| && First(t.routes, f) == First(t.routes[i..], f)
    {
      if Matches(t.routes[i], path) {
        return Some(t.routes[i]);
      }
      i := i + 1;
    }
    return t.fallback;
  }

  // ---------- what the answer is ----------

  /** A prefix without a trailing slash matches itself and whatever continues it after a
      slash; with trailing slashes it matches the same. */
  lemma {:induction false} MatchesExactly(r: Route, p: string, n: nat, path: string)
    requires r.prefix == p + Slashes(n) && (p == "" || p[|p| - 1] != '/')
    ensures Matches(r, path) <==> p == "" || path == p || (|path| > |p| && path[..|p|] == p && path[|p|] == '/')
  {
    TrimmedExactly(p, n);
    if p + "/" <= path {
      assert path[|p|] == (p + "/")[|p|] && path[..|p|] == (p + "/")[..|p|];
    }
  }

  function Slashes(n: nat): string {
    if n == 0 then "" else Slashes(n - 1) + "/"
  }

  lemma {:induction false} TrimmedExactly(p: string, n: nat)
    requires p == "" || p[|p| - 1] != '/'
    ensures Trimmed(p + Slashes(n)) == p
  {
    if n == 0 {
      assert p + Slashes(0) == p;
    } else {
      assert (p + Slashes(n))[..|p + Slashes(n)| - 1] == p + Slashes(n - 1);
      TrimmedExactly(p, n - 1);
    }
  }

  lemma SameMembers<T>(s: seq<T>, t: seq<T>)
    requires multiset(s) == multiset(t)
    ensures forall x :: x in s <==> x in t
  {
    forall x ensures x in s <==> x in t {
      assert x in s <==> x in multiset(s);
    }
  }

  /** A configuration is refused exactly when one of its routes has an unknown action, and
      the route named is one of these. */
  lemma RefusedExactly(routes: seq<Route>)
    ensures Built(routes).InvalidAction? <==> exists r :: r in routes && r.action.Unknown?
    ensures Built(routes).InvalidAction? ==>
              Built(routes).route in routes && Built(routes).route.action.Unknown?
  {
    var sorted := Sort(RouteLeq, routes);
    RouteOrder();
    SortSorts(RouteLeq, routes);
    SameMembers(routes, sorted);
    FirstMeans(sorted, Invalid);
  }

  /** The table holds the configured routes, longest prefix first. */
  lemma BuiltTable(routes: seq<Route>)
    requires Built(routes).Ok?
    ensures var t := Built(routes).table;
            && Sorted(RouteLeq, t.routes)
            && (forall r :: r in t.routes <==> r in routes && !IsDefault(r))
            && (t.fallback.Some? ==> t.fallback.value in routes && IsDefault(t.fallback.value))
            && (t.fallback.None? ==> forall r | r in routes :: !IsDefault(r))
  {
    var sorted := Sort(RouteLeq, routes);
    RouteOrder();
    SortSorts(RouteLeq, routes);
    ProperSorted(sorted);
    SameMembers(routes, sorted);
    ProperMembers(sorted);
    FirstMeans(sorted, Default);
  }

  /** The default is a route configured with the prefix "" or "/"; without one there is
      none, and no other route is ever taken for one. */
  lemma FallbackExactly(routes: seq<Route>)
    requires Built(routes).Ok?
    ensures var t := Built(routes).table;
            && (t.fallback.None? <==> forall r | r in routes :: r.prefix != "" && r.prefix != "/")
            && (t.fallback.Some? ==>
                  t.fallback.value in routes && (t.fallback.value.prefix == "" || t.fallback.value.prefix == "/"))
            && (forall r :: r in t.routes <==> r in routes && r.prefix != "" && r.prefix != "/")
  {
    BuiltTable(routes);
  }

  /** A configured route answers when it matches; the default answers only when none does. */
  lemma AnswerIsARoute(routes: seq<Route>, path: string)
    requires Built(routes).Ok?
    ensures var a := Answer(Built(routes).table, path);
            && (a.Some? ==> a.value in routes && (IsDefault(a.value) || Matches(a.value, path)))
            && (a.Some? && !IsDefault(a.value) <==>
                exists r | r in routes :: !IsDefault(r) && Matches(r, path))
            && (a.None? <==> forall r | r in routes :: !IsDefault(r) && !Matches(r, path))
  {
    BuiltTable(routes);
    FirstMeans(Built(routes).table.routes, Hits(path));
  }

  lemma {:induction false} FirstIndex(rs: seq<Route>, f: Test) returns (m: nat)
    requires First(rs, f).Some?
    ensures m < |rs| && rs[m] == First(rs, f).value
    ensures f.Passes(rs[m]) && forall k | 0 <= k < m :: !f.Passes(rs[k])
  {
    if f.Passes(rs[0]) {
      m := 0;
    } else {
      m := FirstIndex(rs[1..], f);
      m := m + 1;
    }
  }

  /** b's prefix lies properly under a's. */
  predicate Under(a: Route, b: Route) {
    var p, q := Trimmed(a.prefix), Trimmed(b.prefix);
    p != q && (p == "" || p + "/" <= q)
  }

  ghost predicate TriedBefore(rs: seq<Route>, i: nat, r: Route)
    requires i <= |rs|
  {
    exists k :: 0 <= k < i && Trimmed(rs[k].prefix) == Trimmed(r.prefix)
  }

  /** Whenever a route comes before one whose prefix lies under its own, an equivalent of
      the latter comes before both. */
  ghost predicate Arranged(rs: seq<Route>) {
    forall i, j | 0 <= i < j < |rs| :: Under(rs[i], rs[j]) ==> TriedBefore(rs, i, rs[j])
  }

  /** The first match on this path has the longest prefix of all that match. */
  ghost predicate LongestAt(rs: seq<Route>, path: string) {
    var hit := First(rs, Hits(path));
    hit.Some? ==>
      forall r | r in rs && Matches(r, path) :: |Trimmed(r.prefix)| <= |Trimmed(hit.value.prefix)|
  }

  lemma ArrangedFindsLongest(rs: seq<Route>, path: string)
    requires Arranged(rs)
    ensures LongestAt(rs, path)
  {
    var hit := First(rs, Hits(path));
    if hit.Some? {
      var m := FirstIndex(rs, Hits(path));
      forall r | r in rs && Matches(r, path)
        ensures |Trimmed(r.prefix)| <= |Trimmed(hit.value.prefix)|
      {
        var j :| 0 <= j < |rs| && rs[j] == r;
        assert Hits(path).Passes(rs[j]) && Hits(path).Passes(rs[m]);
        NotLonger(rs, path, m, j);
      }
    }
  }

  lemma CoversNest(p: string, q: string, path: string)
    requires Covers(p, path) && Covers(q, path) && |p| < |q|
    ensures p == "" || p + "/" <= q
  {
    if p != "" {
      assert q <= path;
      assert q[|p|] == path[|p|] == (p + "/")[|p|];
    }
  }

  /** No match after the first has a longer prefix. */
  lemma NotLonger(rs: seq<Route>, path: string, m: nat, j: nat)
    requires Arranged(rs) && m <= j < |rs| && Matches(rs[m], path) && Matches(rs[j], path)
    requires forall k | 0 <= k < m :: !Hits(path).Passes(rs[k])
    ensures |Trimmed(rs[j].prefix)| <= |Trimmed(rs[m].prefix)|
  {
    var p, q := Trimmed(rs[m].prefix), Trimmed(rs[j].prefix);
    if |p| < |q| {
      CoversNest(p, q, path);
    }
  }

  lemma UnderCovers(a: Route, b: Route)
    requires Under(a, b)
    ensures Covers(Trimmed(a.prefix), Trimmed(b.prefix)) && Trimmed(b.prefix) != ""
  {
  }

  lemma CoversWhole(p: string, path: string)
    requires Covers(p, path) && path != "" && |path| <= |p|
    ensures p == path
  {
  }

  lemma MustComeBefore(rs: seq<Route>, i: nat, j: nat)
    requires i < j < |rs| && Under(rs[i], rs[j]) && LongestAt(rs, Trimmed(rs[j].prefix))
    ensures TriedBefore(rs, i, rs[j])
  {
    var path := Trimmed(rs[j].prefix);
    UnderCovers(rs[i], rs[j]);
    assert rs[j] in rs && Hits(path).Passes(rs[j]) && Hits(path).Passes(rs[i]);
    FirstMeans(rs, Hits(path));
    var m := FirstIndex(rs, Hits(path));
    CoversWhole(Trimmed(rs[m].prefix), path);
    assert m < i;
  }

  lemma LongestMeansArranged(rs: seq<Route>)
    requires forall path :: LongestAt(rs, path)
    ensures Arranged(rs)
  {
    forall i, j | 0 <= i < j < |rs| && Under(rs[i], rs[j])
      ensures TriedBefore(rs, i, rs[j])
    {
      MustComeBefore(rs, i, j);
    }
  }

  /** The first match is the longest match on every path exactly when the table is
      arranged. */
  lemma LongestExactly(rs: seq<Route>)
    ensures (forall path :: LongestAt(rs, path)) <==> Arranged(rs)
  {
    if Arranged(rs) {
      forall path ensures LongestAt(rs, path) {
        ArrangedFindsLongest(rs, path);
      }
    } else if forall path :: LongestAt(rs, path) {
      LongestMeansArranged(rs);
    }
  }

  /** Whenever one configured route sorts before another nested under it, an equivalent of
      the nested one sorts before both. */
  ghost predicate WellNested(routes: seq<Route>) {
    forall a, b | a in routes && b in routes && !IsDefault(a) && !IsDefault(b) && Under(a, b) && RouteLeq(a, b) ::
      Rescued(routes, a, b)
  }

  ghost predicate Rescued(routes: seq<Route>, a: Route, b: Route) {
    exists c :: c in routes && Trimmed(c.prefix) == Trimmed(b.prefix) && RouteLeq(c, a)
  }

  /** Routes that sort both ways have one prefix. */
  lemma TiedPrefixes(a: Route, b: Route)
    requires RouteLeq(a, b) && RouteLeq(b, a)
    ensures a.prefix == b.prefix
  {
    StringTrichotomy(a.prefix, b.prefix);
  }

  lemma TrimmedNotDefault(r: Route)
    requires Trimmed(r.prefix) != ""
    ensures !IsDefault(r)
  {
    assert "/"[..0] == "";
    assert Trimmed("/") == "";
  }

  lemma ArrangedIsWellNested(routes: seq<Route>, rs: seq<Route>)
    requires Sorted(RouteLeq, rs) && forall r :: r in rs <==> r in routes && !IsDefault(r)
    requires Arranged(rs)
    ensures WellNested(routes)
  {
    forall a, b | a in routes && b in routes && !IsDefault(a) && !IsDefault(b) && Under(a, b) && RouteLeq(a, b)
      ensures Rescued(routes, a, b)
    {
      var i :| 0 <= i < |rs| && rs[i] == a;
      var j :| 0 <= j < |rs| && rs[j] == b;
      if j < i {
        TiedPrefixes(a, b);
      }
      assert Under(rs[i], rs[j]) && TriedBefore(rs, i, rs[j]);
      var k :| 0 <= k < i && Trimmed(rs[k].prefix) == Trimmed(b.prefix);
      assert rs[k] in rs && RouteLeq(rs[k], a);
    }
  }

  lemma WellNestedIsArranged(routes: seq<Route>, rs: seq<Route>)
    requires Sorted(RouteLeq, rs) && forall r :: r in rs <==> r in routes && !IsDefault(r)
    requires WellNested(routes)
    ensures Arranged(rs)
  {
    forall i, j | 0 <= i < j < |rs| && Under(rs[i], rs[j])
      ensures TriedBefore(rs, i, rs[j])
    {
      var a, b := rs[i], rs[j];
      assert a in rs && b in rs && Rescued(routes, a, b);
      var c :| c in routes && Trimmed(c.prefix) == Trimmed(b.prefix) && RouteLeq(c, a);
      UnderCovers(a, b);
      TrimmedNotDefault(c);
      SortsBefore(rs, i, c);
    }
  }

  lemma SortsBefore(rs: seq<Route>, i: nat, c: Route)
    requires Sorted(RouteLeq, rs) && i < |rs| && c in rs && RouteLeq(c, rs[i])
    requires Trimmed(c.prefix) != Trimmed(rs[i].prefix)
    ensures TriedBefore(rs, i, c)
  {
    var k :| 0 <= k < |rs| && rs[k] == c;
    if i < k {
      TiedPrefixes(rs[i], c);
    }
  }

  /** The same in terms of the configuration: every path finds its longest prefix exactly
      when the configured routes are well nested. */
  lemma LongestConfiguredExactly(routes: seq<Route>)
    requires Built(routes).Ok?
    ensures (forall path :: LongestAt(Built(routes).table.routes, path)) <==> WellNested(routes)
  {
    var rs := Built(routes).table.routes;
    BuiltTable(routes);
    LongestExactly(rs);
    if Arranged(rs) {
      ArrangedIsWellNested(routes, rs);
    } else if WellNested(routes) {
      WellNestedIsArranged(routes, rs);
    }
  }

  lemma {:induction false} ProperSorted(rs: seq<Route>)
    requires Sorted(RouteLeq, rs)
    ensures Sorted(RouteLeq, Proper(rs))
  {
    if rs != [] {
      var n := |rs| - 1;
      ProperSorted(rs[..n]);
      ProperMembers(rs[..n]);
      forall r | r in Proper(rs[..n]) ensures RouteLeq(r, rs[n]) {
        assert r in rs[..n];
      }
    }
  }

  lemma SlimPairs(a: Route, b: Route)
    requires RouteLeq(a, b) && !IsDefault(a) && !EndsInTwoSlashes(a.prefix) && !EndsInTwoSlashes(b.prefix)
    ensures !Under(a, b)
  {
    TrimmedLength(a.prefix);
    TrimmedLength(b.prefix);
    var p, q := Trimmed(a.prefix), Trimmed(b.prefix);
    if Under(a, b) && p != "" {
      UnderIsLonger(a, b);
    }
  }

  lemma UnderIsLonger(a: Route, b: Route)
    requires Under(a, b) && Trimmed(a.prefix) != ""
    ensures |Trimmed(a.prefix)| + 2 <= |Trimmed(b.prefix)|
  {
    var p, q := Trimmed(a.prefix), Trimmed(b.prefix);
    assert q[|p|] == (p + "/")[|p|] == '/';
  }

  /** With at most one trailing slash on every prefix, the route that answers has the
      longest prefix, trailing slash aside, of all that match. */
  lemma LongestPrefixWins(routes: seq<Route>, path: string)
    requires Built(routes).Ok? && forall r | r in routes :: !EndsInTwoSlashes(r.prefix)
    ensures var a := Answer(Built(routes).table, path);
            a.Some? && !IsDefault(a.value) ==>
              forall r | r in routes && !IsDefault(r) && Matches(r, path) ::
                |Trimmed(r.prefix)| <= |Trimmed(a.value.prefix)|
  {
    var rs := Built(routes).table.routes;
    BuiltTable(routes);
    SlimIsArranged(rs);
    ArrangedFindsLongest(rs, path);
    FirstMeans(rs, Hits(path));
  }

  lemma SlimIsArranged(rs: seq<Route>)
    requires Sorted(RouteLeq, rs)
    requires forall r | r in rs :: !IsDefault(r) && !EndsInTwoSlashes(r.prefix)
    ensures Arranged(rs)
  {
    forall i, j | 0 <= i < j < |rs| ensures !Under(rs[i], rs[j]) {
      assert rs[i] in rs && rs[j] in rs;
      SlimPairs(rs[i], rs[j]);
    }
  }

  lemma TableOfTwo(a: Route, b: Route)
    requires a.action.Valid() && b.action.Valid() && !IsDefault(a) && !IsDefault(b)
    ensures FromSorted([a, b]) == Ok(Table([a, b], None))
  {
    FirstOfTwo(a, b, Invalid);
    FirstOfTwo(a, b, Default);
    ProperOfTwo(a, b);
  }

  lemma FirstAnswers(a: Route, b: Route, path: string)
    requires Matches(a, path)
    ensures Answer(Table([a, b], None), path) == Some(a)
  {
    assert Hits(path).Passes(a);
  }

  /** A route with the longer raw prefix is tried first, whatever its trimmed prefix. */
  lemma RawLengthDecides(a: Route, b: Route, path: string)
    requires |a.prefix| > |b.prefix| && a.action.Valid() && b.action.Valid()
    requires !IsDefault(a) && !IsDefault(b) && Matches(a, path)
    ensures Built([b, a]) == Ok(Table([a, b], None)) && Answer(Table([a, b], None), path) == Some(a)
  {
    SortTwo(b, a);
    TableOfTwo(a, b);
    FirstAnswers(a, b, path);
  }

  lemma SortTwo(b: Route, a: Route)
    requires |a.prefix| > |b.prefix|
    ensures Sort(RouteLeq, [b, a]) == [a, b]
  {
    var t := Sort(RouteLeq, [b, a]);
    RouteOrder();
    SortSorts(RouteLeq, [b, a]);
    SameMembers([b, a], t);
    assert t[0] in t && t[1] in t;
    assert RouteLeq(t[0], t[1]) && !RouteLeq(b, a);
    assert multiset(t)[a] == 1 && multiset(t)[b] == 1;
    assert t == [t[0], t[1]];
  }

  lemma ProperOfTwo(a: Route, b: Route)
    requires !IsDefault(a) && !IsDefault(b)
    ensures Proper([a, b]) == [a, b]
  {
    assert [a][..0] == [];
    assert Proper([a]) == [a];
    assert [a, b][..1] == [a];
  }

  lemma FirstOfTwo(a: Route, b: Route, f: Test)
    requires !f.Passes(a) && !f.Passes(b)
    ensures First([a, b], f).None?
  {
    assert [b][1..] == [];
    assert First([b], f).None?;
    assert [a, b][1..] == [b];
  }

  lemma ThreeSlashes()
    ensures Slashes(0) == "" && Slashes(3) == "///"
  {
    assert Slashes(1) == "/" && Slashes(2) == "//";
  }

  lemma TrimmedThrice(p: string)
    requires p != "" && p[|p| - 1] != '/'
    ensures Trimmed(p + "///") == Trimmed(p) == p
  {
    TrimmedExactly(p, 0);
    TrimmedExactly(p, 3);
    ThreeSlashes();
  }

  /** Trailing slashes let a shorter prefix overtake a longer one that also matches. */
  lemma TrailingSlashesOvertake()
    ensures var a, b := Route("/a///", Pass, [], false, 0, false, []), Route("/a/b", Redact, [], false, 0, false, []);
            var t := Table([a, b], None);
            && Built([b, a]) == Ok(t) && Answer(t, "/a/b") == Some(a)
            && Matches(b, "/a/b") && |Trimmed(a.prefix)| < |Trimmed(b.prefix)|
  {
    var a, b := Route("/a///", Pass, [], false, 0, false, []), Route("/a/b", Redact, [], false, 0, false, []);
    TrimmedThrice("/a");
    assert "/a" + "///" == "/a///";
    assert "/a" + "/" <= "/a/b";
    RawLengthDecides(a, b, "/a/b");
  }

  lemma DistinctHaveNoTies(routes: seq<Route>)
    requires forall i, j | 0 <= i < j < |routes| :: routes[i].prefix != routes[j].prefix
    ensures NoTies(RouteLeq, routes)
  {
    forall x: Route, y: Route | x in routes && y in routes && RouteLeq(x, y) && RouteLeq(y, x) ensures x == y {
      TiedPrefixes(x, y);
    }
  }

  lemma SameNoTies(s: seq<Route>, t: seq<Route>)
    requires NoTies(RouteLeq, s) && forall x :: x in s <==> x in t
    ensures NoTies(RouteLeq, t)
  {
  }

  /** With pairwise distinct prefixes the order of the configuration does not matter. */
  lemma ConfigurationOrderIrrelevant(routes: seq<Route>, other: seq<Route>)
    requires multiset(routes) == multiset(other)
    requires forall i, j | 0 <= i < j < |routes| :: routes[i].prefix != routes[j].prefix
    ensures Built(routes) == Built(other)
  {
    RouteOrder();
    SortSorts(RouteLeq, routes);
    SortSorts(RouteLeq, other);
    SameMembers(routes, Sort(RouteLeq, routes));
    DistinctHaveNoTies(routes);
    SameNoTies(routes, Sort(RouteLeq, routes));
    SortedIsUnique(RouteLeq, Sort(RouteLeq, routes), Sort(RouteLeq, other));
  }

  lemma {:induction false} StableSortKeepsFirst(routes: seq<Route>, prefix: string)
    ensures First(Sort(RouteLeq, routes), Named(prefix)) == First(routes, Named(prefix))
  {
    if routes != [] {
      StableSortKeepsFirst(routes[1..], prefix);
      InsertFirst(routes[0], Sort(RouteLeq, routes[1..]), prefix);
    }
  }

  /** Inserting x before its equals makes it the first of its prefix and leaves the first
      of any other. */
  lemma InsertFirst(x: Route, t: seq<Route>, prefix: string)
    ensures First(Insert(t, Slot(RouteLeq, x, t), x), Named(prefix))
         == if x.prefix == prefix then Some(x) else First(t, Named(prefix))
  {
    var k := Slot(RouteLeq, x, t);
    var lo, hi := t[..k], t[k..];
    assert Insert(t, k, x) == lo + ([x] + hi) && t == lo + hi;
    FirstJoin(lo, [x] + hi, Named(prefix));
    FirstJoin(lo, hi, Named(prefix));
    FirstMeans(lo, Named(prefix));
    if x.prefix == prefix {
      StringTrichotomy(prefix, prefix);
      forall r | r in lo ensures r.prefix != prefix {
        assert !RouteLeq(x, r);
      }
    }
  }

  lemma {:induction false} ProperKeepsFirst(rs: seq<Route>, prefix: string)
    requires prefix != "" && prefix != "/"
    ensures First(Proper(rs), Named(prefix)) == First(rs, Named(prefix))
  {
    if rs != [] {
      var n := |rs| - 1;
      ProperKeepsFirst(rs[..n], prefix);
      Grown(rs, n, Named(prefix));
      assert rs[..n + 1] == rs;
      if IsDefault(rs[n]) {
        assert Proper(rs) == Proper(rs[..n]);
      } else {
        FirstJoin(Proper(rs[..n]), [rs[n]], Named(prefix));
      }
    }
  }

  lemma {:induction false} FirstOfItsName(rs: seq<Route>, path: string)
    requires First(rs, Hits(path)).Some?
    ensures var r := First(rs, Hits(path)).value; First(rs, Named(r.prefix)) == Some(r)
  {
    if !Hits(path).Passes(rs[0]) {
      FirstOfItsName(rs[1..], path);
      FirstMeans(rs[1..], Hits(path));
    }
  }

  /** Among routes with the same prefix the first one configured answers. */
  lemma FirstConfiguredWins(routes: seq<Route>, path: string)
    requires Built(routes).Ok? && Answer(Built(routes).table, path).Some?
    ensures var r := Answer(Built(routes).table, path).value;
            First(routes, Named(r.prefix)) == Some(r)
  {
    var sorted := Sort(RouteLeq, routes);
    var r := Answer(Built(routes).table, path).value;
    StableSortKeepsFirst(routes, r.prefix);
    if First(Proper(sorted), Hits(path)).Some? {
      FirstOfItsName(Proper(sorted), path);
      BuiltTable(routes);
      FirstMeans(Proper(sorted), Hits(path));
      ProperKeepsFirst(sorted, r.prefix);
    } else {
      FirstDefault(sorted);
    }
  }

  lemma {:induction false} FirstDefault(rs: seq<Route>)
    requires First(rs, Default).Some?
    ensures var r := First(rs, Default).value; First(rs, Named(r.prefix)) == Some(r)
  {
    if !IsDefault(rs[0]) {
      FirstDefault(rs[1..]);
      FirstMeans(rs[1..], Default);
    }
  }
}
