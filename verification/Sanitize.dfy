// One upload item through policy, decoding, detection, masking, encoding and audit. The
// codecs, the detectors and the audit log are arbitrary functions that may fail.
module Sanitize {
  import opened ByteStrings
  import opened Geometry
  import opened Sorting
  import opened Wrappers
  import Decode
  import Jpeg
  import MarkerDetector
  import Mask
  import Metrics
  import Png
  import Policy
  import Summary

  type Region = MarkerDetector.Region

  type Route = Policy.Route

  /** What one detector reports. */
  datatype Answer = Regions(regions: seq<Region>) | Failed | Canceled

  ghost predicate Plausible(img: Image) {
    img.Valid() && img.bounds.Dx() < 0x8000_0000 && img.bounds.Dy() < 0x8000_0000
  }

  /** What is written to the audit log for one item. */
  datatype Entry = Entry(prefix: string, action: Policy.Action, categories: seq<string>, boxes: seq<Rect>,
                         sanitized: Bytes)

  datatype Env = Env(
    registry: map<string, Image -> Answer>,
    codec: Decode.Codec,
    maxPixels: int,
    encode: (Image, Decode.Format) -> Option<Bytes>,
    audit: Entry -> bool,
    blurRadius: int)
  {
    /** The codecs return pictures whose pixel rows fit their bounds, with sides as short as
        a PNG or JPEG header can announce: 31 and 16 bits. */
    ghost predicate Sound() {
      forall f, d {:trigger codec.pixels(f, d)} | codec.pixels(f, d).Got? :: Plausible(codec.pixels(f, d).image)
    }
  }

  /** The outcome for one item. */
  datatype Verdict =
    | Item(out: Bytes, audited: bool, boxes: nat, categories: seq<string>)
    | Blocked(reason: Metrics.BlockReason)
    | Dropped

  // ---------- detection ----------

  function Clipped(b: Rect, rs: seq<Region>): seq<Region> {
    if rs == [] then []
    else
      var r := rs[|rs| - 1];
      var clip := r.rect.Intersect(b);
      Clipped(b, rs[..|rs| - 1]) + if clip.Empty() then [] else [r.(rect := clip)]
  }

  datatype Detections = Union(regions: seq<Region>) | DetectorError | Stopped

  /** The detectors run in order; the first that cannot answer ends it. */
  function Detected(env: Env, names: seq<string>, img: Image): Detections {
    if names == [] then Union([])
    else
      var before := Detected(env, names[..|names| - 1], img);
      var name := names[|names| - 1];
      if !before.Union? then before
      else if name !in env.registry then DetectorError
      else
        match env.registry[name](img)
        case Failed => DetectorError
        case Canceled => Stopped
        case Regions(rs) => Union(before.regions + Clipped(img.bounds, rs))
  }

  function Labels(rs: seq<Region>): (l: seq<string>)
    ensures |l| == |rs| && forall k | 0 <= k < |l| :: l[k] == rs[k].category
  {
    seq(|rs|, k requires 0 <= k < |rs| => rs[k].category)
  }

  /** The distinct nonempty categories, sorted. */
  function Categories(rs: seq<Region>): seq<string> {
    Sort(StringLeq, Summary.Fresh([], Labels(rs)))
  }

  lemma CategoriesMeans(rs: seq<Region>)
    ensures Summary.Tidy(Categories(rs))
    ensures forall x :: x in Categories(rs) <==> x != "" && x in Labels(rs)
  {
    var f := Summary.Fresh([], Labels(rs));
    Summary.FreshMeans([], Labels(rs));
    StringOrder();
    SortSorts(StringLeq, f);
    Summary.DistinctRearranged(f, Categories(rs));
  }

  /** Some region bears the label. */
  ghost predicate IsLabel(rs: seq<Region>, c: string) {
    exists k :: 0 <= k < |rs| && rs[k].category == c
  }

  lemma CategoriesExactly(rs: seq<Region>)
    ensures Summary.Tidy(Categories(rs))
    ensures forall c :: c in Categories(rs) <==> c != "" && IsLabel(rs, c)
  {
    CategoriesMeans(rs);
    forall c ensures c in Labels(rs) <==> IsLabel(rs, c) {
      if k :| 0 <= k < |rs| && rs[k].category == c {
        assert Labels(rs)[k] == c;
      }
    }
  }

  method ListOf(s: set<string>) returns (l: seq<string>)
    ensures forall x :: x in l <==> x in s
    ensures forall i, j | 0 <= i < j < |l| :: l[i] != l[j]
  {
    l := [];
    var rest := s;
    while rest != {}
      invariant forall x :: x in s <==> x in l || x in rest
      invariant forall x | x in l :: x !in rest
      invariant forall i, j | 0 <= i < j < |l| :: l[i] != l[j]
      decreases |rest|
    {
      var x :| x in rest;
      rest := rest - {x};
      l := l + [x];
    }
  }

  /** Whatever order the set is listed in, sorting gives the same categories. */
  method SortedCategories(catset: set<string>, ghost all: seq<Region>) returns (cats: seq<string>)
    requires forall x :: x in catset <==> x != "" && x in Labels(all)
    ensures cats == Categories(all)
  {
    var l := ListOf(catset);
    cats := Sort(StringLeq, l);
    StringOrder();
    SortSorts(StringLeq, l);
    Summary.DistinctRearranged(l, cats);
    CategoriesMeans(all);
    Summary.TidyIsUnique(cats, Categories(all));
  }

  /** Appends the visible part of each region and collects its category. */
  method ClipInto(b: Rect, rs: seq<Region>, all: seq<Region>, catset: set<string>)
    returns (more: seq<Region>, cats: set<string>)
    requires forall x :: x in catset <==> x != "" && x in Labels(all)
    ensures more == all + Clipped(b, rs)
    ensures forall x :: x in cats <==> x != "" && x in Labels(more)
  {
    more, cats := all, catset;
    var i := 0;
    while i < |rs|
      invariant i <= |rs| && more == all + Clipped(b, rs[..i])
      invariant forall x :: x in cats <==> x != "" && x in Labels(more)
    {
      assert rs[..i + 1][..i] == rs[..i];
      var r := rs[i];
      i := i + 1;
      var clip := r.rect.Intersect(b);
      if clip.Empty() {
        continue;
      }
      LabelsAppend(more, r.(rect := clip));
      more := more + [r.(rect := clip)];
      if r.category != "" {
        cats := cats + {r.category};
      }
    }
    assert rs[..i] == rs;
  }

  lemma LabelsAppend(rs: seq<Region>, r: Region)
    ensures Labels(rs + [r]) == Labels(rs) + [r.category]
  {
  }

  method RunDetectors(env: Env, names: seq<string>, img: Image) returns (d: Detections, cats: seq<string>)
    ensures d == Detected(env, names, img)
    ensures d.Union? ==> cats == Categories(d.regions)
  {
    var all: seq<Region> := [];
    var catset: set<string> := {};
    var i := 0;
    while i < |names|
      invariant i <= |names| && Detected(env, names[..i], img) == Union(all)
      invariant forall x :: x in catset <==> x != "" && x in Labels(all)
    {
      assert names[..i + 1][..i] == names[..i];
      var name := names[i];
      i := i + 1;
      if name !in env.registry {
        DetectionStops(env, names, i, img);
        return DetectorError, [];
      }
      match env.registry[name](img) {
        case Failed =>
          DetectionStops(env, names, i, img);
          return DetectorError, [];
        case Canceled =>
          DetectionStops(env, names, i, img);
          return Stopped, [];
        case Regions(rs) =>
          all, catset := ClipInto(img.bounds, rs, all, catset);
      }
    }
    assert names[..i] == names;
    cats := SortedCategories(catset, all);
    d := Union(all);
  }

  lemma {:induction false} DetectionStops(env: Env, names: seq<string>, k: nat, img: Image)
    requires k <= |names| && !Detected(env, names[..k], img).Union?
    ensures Detected(env, names, img) == Detected(env, names[..k], img)
  {
    if k == |names| {
      assert names[..k] == names;
    } else {
      var n := |names| - 1;
      assert names[..n][..k] == names[..k];
      DetectionStops(env, names[..n], k, img);
    }
  }

  // ---------- the verdict ----------

  function FailClosed(route: Route, data: Bytes, reason: Metrics.BlockReason): Verdict {
    if route.failOpen then Item(data, false, 0, []) else Blocked(reason)
  }

  function EntryFor(route: Route, rs: seq<Region>, sanitized: Bytes): Entry {
    Entry(route.prefix, route.action, Named(rs), Rects(rs), sanitized)
  }

  /** The nonempty categories in the order of the regions. */
  function Named(rs: seq<Region>): seq<string> {
    if rs == [] then []
    else Named(rs[..|rs| - 1]) + if rs[|rs| - 1].category == "" then [] else [rs[|rs| - 1].category]
  }

  function Rects(rs: seq<Region>): (q: seq<Rect>)
    ensures |q| == |rs| && forall k | 0 <= k < |q| :: q[k] == rs[k].rect
  {
    seq(|rs|, k requires 0 <= k < |rs| => rs[k].rect)
  }

  lemma {:induction false} NamedJoin(a: seq<Region>, b: seq<Region>)
    ensures Named(a + b) == Named(a) + Named(b)
  {
    if b == [] {
      assert a + b == a;
    } else {
      assert (a + b)[..|a + b| - 1] == a + b[..|b| - 1];
      NamedJoin(a, b[..|b| - 1]);
    }
  }

  /** What an audit entry says: the route, the nonempty labels of the regions in their order,
      all of their rectangles, and the bytes that go on. */
  lemma EntryExactly(route: Route, rs: seq<Region>, r: Region, out: Bytes)
    ensures var e, f := EntryFor(route, rs, out), EntryFor(route, rs + [r], out);
            && e.prefix == route.prefix && e.action == route.action && e.sanitized == out
            && |e.boxes| == |rs| && (forall k | 0 <= k < |rs| :: e.boxes[k] == rs[k].rect)
            && EntryFor(route, [], out).categories == []
            && f.categories == if r.category == "" then e.categories else e.categories + [r.category]
  {
    NamedJoin(rs, [r]);
    assert [r][..0] == [];
  }

  lemma {:induction false} ClippedJoin(b: Rect, rs: seq<Region>, qs: seq<Region>)
    ensures Clipped(b, rs + qs) == Clipped(b, rs) + Clipped(b, qs)
  {
    if qs == [] {
      assert rs + qs == rs;
    } else {
      assert (rs + qs)[..|rs + qs| - 1] == rs + qs[..|qs| - 1];
      ClippedJoin(b, rs, qs[..|qs| - 1]);
    }
  }

  /** Region by region, detections keep the label and the part of the rectangle inside the
      picture, and drop what lies outside. */
  lemma ClippedExactly(b: Rect, rs: seq<Region>, r: Region)
    ensures Clipped(b, []) == []
    ensures (forall x, y :: !(r.rect.Has(x, y) && b.Has(x, y))) ==> Clipped(b, rs + [r]) == Clipped(b, rs)
    ensures (exists x, y :: r.rect.Has(x, y) && b.Has(x, y)) ==>
              exists c: Rect :: Clipped(b, rs + [r]) == Clipped(b, rs) + [MarkerDetector.Region(c, r.category)] &&
                                forall x, y :: c.Has(x, y) <==> r.rect.Has(x, y) && b.Has(x, y)
  {
    ClippedJoin(b, rs, [r]);
    assert [r][..0] == [];
    var c := r.rect.Intersect(b);
    if c.Empty() {
      assert forall x, y :: !c.Has(x, y);
    } else {
      assert c.Has(c.minX, c.minY);
      assert Clipped(b, [r]) == [MarkerDetector.Region(c, r.category)];
    }
  }

  /** The detectors' regions come one detector after the other. */
  lemma DetectedJoin(env: Env, names: seq<string>, name: string, img: Image)
    ensures Detected(env, [], img) == Union([])
    ensures Detected(env, names, img).Union? && name in env.registry && env.registry[name](img).Regions? ==>
              Detected(env, names + [name], img)
              == Union(Detected(env, names, img).regions + Clipped(img.bounds, env.registry[name](img).regions))
  {
    assert (names + [name])[..|names|] == names;
  }

  /** The item of a pass route. */
  function Passed(env: Env, route: Route, data: Bytes, isImage: bool): Verdict {
    if isImage && route.stripMetadata then
      if Decode.IsJPEG(data) then
        var s := Jpeg.Stripped(data);
        if s.Ok? then PassedOn(env, route, data, s.out) else FailClosed(route, data, Metrics.Strip)
      else if Decode.IsPNG(data) then
        var s := Png.Stripped(data);
        if s.Ok? then PassedOn(env, route, data, s.out) else FailClosed(route, data, Metrics.Strip)
      else FailClosed(route, data, Metrics.Strip)
    else if isImage then PassedOn(env, route, data, data)
    else Item(data, false, 0, [])
  }

  function PassedOn(env: Env, route: Route, data: Bytes, out: Bytes): Verdict {
    if env.audit(EntryFor(route, [], out)) then Item(out, true, 0, []) else FailClosed(route, data, Metrics.Audit)
  }

  function Mode(env: Env, route: Route): Mask.Options {
    if route.action.Blur? then Mask.Blurred(env.blurRadius) else Mask.Solid(Mask.NoFill)
  }

  /** The picture with every region obscured. */
  ghost function Obscured(env: Env, route: Route, img: Image, rs: seq<Region>): (m: Image)
    requires img.Valid() && !img.bounds.Empty()
    ensures m.Valid() && m.bounds == img.bounds
  {
    Image(img.bounds, Mask.MaskAll(img.bounds, img.rows, Rects(rs), Mode(env, route)))
  }

  lemma DecodedIsUsable(env: Env, data: Bytes)
    requires env.Sound() && Decode.Decode(env.codec, data, env.maxPixels).Ok?
    ensures var img := Decode.Decode(env.codec, data, env.maxPixels).image; Plausible(img) && !img.bounds.Empty()
  {
    var f := Decode.DetectFormat(data).value;
    assert env.codec.pixels(f, data).Got?;
  }

  /** The item of a redact or blur route. */
  ghost function Masked(env: Env, route: Route, data: Bytes, isImage: bool): Verdict
    requires env.Sound()
  {
    if !isImage then Item(data, false, 0, [])
    else
      match Decode.Decode(env.codec, data, env.maxPixels)
      case Err(UnsupportedFormat) => FailClosed(route, data, Metrics.UnsupportedFormat)
      case Err(TooManyPixels) => FailClosed(route, data, Metrics.TooLarge)
      case Err(_) => FailClosed(route, data, Metrics.Decode)
      case Ok(img, format) =>
        DecodedIsUsable(env, data);
        match Detected(env, route.detectors, img)
        case Stopped => Blocked(Metrics.Canceled)
        case DetectorError => FailClosed(route, data, Metrics.DetectorError)
        case Union(rs) => Encoded(env, route, data, rs, env.encode(Obscured(env, route, img, rs), format))
  }

  function Encoded(env: Env, route: Route, data: Bytes, rs: seq<Region>, out: Option<Bytes>): Verdict {
    if out.None? then FailClosed(route, data, Metrics.Encode)
    else if !env.audit(EntryFor(route, rs, out.value)) then FailClosed(route, data, Metrics.Audit)
    else Item(out.value, true, |rs|, Categories(rs))
  }

  /** What SanitizeImage decides. */
  ghost function Sanitized(env: Env, route: Route, data: Bytes, isImage: bool): Verdict
    requires env.Sound()
  {
    match route.action
    case Drop => Dropped
    case Pass => Passed(env, route, data, isImage)
    case Redact => Masked(env, route, data, isImage)
    case Blur => Masked(env, route, data, isImage)
    case Unknown(_) => FailClosed(route, data, Metrics.Policy)
  }

  /** What it adds to the counters. */
  function Counted(k: Metrics.Counters, route: Route, v: Verdict): Metrics.Counters
    requires k.Sized()
  {
    match v
    case Blocked(reason) => k.Processed().Blocked().Attributed(reason)
    case Dropped => k.Processed().Blocked().Attributed(Metrics.Policy)
    case Item(_, audited, boxes, _) =>
      if route.action.Masks() && audited then k.Processed().Sanitized().Masked(boxes) else k.Processed()
  }

  /** The additions of a call, one counter at a time. */
  lemma CountedExactly(k: Metrics.Counters, route: Route, v: Verdict)
    requires k.Sized()
    ensures var a := Counted(k, route, v);
            var redacted := v.Item? && v.audited && (route.action == Policy.Redact || route.action == Policy.Blur);
            && a.processed == k.processed + 1
            && a.blocked == k.blocked + (if v.Item? then 0 else 1)
            && a.sanitized == k.sanitized + (if redacted then 1 else 0)
            && a.masked == k.masked + (if redacted then v.boxes else 0)
            && a.byReason == (match v
                              case Item(_, _, _, _) => k.byReason
                              case Blocked(reason) => k.Attributed(reason).byReason
                              case Dropped => k.Attributed(Metrics.Policy).byReason)
  {
  }

  // ---------- the methods ----------

  method HandlePass(env: Env, route: Route, data: Bytes, isImage: bool) returns (v: Verdict)
    ensures v == Passed(env, route, data, isImage)
  {
    var out := data;
    if isImage && route.stripMetadata {
      if Decode.IsJPEG(data) {
        var stripped := Jpeg.Strip(data);
        if !stripped.Ok? {
          return FailClosed(route, data, Metrics.Strip);
        }
        out := stripped.out;
      } else if Decode.IsPNG(data) {
        var stripped := Png.StripPNG(data);
        if !stripped.Ok? {
          return FailClosed(route, data, Metrics.Strip);
        }
        out := stripped.out;
      } else {
        return FailClosed(route, data, Metrics.Strip);
      }
    }
    if isImage {
      if !env.audit(EntryFor(route, [], out)) {
        return FailClosed(route, data, Metrics.Audit);
      }
      return Item(out, true, 0, []);
    }
    return Item(out, false, 0, []);
  }

  method HandleMask(env: Env, route: Route, data: Bytes, isImage: bool, m: Metrics.Metrics) returns (v: Verdict)
    requires env.Sound() && route.action.Masks()
    modifies m
    ensures v == Masked(env, route, data, isImage)
    ensures var k := old(m.View());
            m.View() == if v.Item? && v.audited then k.Sanitized().Masked(v.boxes) else k
  {
    if !isImage {
      return Item(data, false, 0, []);
    }
    var dec := Decode.Decode(env.codec, data, env.maxPixels);
    if dec.Err? {
      match dec.error {
        case UnsupportedFormat => return FailClosed(route, data, Metrics.UnsupportedFormat);
        case TooManyPixels => return FailClosed(route, data, Metrics.TooLarge);
        case InvalidBounds => return FailClosed(route, data, Metrics.Decode);
        case Undecodable => return FailClosed(route, data, Metrics.Decode);
      }
    }
    DecodedIsUsable(env, data);
    var found, cats := RunDetectors(env, route.detectors, dec.image);
    if found.Stopped? {
      return Blocked(Metrics.Canceled);
    }
    if found.DetectorError? {
      return FailClosed(route, data, Metrics.DetectorError);
    }
    var regions := found.regions;
    Mask.ShortSides(dec.image.bounds);
    var masked := Mask.Apply(dec.image, Rects(regions), Mode(env, route));
    var out := env.encode(masked, dec.format);
    if out.None? {
      return FailClosed(route, data, Metrics.Encode);
    }
    if !env.audit(EntryFor(route, regions, out.value)) {
      return FailClosed(route, data, Metrics.Audit);
    }
    m.IncImagesSanitized();
    m.AddRegionsMasked(|regions|);
    return Item(out.value, true, |regions|, cats);
  }

  /** Every call is counted as processed, and counted as blocked exactly when it refuses. */
  method SanitizeImage(env: Env, route: Route, data: Bytes, isImage: bool, m: Metrics.Metrics) returns (v: Verdict)
    requires env.Sound() && m.View().Sized()
    modifies m, m.blockedByReason
    ensures v == Sanitized(env, route, data, isImage)
    ensures m.View() == Counted(old(m.View()), route, v)
  {
    m.IncUploadsProcessed();
    match route.action {
      case Drop => v := Dropped;
      case Pass => v := HandlePass(env, route, data, isImage);
      case Redact => v := HandleMask(env, route, data, isImage, m);
      case Blur => v := HandleMask(env, route, data, isImage, m);
      case Unknown(_) => v := FailClosed(route, data, Metrics.Policy);
    }
    if v.Blocked? {
      m.IncUploadsBlocked(v.reason);
    } else if v.Dropped? {
      m.IncUploadsBlocked(Metrics.Policy);
    }
  }

  // ---------- the additions of one call, one by one ----------

  /** How a call that reaches this verdict ended, as the counters see it. */
  function OutcomeOf(route: Route, v: Verdict): Metrics.Outcome {
    match v
    case Blocked(reason) => Metrics.Refused(reason)
    case Dropped => Metrics.Refused(Metrics.Policy)
    case Item(_, audited, boxes, _) =>
      if route.action.Masks() && audited then Metrics.Forwarded(true, boxes) else Metrics.Forwarded(false, 0)
  }

  /** The additions SanitizeImage makes are steps of the counter protocol: run alone, they
      take the counters to what the method promises and end the call as its verdict says,
      with the box count it returns. */
  lemma CallFollowsProtocol(env: Env, route: Route, data: Bytes, isImage: bool, s: Metrics.State)
    returns (s1: Metrics.State, s2: Metrics.State, s3: Metrics.State)
    requires env.Sound() && s.counters.Sized()
    ensures var v, id := Sanitized(env, route, data, isImage), |s.calls|;
            && Metrics.Step(s, Metrics.Enter, id, s1) && Metrics.Next(s1, s2) && (s3 == s2 || Metrics.Next(s2, s3))
            && s3.counters == Counted(s.counters, route, v)
            && Metrics.At(s3, id, Metrics.Returned(OutcomeOf(route, v)))
            && (v.Item? ==> OutcomeOf(route, v) == Metrics.Forwarded(route.action.Masks() && v.audited, v.boxes))
  {
    var v, id := Sanitized(env, route, data, isImage), |s.calls|;
    s1 := Metrics.State(s.counters.Processed(), s.calls + [Metrics.Working]);
    if v.Item? && !(route.action.Masks() && v.audited) {
      s2 := Metrics.Moved(s1, s1.counters, id, Metrics.Returned(Metrics.Forwarded(false, 0)));
      assert Metrics.Step(s1, Metrics.Forward, id, s2);
      s3 := s2;
    } else if v.Item? {
      s2 := Metrics.Moved(s1, s1.counters.Sanitized(), id, Metrics.Call.Counted(v.boxes));
      assert Metrics.Step(s1, Metrics.CountImage(v.boxes), id, s2);
      s3 := Metrics.Moved(s2, s2.counters.Masked(v.boxes), id, Metrics.Returned(Metrics.Forwarded(true, v.boxes)));
      assert Metrics.Step(s2, Metrics.CountRegions, id, s3);
    } else {
      var reason := OutcomeOf(route, v).reason;
      s2 := Metrics.Moved(s1, s1.counters.Blocked(), id, Metrics.Blocking(reason));
      assert Metrics.Step(s1, Metrics.CountBlock(reason), id, s2);
      s3 := Metrics.Moved(s2, s2.counters.Attributed(reason), id, Metrics.Returned(Metrics.Refused(reason)));
      assert Metrics.Step(s2, Metrics.CountReason, id, s3);
    }
  }
}
