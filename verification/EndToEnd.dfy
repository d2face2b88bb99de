// What an item that goes on to the origin is guaranteed to be.
module EndToEnd {
  import opened ByteStrings
  import opened Geometry
  import opened Wrappers
  import opened Sanitize
  import Blur
  import Decode
  import Jpeg
  import MarkerDetector
  import Mask
  import Metrics
  import Png
  import Policy
  import Summary

  // ---------- fail closed, item by item ----------

  predicate IsImage(data: Bytes) {
    Decode.SniffFormat(Decode.Prefix(data)).Some?
  }

  /** out is the picture of data, decoded, with the union of all detected regions
      obscured, and encoded again. */
  ghost predicate Redaction(env: Env, route: Route, data: Bytes, out: Bytes)
    requires env.Sound()
  {
    exists rs :: RedactedWith(env, route, data, out, rs)
  }

  ghost predicate RedactedWith(env: Env, route: Route, data: Bytes, out: Bytes, rs: seq<Region>)
    requires env.Sound()
  {
    var dec := Decode.Decode(env.codec, data, env.maxPixels);
    && dec.Ok? && dec.image.Valid() && !dec.image.bounds.Empty()
    && Detected(env, route.detectors, dec.image) == Union(rs)
    && env.encode(Obscured(env, route, dec.image, rs), dec.format) == Some(out)
  }

  /** What may reach the origin for an item on a route that does not fail open. */
  ghost predicate Clean(env: Env, route: Route, data: Bytes, out: Bytes)
    requires env.Sound()
  {
    if route.action.Drop? || !route.action.Valid() then false
    else if !IsImage(data) then out == data
    else if route.action.Masks() then Redaction(env, route, data, out)
    else if route.stripMetadata then Jpeg.Stripped(data) == Jpeg.Ok(out) || Png.Stripped(data) == Png.Ok(out)
    else out == data
  }

  /** out is the redaction of data for these regions, and an entry for exactly these bytes
      was written. */
  ghost predicate LoggedWith(env: Env, route: Route, data: Bytes, out: Bytes, rs: seq<Region>)
    requires env.Sound()
  {
    RedactedWith(env, route, data, out, rs) && env.audit(EntryFor(route, rs, out))
  }

  lemma MaskedIsLogged(env: Env, route: Route, data: Bytes)
    requires env.Sound()
    ensures var v := Masked(env, route, data, true);
            v.Item? ==> if v.audited then exists rs :: LoggedWith(env, route, data, v.out, rs)
                        else route.failOpen && v.out == data
  {
    var v := Masked(env, route, data, true);
    var dec := Decode.Decode(env.codec, data, env.maxPixels);
    if v.Item? && dec.Ok? {
      DecodedIsUsable(env, data);
      var d := Detected(env, route.detectors, dec.image);
      if d.Union? && v.audited {
        assert LoggedWith(env, route, data, v.out, d.regions);
      }
    }
  }

  /** Whatever the codecs, detectors, encoder and audit log do: an item that goes on is
      clean, or the route fails open and the item goes on untouched. */
  lemma ItemFailsClosed(env: Env, route: Route, data: Bytes)
    requires env.Sound()
    ensures var v := Sanitized(env, route, data, IsImage(data));
            v.Item? ==> Clean(env, route, data, v.out) || (route.failOpen && v.out == data)
  {
    if route.action.Masks() {
      MaskedIsLogged(env, route, data);
    }
  }

  // ---------- the audit log ----------

  ghost predicate RedactedAndLogged(env: Env, route: Route, data: Bytes)
    requires env.Sound()
  {
    exists rs, out :: LoggedWith(env, route, data, out, rs)
  }

  /** A masking route that does not fail open lets an item through exactly when it is no
      image, or it was decoded, searched, masked, encoded and logged. */
  lemma FailClosedPassesExactly(env: Env, route: Route, data: Bytes)
    requires env.Sound() && route.action.Masks() && !route.failOpen
    ensures Sanitized(env, route, data, IsImage(data)).Item? <==>
            (IsImage(data) ==> RedactedAndLogged(env, route, data))
  {
    if IsImage(data) {
      ImageIsLogged(env, route, data);
      forall rs, out | LoggedWith(env, route, data, out, rs) ensures Masked(env, route, data, true).Item? {
      }
    }
  }

  /** An entry for exactly the bytes sent was written for the item. */
  ghost predicate Logged(env: Env, route: Route, data: Bytes, out: Bytes)
    requires env.Sound()
  {
    if route.action.Masks() then exists rs :: LoggedWith(env, route, data, out, rs)
    else env.audit(EntryFor(route, [], out))
  }

  /** An image goes on with an audit entry for exactly the bytes that go on, or, on a route
      that fails open only, untouched and without one. */
  lemma ImageIsLogged(env: Env, route: Route, data: Bytes)
    requires env.Sound() && IsImage(data)
    ensures var v := Sanitized(env, route, data, true);
            v.Item? ==> if v.audited then Logged(env, route, data, v.out) else route.failOpen && v.out == data
  {
    if route.action.Masks() {
      MaskedIsLogged(env, route, data);
    }
  }

  // ---------- what decodes and what does not ----------

  /** Bytes a decoder would take never slip past a masking route as a non-image. */
  lemma DecodableIsRedacted(env: Env, route: Route, data: Bytes)
    requires env.Sound() && route.action.Masks() && !route.failOpen && Decode.DetectFormat(data).Some?
    ensures var v := Sanitized(env, route, data, IsImage(data));
            v.Item? ==> Redaction(env, route, data, v.out)
  {
    Decode.SniffSeesWhatDecodeAccepts(data);
    ItemFailsClosed(env, route, data);
  }

  /** An image that cannot be decoded here is blocked on a masking route. */
  lemma UndecodableIsBlocked(env: Env, route: Route, data: Bytes)
    requires env.Sound() && route.action.Masks() && !route.failOpen
    requires IsImage(data) && Decode.DetectFormat(data).None?
    ensures Sanitized(env, route, data, true) == Blocked(Metrics.UnsupportedFormat)
  {
  }

  /** d opens with the magic bytes of GIF, WebP, BMP or TIFF. */
  predicate OpensAsForeign(d: Bytes) {
    || [0x47, 0x49, 0x46, 0x38, 0x37, 0x61] <= d || [0x47, 0x49, 0x46, 0x38, 0x39, 0x61] <= d
    || (|d| >= 12 && [0x52, 0x49, 0x46, 0x46] <= d && d[8..12] == [0x57, 0x45, 0x42, 0x50])
    || [0x42, 0x4D] <= d
    || [0x49, 0x49, 0x2A, 0x00] <= d || [0x4D, 0x4D, 0x00, 0x2A] <= d
  }

  predicate OpensAsJPEG(d: Bytes) {
    [0xFF, 0xD8, 0xFF] <= d
  }

  predicate OpensAsPNG(d: Bytes) {
    [0x89, 0x50, 0x4E, 0x47, 0x0D, 0x0A, 0x1A, 0x0A] <= d
  }

  /** What counts as an image is told by the leading bytes alone. */
  lemma ImageExactly(d: Bytes)
    ensures IsImage(d) <==> OpensAsJPEG(d) || OpensAsPNG(d) || OpensAsForeign(d)
    ensures OpensAsForeign(d) ==> !OpensAsJPEG(d) && !OpensAsPNG(d)
  {
    Decode.SniffSeesWhatDecodeAccepts(d);
    Decode.SniffNames(d);
    if OpensAsForeign(d) {
      ForeignIsOther(d);
    }
  }

  lemma ForeignIsOther(d: Bytes)
    requires OpensAsForeign(d)
    ensures !OpensAsJPEG(d) && !OpensAsPNG(d)
  {
    assert d[0] == 0x47 || d[0] == 0x52 || d[0] == 0x42 || d[0] == 0x49 || d[0] == 0x4D;
  }

  /** A foreign image, which cannot be decoded here, is blocked on a masking route, unless the
      route fails open. */
  lemma ForeignIsBlocked(env: Env, route: Route, data: Bytes)
    requires env.Sound() && route.action.Masks() && OpensAsForeign(data)
    ensures IsImage(data)
    ensures Sanitized(env, route, data, IsImage(data))
            == if route.failOpen then Item(data, false, 0, []) else Blocked(Metrics.UnsupportedFormat)
  {
    ImageExactly(data);
    Decode.DetectNames(data);
  }

  /** On a masking route only bytes that open as no image go on without being decoded. */
  lemma NonImageGoesOn(env: Env, route: Route, data: Bytes)
    requires env.Sound() && route.action.Masks()
    requires !OpensAsJPEG(data) && !OpensAsPNG(data) && !OpensAsForeign(data)
    ensures Sanitized(env, route, data, IsImage(data)) == Item(data, false, 0, [])
  {
    ImageExactly(data);
  }

  /** A drop route drops everything, and an unknown action is a policy failure. */
  lemma DropAndUnknown(env: Env, route: Route, data: Bytes)
    requires env.Sound()
    ensures route.action.Drop? ==> Sanitized(env, route, data, IsImage(data)) == Dropped
    ensures route.action.Unknown? ==>
              Sanitized(env, route, data, IsImage(data))
              == if route.failOpen then Item(data, false, 0, []) else Blocked(Metrics.Policy)
  {
  }

  // ---------- the pass route ----------

  /** What a pass route makes of an image before it is logged. */
  ghost predicate StripsTo(route: Route, data: Bytes, out: Bytes) {
    if !route.stripMetadata then out == data
    else
      || (OpensAsJPEG(data) && Jpeg.Stripped(data) == Jpeg.Ok(out))
      || (OpensAsPNG(data) && Png.Stripped(data) == Png.Ok(out))
  }

  ghost predicate Strippable(route: Route, data: Bytes) {
    exists out :: StripsTo(route, data, out)
  }

  lemma StripsToOne(route: Route, data: Bytes, a: Bytes, b: Bytes)
    requires StripsTo(route, data, a) && StripsTo(route, data, b)
    ensures a == b
  {
    Decode.DetectNames(data);
  }

  lemma PassSteps(env: Env, route: Route, data: Bytes)
    requires env.Sound() && route.action.Pass? && IsImage(data)
    ensures var v := Sanitized(env, route, data, true);
            && (forall out | StripsTo(route, data, out) ::
                  v == if env.audit(Entry(route.prefix, Policy.Pass, [], [], out)) then Item(out, true, 0, [])
                       else if route.failOpen then Item(data, false, 0, []) else Blocked(Metrics.Audit))
            && (!Strippable(route, data) ==>
                  v == if route.failOpen then Item(data, false, 0, []) else Blocked(Metrics.Strip))
  {
    Decode.DetectNames(data);
    assert Decode.IsJPEG(data) <==> OpensAsJPEG(data);
    assert Decode.IsPNG(data) <==> OpensAsPNG(data);
    forall out ensures EntryFor(route, [], out) == Entry(route.prefix, Policy.Pass, [], [], out) {
    }
    if !Strippable(route, data) {
      assert route.stripMetadata by {
        assert !StripsTo(route, data, data);
      }
      var j, p := Jpeg.Stripped(data), Png.Stripped(data);
      assert j.Ok? ==> !StripsTo(route, data, j.out);
      assert p.Ok? ==> !StripsTo(route, data, p.out);
    }
  }

  /** When a pass route lets an image on, and as what: exactly when it needs no stripping or
      the stripper of its format succeeds, and the entry for these bytes was written. */
  lemma PassExactly(env: Env, route: Route, data: Bytes, out: Bytes)
    requires env.Sound() && route.action.Pass? && IsImage(data)
    ensures Sanitized(env, route, data, true) == Item(out, true, 0, []) <==>
            StripsTo(route, data, out) && env.audit(Entry(route.prefix, Policy.Pass, [], [], out))
  {
    PassSteps(env, route, data);
    if Strippable(route, data) {
      var o :| StripsTo(route, data, o);
      if StripsTo(route, data, out) {
        StripsToOne(route, data, o, out);
      }
    }
  }

  /** Everything else is blocked for the step that failed, or goes on untouched on a route
      that fails open. */
  lemma PassRefusals(env: Env, route: Route, data: Bytes)
    requires env.Sound() && route.action.Pass? && IsImage(data)
    requires forall out :: !(StripsTo(route, data, out) && env.audit(Entry(route.prefix, Policy.Pass, [], [], out)))
    ensures Sanitized(env, route, data, true)
            == if route.failOpen then Item(data, false, 0, [])
               else Blocked(if Strippable(route, data) then Metrics.Audit else Metrics.Strip)
  {
    PassSteps(env, route, data);
  }

  /** What is no image always goes on verbatim and unlogged. */
  lemma PassNonImage(env: Env, route: Route, data: Bytes)
    requires env.Sound() && route.action.Pass?
    requires !OpensAsJPEG(data) && !OpensAsPNG(data) && !OpensAsForeign(data)
    ensures Sanitized(env, route, data, IsImage(data)) == Item(data, false, 0, [])
  {
    ImageExactly(data);
  }

  // ---------- cancellation ----------

  /** This detector is configured and reports regions. */
  ghost predicate Answers(env: Env, name: string, img: Image) {
    name in env.registry && env.registry[name](img).Regions?
  }

  /** Detector k is the first that does not report, and what it reports is cancellation. */
  ghost predicate CanceledAt(env: Env, names: seq<string>, img: Image, k: int) {
    && 0 <= k < |names|
    && names[k] in env.registry && env.registry[names[k]](img).Canceled?
    && forall j | 0 <= j < k :: Answers(env, names[j], img)
  }

  /** Detection yields regions exactly when every detector does, and is stopped exactly when
      the first that does not was canceled; everything else is a detector error. */
  lemma {:induction false} DetectionExactly(env: Env, names: seq<string>, img: Image)
    ensures Detected(env, names, img).Union? <==> forall k | 0 <= k < |names| :: Answers(env, names[k], img)
    ensures Detected(env, names, img).Stopped? <==> exists k :: CanceledAt(env, names, img, k)
  {
    if names != [] {
      var n := |names| - 1;
      DetectionExactly(env, names[..n], img);
      if exists k :: CanceledAt(env, names[..n], img, k) {
        var k :| CanceledAt(env, names[..n], img, k);
        assert CanceledAt(env, names, img, k);
      }
      if exists k :: CanceledAt(env, names, img, k) {
        var k :| CanceledAt(env, names, img, k);
        assert k < n ==> CanceledAt(env, names[..n], img, k);
        assert k == n ==> forall j | 0 <= j < n :: Answers(env, names[..n][j], img);
      }
      if Detected(env, names[..n], img).Union? && Detected(env, names, img).Stopped? {
        assert forall j | 0 <= j < n :: Answers(env, names[..n][j], img) && names[..n][j] == names[j];
        assert CanceledAt(env, names, img, n);
      }
    }
  }

  /** The item is an image that can be decoded, and the first of the route's detectors that
      does not report regions was canceled. */
  ghost predicate CanceledDuring(env: Env, route: Route, data: Bytes) {
    var dec := Decode.Decode(env.codec, data, env.maxPixels);
    IsImage(data) && dec.Ok? && exists k :: CanceledAt(env, route.detectors, dec.image, k)
  }

  /** On a masking route, failing open or not, an item is blocked as canceled exactly when
      its detection was canceled. */
  lemma CancellationBlocks(env: Env, route: Route, data: Bytes)
    requires env.Sound() && route.action.Masks()
    ensures Sanitized(env, route, data, IsImage(data)) == Blocked(Metrics.Canceled)
            <==> CanceledDuring(env, route, data)
  {
    var dec := Decode.Decode(env.codec, data, env.maxPixels);
    if dec.Ok? {
      DetectionExactly(env, route.detectors, dec.image);
    }
  }

  /** A masking route that fails open blocks an item exactly when its detection was
      canceled: nothing else keeps the item back. */
  lemma FailOpenBlocksExactly(env: Env, route: Route, data: Bytes)
    requires env.Sound() && route.action.Masks() && route.failOpen
    ensures !Sanitized(env, route, data, IsImage(data)).Item? <==> CanceledDuring(env, route, data)
  {
    CancellationBlocks(env, route, data);
  }

  /** Every block of the sanitizer names a real cause, and a fail-open route blocks only on
      cancellation. */
  lemma BlocksAreAttributed(env: Env, route: Route, data: Bytes, isImage: bool)
    requires env.Sound()
    ensures var v := Sanitized(env, route, data, isImage);
            v.Blocked? ==> v.reason.Valid() && (route.failOpen ==> v.reason.Canceled?)
  {
  }

  /** A JPEG stream whose segments before the scan hold no metadata. */
  ghost predicate FreeJpeg(out: Bytes) {
    && |out| >= 2 && out[0] == 0xFF && out[1] == Jpeg.SOI && Jpeg.Parse(out, 2).Stream?
    && forall s | s in Jpeg.Parse(out, 2).segments :: !Jpeg.IsStripped(s.Marker())
  }

  /** A PNG stream of allowlisted chunks only. */
  ghost predicate FreePng(out: Bytes) {
    && Png.Signed(out) && Png.Parse(out, 8).Stream?
    && forall c | c in Png.Parse(out, 8).chunks :: Png.IsKept(c.tag)
  }

  /** An image forwarded by a stripping pass route that does not fail open carries no
      metadata: no APP1, APP13 or COM before the scan of a JPEG, none but allowlisted
      chunks in a PNG. */
  lemma PassedImageIsStripped(env: Env, route: Route, data: Bytes)
    requires env.Sound() && route.action.Pass? && route.stripMetadata && !route.failOpen && IsImage(data)
    ensures var v := Sanitized(env, route, data, true);
            v.Item? ==>
              || (Decode.IsJPEG(data) && FreeJpeg(v.out))
              || (Decode.IsPNG(data) && FreePng(v.out))
  {
    if Decode.IsJPEG(data) {
      if Jpeg.Stripped(data).Ok? {
        Jpeg.StrippedReadsBack(data);
      }
    } else if Decode.IsPNG(data) && Png.Stripped(data).Ok? {
      Png.StrippedReadsBack(data);
    }
  }

  // ---------- what a masking route reports ----------

  /** An image that goes on redacted is reported with one box for every detected region and,
      sorted and once each, exactly the nonempty labels of these regions. */
  lemma MaskedReports(env: Env, route: Route, data: Bytes) returns (rs: seq<Region>)
    requires env.Sound() && route.action.Masks() && IsImage(data)
    requires Sanitized(env, route, data, true).Item? && Sanitized(env, route, data, true).audited
    ensures var v := Sanitized(env, route, data, true);
            && LoggedWith(env, route, data, v.out, rs) && v.boxes == |rs| && Summary.Tidy(v.categories)
            && forall c :: c in v.categories <==> c != "" && IsLabel(rs, c)
  {
    var dec := Decode.Decode(env.codec, data, env.maxPixels);
    DecodedIsUsable(env, data);
    rs := Detected(env, route.detectors, dec.image).regions;
    CategoriesExactly(rs);
    assert LoggedWith(env, route, data, Sanitized(env, route, data, true).out, rs);
  }

  /** The regions detected in the picture, when every detector reports. */
  ghost predicate DetectedAs(env: Env, route: Route, data: Bytes, img: Image, f: Decode.Format, rs: seq<Region>)
    requires env.Sound()
  {
    && Decode.Decode(env.codec, data, env.maxPixels) == Decode.Ok(img, f)
    && Plausible(img) && !img.bounds.Empty()
    && (forall k | 0 <= k < |route.detectors| :: Answers(env, route.detectors[k], img))
    && Detected(env, route.detectors, img) == Union(rs)
  }

  /** The blame for an image blocked on a masking route that does not fail open: decoding
      comes first, then detection, encoding and the audit log. */
  lemma BlameExactly(env: Env, route: Route, data: Bytes)
    requires env.Sound() && route.action.Masks() && !route.failOpen && IsImage(data)
    ensures var v, d := Sanitized(env, route, data, true), Decode.Decode(env.codec, data, env.maxPixels);
            && (v == Blocked(Metrics.UnsupportedFormat) <==> !OpensAsJPEG(data) && !OpensAsPNG(data))
            && (v == Blocked(Metrics.TooLarge) <==> d == Decode.Err(Decode.TooManyPixels))
            && (v == Blocked(Metrics.Decode) <==>
                d == Decode.Err(Decode.Undecodable) || d == Decode.Err(Decode.InvalidBounds))
            && (v == Blocked(Metrics.Canceled) <==> CanceledDuring(env, route, data))
            && (v == Blocked(Metrics.DetectorError) <==>
                && d.Ok? && !CanceledDuring(env, route, data)
                && exists k :: 0 <= k < |route.detectors| && !Answers(env, route.detectors[k], d.image))
  {
    Decode.DetectNames(data);
    var d := Decode.Decode(env.codec, data, env.maxPixels);
    assert d == Decode.Err(Decode.UnsupportedFormat) <==> !OpensAsJPEG(data) && !OpensAsPNG(data);
    if d.Ok? {
      DecodedIsUsable(env, data);
      DetectionExactly(env, route.detectors, d.image);
    }
  }

  /** The last two steps: after a detection the picture is encoded and then logged. */
  lemma LateBlameExactly(env: Env, route: Route, data: Bytes, img: Image, f: Decode.Format, rs: seq<Region>)
    requires env.Sound() && route.action.Masks() && !route.failOpen && IsImage(data)
    requires DetectedAs(env, route, data, img, f, rs)
    ensures var v, out := Sanitized(env, route, data, true), env.encode(Obscured(env, route, img, rs), f);
            && (v == Blocked(Metrics.Encode) <==> out.None?)
            && (v == Blocked(Metrics.Audit) <==> out.Some? && !env.audit(EntryFor(route, rs, out.value)))
            && (v.Item? <==> out.Some? && env.audit(EntryFor(route, rs, out.value)))
            && (v.Item? ==> v.out == out.value)
  {
  }

  /** A blur route blurs each region in turn, with the configured radius, where it is visible
      in the picture. */
  lemma BlurRouteBlurs(env: Env, route: Route, img: Image, rs: seq<Region>, r: Region)
    requires img.Valid() && !img.bounds.Empty() && route.action.Blur?
    ensures Obscured(env, route, img, []).rows == img.rows
    ensures var b, before := img.bounds, Obscured(env, route, img, rs).rows;
            var clip := r.rect.Intersect(b);
            Obscured(env, route, img, rs + [r]).rows
            == if clip.Empty() then before
               else Blur.BlurredRows(before, b.Dx(), b.Dy(), clip.Moved(-b.minX, -b.minY), env.blurRadius)
  {
    RectsLast(rs, r);
    Mask.BlurLast(img.bounds, img.rows, Rects(rs), r.rect, env.blurRadius);
  }

  lemma RectsLast(rs: seq<Region>, r: Region)
    ensures Rects([]) == [] && Rects(rs + [r]) == Rects(rs) + [r.rect]
  {
  }

  // ---------- from detection to ink ----------

  /** This registry entry answers as the region-marker detector does. */
  ghost predicate IsMarker(f: Image -> Answer, d: MarkerDetector.Marker) {
    forall img: Image {:trigger f(img)} | img.Valid() && f(img).Regions? ::
      MarkerDetector.Answers(d, img, f(img).regions)
  }

  ghost predicate Hit(rs: seq<Region>, x: int, y: int) {
    exists k :: 0 <= k < |rs| && rs[k].rect.Has(x, y)
  }

  lemma HitAppend(a: seq<Region>, b: seq<Region>, x: int, y: int)
    ensures Hit(a + b, x, y) <==> Hit(a, x, y) || Hit(b, x, y)
  {
    var s := a + b;
    if Hit(a, x, y) {
      var k :| 0 <= k < |a| && a[k].rect.Has(x, y);
      assert s[k].rect.Has(x, y);
    }
    if Hit(b, x, y) {
      var k :| 0 <= k < |b| && b[k].rect.Has(x, y);
      assert s[|a| + k].rect.Has(x, y);
    }
    if Hit(s, x, y) {
      var k :| 0 <= k < |s| && s[k].rect.Has(x, y);
      assert if k < |a| then a[k].rect.Has(x, y) else b[k - |a|].rect.Has(x, y);
    }
  }

  lemma HitOne(r: Region, x: int, y: int)
    ensures Hit([r], x, y) <==> r.rect.Has(x, y)
  {
    assert [r][0] == r;
  }

  /** Clipping keeps exactly the visible points. */
  lemma {:induction false} ClippingKeepsHits(b: Rect, rs: seq<Region>, x: int, y: int)
    ensures Hit(Clipped(b, rs), x, y) <==> b.Has(x, y) && Hit(rs, x, y)
  {
    if rs != [] {
      var n := |rs| - 1;
      ClippingKeepsHits(b, rs[..n], x, y);
      assert rs == rs[..n] + [rs[n]];
      HitAppend(rs[..n], [rs[n]], x, y);
      HitOne(rs[n], x, y);
      var clip := rs[n].rect.Intersect(b);
      if !clip.Empty() {
        HitAppend(Clipped(b, rs[..n]), [rs[n].(rect := clip)], x, y);
        HitOne(rs[n].(rect := clip), x, y);
      } else {
        assert Clipped(b, rs) == Clipped(b, rs[..n]);
        assert !clip.Has(x, y);
      }
    }
  }

  ghost predicate Reports(env: Env, names: seq<string>, img: Image, x: int, y: int) {
    exists k :: 0 <= k < |names| && ReportsAt(env, names[k], img, x, y)
  }

  ghost predicate ReportsAt(env: Env, name: string, img: Image, x: int, y: int) {
    name in env.registry && env.registry[name](img).Regions? && Hit(env.registry[name](img).regions, x, y)
  }

  /** The union of detections covers a pixel exactly when some detector reports it. */
  lemma {:induction false} DetectedCovers(env: Env, names: seq<string>, img: Image, x: int, y: int)
    requires Detected(env, names, img).Union? && img.bounds.Has(x, y)
    ensures Hit(Detected(env, names, img).regions, x, y) <==> Reports(env, names, img, x, y)
  {
    if names != [] {
      var n := |names| - 1;
      var rs := env.registry[names[n]](img).regions;
      DetectedCovers(env, names[..n], img, x, y);
      HitAppend(Detected(env, names[..n], img).regions, Clipped(img.bounds, rs), x, y);
      ClippingKeepsHits(img.bounds, rs, x, y);
      if Reports(env, names[..n], img, x, y) {
        var k :| 0 <= k < n && ReportsAt(env, names[..n][k], img, x, y);
        assert ReportsAt(env, names[k], img, x, y);
      }
      if Reports(env, names, img, x, y) {
        var k :| 0 <= k < |names| && ReportsAt(env, names[k], img, x, y);
        assert k < n ==> ReportsAt(env, names[..n][k], img, x, y);
      }
    }
  }

  lemma SolidAt(img: Image, q: seq<Rect>, x: int, y: int)
    requires img.Valid() && img.bounds.Has(x, y)
    ensures var out := Image(img.bounds, Mask.MaskAll(img.bounds, img.rows, q, Mask.Solid(Mask.NoFill)));
            out.Valid() && out.At(x, y) == if Mask.Covered(q, x, y) then RGBA(0, 0, 0, 255) else img.At(x, y)
  {
    Mask.SolidPixel(img.bounds, img.rows, q, Mask.NoFill, x, y);
  }

  lemma OutsideAt(img: Image, q: seq<Rect>, opts: Mask.Options, x: int, y: int)
    requires img.Valid() && img.bounds.Has(x, y) && !Mask.Covered(q, x, y)
    ensures var out := Image(img.bounds, Mask.MaskAll(img.bounds, img.rows, q, opts));
            out.Valid() && out.At(x, y) == img.At(x, y)
  {
    Mask.OutsideUntouched(img.bounds, img.rows, q, opts, x, y);
  }

  /** On a redact route, each pixel of the picture that is encoded is opaque black where
      some configured detector reports it and the source pixel everywhere else. */
  lemma RedactedPixel(env: Env, route: Route, img: Image, rs: seq<Region>, x: int, y: int)
    requires img.Valid() && img.bounds.Has(x, y) && route.action.Redact?
    requires Detected(env, route.detectors, img) == Union(rs)
    ensures Obscured(env, route, img, rs).At(x, y)
            == if Reports(env, route.detectors, img, x, y) then RGBA(0, 0, 0, 255) else img.At(x, y)
  {
    DetectedCovers(env, route.detectors, img, x, y);
    SolidAt(img, Rects(rs), x, y);
  }

  /** On a blur route, pixels no detector reports are left as they are. */
  lemma BlurredOutside(env: Env, route: Route, img: Image, rs: seq<Region>, x: int, y: int)
    requires img.Valid() && img.bounds.Has(x, y) && route.action.Blur?
    requires Detected(env, route.detectors, img) == Union(rs) && !Reports(env, route.detectors, img, x, y)
    ensures Obscured(env, route, img, rs).At(x, y) == img.At(x, y)
  {
    DetectedCovers(env, route.detectors, img, x, y);
    OutsideAt(img, Rects(rs), Mask.Blurred(env.blurRadius), x, y);
  }

  lemma MarkerReports(env: Env, names: seq<string>, img: Image, j: nat, d: MarkerDetector.Marker, x: int, y: int)
    requires Detected(env, names, img).Union? && j < |names|
    requires names[j] in env.registry && IsMarker(env.registry[names[j]], d) && d.minArea <= 0
    requires img.Valid() && img.bounds.Has(x, y) && d.Matches(img.At(x, y))
    ensures Reports(env, names, img, x, y)
  {
    AllAnswer(env, names, img, j);
    var k := MarkerDetector.MarkersAreCovered(d, img, env.registry[names[j]](img).regions, x, y);
    assert ReportsAt(env, names[j], img, x, y);
  }

  lemma {:induction false} AllAnswer(env: Env, names: seq<string>, img: Image, j: nat)
    requires Detected(env, names, img).Union? && j < |names|
    ensures names[j] in env.registry && env.registry[names[j]](img).Regions?
  {
    var n := |names| - 1;
    if j < n {
      AllAnswer(env, names[..n], img, j);
    }
  }

  /** End to end: what a redact route with the region-marker detector (no area threshold)
      makes of an upload is the encoding of a picture in which every marker-coloured pixel
      of the upload is opaque black, and in which nothing outside the detected regions
      changed. */
  lemma MarkersAreInked(env: Env, route: Route, data: Bytes, out: Bytes, j: nat, d: MarkerDetector.Marker)
    returns (img: Image, format: Decode.Format, sent: Image)
    requires env.Sound() && route.action.Redact? && Redaction(env, route, data, out)
    requires j < |route.detectors| && route.detectors[j] in env.registry
    requires IsMarker(env.registry[route.detectors[j]], d) && d.minArea <= 0
    ensures Decode.Decode(env.codec, data, env.maxPixels) == Decode.Ok(img, format)
    ensures env.encode(sent, format) == Some(out)
    ensures img.Valid() && sent.Valid() && sent.bounds == img.bounds
    ensures forall x, y {:trigger sent.At(x, y)} | img.bounds.Has(x, y) ::
              && (d.Matches(img.At(x, y)) ==> sent.At(x, y) == RGBA(0, 0, 0, 255))
              && (!Reports(env, route.detectors, img, x, y) ==> sent.At(x, y) == img.At(x, y))
  {
    var rs :| RedactedWith(env, route, data, out, rs);
    var dec := Decode.Decode(env.codec, data, env.maxPixels);
    img, format := dec.image, dec.format;
    sent := Obscured(env, route, img, rs);
    forall x, y {:trigger sent.At(x, y)} | img.bounds.Has(x, y)
      ensures d.Matches(img.At(x, y)) ==> sent.At(x, y) == RGBA(0, 0, 0, 255)
      ensures !Reports(env, route.detectors, img, x, y) ==> sent.At(x, y) == img.At(x, y)
    {
      RedactedPixel(env, route, img, rs, x, y);
      if d.Matches(img.At(x, y)) {
        MarkerReports(env, route.detectors, img, j, d, x, y);
      }
    }
  }

  /** The region-marker detector, asked about any picture, answers as IsMarker demands of
      its registry entry. */
  method AskMarker(d: MarkerDetector.Marker, img: Image, polls: int -> bool) returns (a: Answer)
    requires img.Valid()
    ensures a.Regions? ==> MarkerDetector.Answers(d, img, a.regions)
    ensures a.Canceled? <==> !a.Regions?
  {
    var found := MarkerDetector.Detect(d, img, polls);
    match found {
      case Found(rs) => a := Regions(rs);
      case Canceled => a := Answer.Canceled;
    }
  }
}
