// Obscuring a list of regions, solid or blurred.
module Mask {
  import opened Geometry
  import opened Blur
  import opened Machine

  datatype Fill = NoFill | Color(c: RGBA)

  datatype Options = Solid(fill: Fill) | Blurred(radius: int)

  /** A missing or transparent fill becomes opaque black. */
  function Ink(f: Fill): (c: RGBA)
    ensures 0 < c.a
  {
    if f.NoFill? || f.c.a == 0 then RGBA(0, 0, 0, 255) else f.c
  }

  // ---------- masking as a function ----------

  ghost function FilledRows(rows: Rows, w: int, h: int, q: Rect, ink: RGBA): (out: Rows)
    requires Shape(rows, w, h)
    ensures Shape(out, w, h)
    ensures forall y, x {:trigger out[y][x]} | 0 <= y < h && 0 <= x < w ::
              out[y][x] == if q.Has(x, y) then ink else rows[y][x]
  {
    seq(h, y requires 0 <= y < h => seq(w, x requires 0 <= x < w => if q.Has(x, y) then ink else rows[y][x]))
  }

  /** The visible part of a region, in buffer coordinates. */
  function Visible(b: Rect, r: Rect): Rect {
    r.Intersect(b).Moved(-b.minX, -b.minY)
  }

  ghost function MaskOne(b: Rect, rows: Rows, r: Rect, opts: Options): (out: Rows)
    requires Shape(rows, b.Dx(), b.Dy())
    ensures Shape(out, b.Dx(), b.Dy())
  {
    var q := Visible(b, r);
    if r.Intersect(b).Empty() then rows
    else match opts
      case Solid(fill) => FilledRows(rows, b.Dx(), b.Dy(), q, Ink(fill))
      case Blurred(radius) => BlurredRows(rows, b.Dx(), b.Dy(), q, radius)
  }

  /** Regions are applied one after the other. */
  ghost function MaskAll(b: Rect, rows: Rows, rs: seq<Rect>, opts: Options): (out: Rows)
    requires Shape(rows, b.Dx(), b.Dy())
    ensures Shape(out, b.Dx(), b.Dy())
  {
    if rs == [] then rows
    else MaskOne(b, MaskAll(b, rows, rs[..|rs| - 1], opts), rs[|rs| - 1], opts)
  }

  /** Blurring one more region: its visible part is blurred over what was there before. */
  lemma BlurLast(b: Rect, rows: Rows, rs: seq<Rect>, r: Rect, radius: int)
    requires Shape(rows, b.Dx(), b.Dy())
    ensures MaskAll(b, rows, [], Blurred(radius)) == rows
    ensures var before, clip := MaskAll(b, rows, rs, Blurred(radius)), r.Intersect(b);
            MaskAll(b, rows, rs + [r], Blurred(radius))
            == if clip.Empty() then before
               else BlurredRows(before, b.Dx(), b.Dy(), clip.Moved(-b.minX, -b.minY), radius)
  {
    assert (rs + [r])[..|rs|] == rs;
  }

  /** An image of up to 70,000,000,000,000 pixels, far beyond the default cap of
      40,000,000, is blurred without wrapping a 32-bit sum, whatever the region. */
  lemma CapIsWrapFree(b: Rect, r: Rect, radius: int)
    requires !r.Intersect(b).Empty() && b.Dx() * b.Dy() <= 70_000_000_000_000
    ensures var q := Visible(b, r); NoWrap(q.Dx(), q.Dy(), Radius(radius, q.Dx(), q.Dy()))
  {
    var q := Visible(b, r);
    AreaShrinks(q.Dx(), q.Dy(), b.Dx(), b.Dy());
    CapPreventsWrap(q.Dx(), q.Dy(), Radius(radius, q.Dx(), q.Dy()));
  }

  lemma AreaShrinks(w: int, h: int, bw: int, bh: int)
    requires 0 < w <= bw && 0 < h <= bh
    ensures w * h <= bw * bh
  {
    Times(w, h, bh);
    Times(bh, w, bw);
  }

  /** Under that cap each blurred region comes out accurate: every band of every pixel in it
      is at most the mean of the pixels around it before the blur, and less than 2 below. */
  lemma CappedBlurIsAccurate(b: Rect, rows: Rows, r: Rect, radius: int, y: int, x: int, c: Band)
    requires Shape(rows, b.Dx(), b.Dy()) && b.Dx() * b.Dy() <= 70_000_000_000_000
    requires !r.Intersect(b).Empty() && Visible(b, r).Has(x, y)
    ensures AccuratePixel(rows, MaskOne(b, rows, r, Blurred(radius)), b.Dx(), b.Dy(), Visible(b, r), radius, y, x, c)
  {
    CapIsWrapFree(b, r, radius);
    BlurredPixel(rows, b.Dx(), b.Dy(), Visible(b, r), radius, y, x, c);
  }

  /** A picture of these bounds can be allocated; only a blur depends on it. */
  predicate Drawable(b: Rect, opts: Options) {
    0 <= b.Dx() && 0 <= b.Dy() && (opts.Blurred? ==> b.Dx() * b.Dy() < TWO63)
  }

  lemma ShortSides(b: Rect)
    requires 0 <= b.Dx() < 0x8000_0000 && 0 <= b.Dy() < 0x8000_0000
    ensures b.Dx() * b.Dy() < TWO63
  {
    if 0 < b.Dx() {
      Times(b.Dx(), b.Dy(), 0x8000_0000);
    }
  }

  /** Mask paints the regions, clipped to the image, over a copy of src. */
  method Apply(src: Image, regions: seq<Rect>, opts: Options) returns (out: Image)
    requires src.Valid() && Drawable(src.bounds, opts)
    ensures out.Valid() && out.bounds == src.bounds
    ensures out.rows == MaskAll(src.bounds, src.rows, regions, opts)
  {
    var b := src.bounds;
    var w, h := b.Dx(), b.Dy();
    var buf := new RGBA[h, w]((y, x) requires 0 <= y < h && 0 <= x < w => src.rows[y][x]);
    SamePicture(Picture(buf), src.rows, w, h);
    for k := 0 to |regions|
      invariant fresh(buf)
      invariant Picture(buf) == MaskAll(b, src.rows, regions[..k], opts)
    {
      assert regions[..k + 1][..k] == regions[..k];
      var clipped := regions[k].Intersect(b);
      if !clipped.Empty() {
        var q := Visible(b, regions[k]);
        match opts {
          case Blurred(radius) =>
            AreaShrinks(q.Dx(), q.Dy(), w, h);
            BlurRegion(buf, q, radius);
          case Solid(fill) =>
            PaintSolid(buf, q, Ink(fill));
        }
      }
    }
    assert regions[..|regions|] == regions;
    out := Image(b, Picture(buf));
  }

  /** draw.Draw of a uniform source. */
  method PaintSolid(img: array2<RGBA>, q: Rect, ink: RGBA)
    requires Fits(q, img.Length1, img.Length0)
    modifies img
    ensures Picture(img) == FilledRows(old(Picture(img)), img.Length1, img.Length0, q, ink)
  {
    ghost var before := Picture(img);
    forall y, x | q.minY <= y < q.maxY && q.minX <= x < q.maxX {
      img[y, x] := ink;
    }
    SamePicture(Picture(img), FilledRows(before, img.Length1, img.Length0, q, ink), img.Length1, img.Length0);
  }

  /** Masking, in either mode and with any list of overlapping regions, keeps a picture
      premultiplied: solid if the ink is, blurred if the picture is within the bound. */
  lemma {:induction false} MaskedIsPremultiplied(b: Rect, rows: Rows, rs: seq<Rect>, opts: Options)
    requires Shape(rows, b.Dx(), b.Dy()) && PremultipliedRows(rows)
    requires opts.Solid? ==> PremultipliedPixel(Ink(opts.fill))
    requires opts.Blurred? ==> b.Dx() * b.Dy() <= 70_000_000_000_000
    ensures PremultipliedRows(MaskAll(b, rows, rs, opts))
  {
    if rs != [] {
      var n := |rs| - 1;
      MaskedIsPremultiplied(b, rows, rs[..n], opts);
      var before, r := MaskAll(b, rows, rs[..n], opts), rs[n];
      if opts.Blurred? && !r.Intersect(b).Empty() {
        CapIsWrapFree(b, r, opts.radius);
        BlurredIsPremultiplied(before, b.Dx(), b.Dy(), Visible(b, r), opts.radius);
      }
    }
  }

  // ---------- what masking means ----------

  ghost predicate Covered(rs: seq<Rect>, x: int, y: int) {
    exists k :: 0 <= k < |rs| && rs[k].Has(x, y)
  }

  /** One region: ink where it reaches. */
  lemma OneCell(b: Rect, rows: Rows, r: Rect, fill: Fill, x: int, y: int)
    requires Shape(rows, b.Dx(), b.Dy()) && 0 <= x < b.Dx() && 0 <= y < b.Dy()
    ensures MaskOne(b, rows, r, Solid(fill))[y][x]
            == if r.Has(x + b.minX, y + b.minY) then Ink(fill) else rows[y][x]
  {
  }

  lemma {:induction false} SolidCell(b: Rect, rows: Rows, rs: seq<Rect>, fill: Fill, x: int, y: int)
    requires Shape(rows, b.Dx(), b.Dy()) && 0 <= x < b.Dx() && 0 <= y < b.Dy()
    ensures MaskAll(b, rows, rs, Solid(fill))[y][x]
            == if Covered(rs, x + b.minX, y + b.minY) then Ink(fill) else rows[y][x]
  {
    if rs != [] {
      var n := |rs| - 1;
      SolidCell(b, rows, rs[..n], fill, x, y);
      OneCell(b, MaskAll(b, rows, rs[..n], Solid(fill)), rs[n], fill, x, y);
      CoveredLast(rs, x + b.minX, y + b.minY);
    }
  }

  lemma CoveredLast(rs: seq<Rect>, x: int, y: int)
    requires rs != []
    ensures Covered(rs, x, y) <==> Covered(rs[..|rs| - 1], x, y) || rs[|rs| - 1].Has(x, y)
  {
    if k :| 0 <= k < |rs| && rs[k].Has(x, y) {
      assert k == |rs| - 1 || rs[..|rs| - 1][k].Has(x, y);
    }
  }

  /** Solid masking pixel by pixel: ink wherever some region reaches, the source
      everywhere else. */
  lemma SolidPixel(b: Rect, rows: Rows, rs: seq<Rect>, fill: Fill, x: int, y: int)
    requires Shape(rows, b.Dx(), b.Dy()) && b.Has(x, y)
    ensures MaskAll(b, rows, rs, Solid(fill))[y - b.minY][x - b.minX]
            == if Covered(rs, x, y) then Ink(fill) else rows[y - b.minY][x - b.minX]
  {
    SolidCell(b, rows, rs, fill, x - b.minX, y - b.minY);
  }

  /** The ink is the fill colour if one is given that can be seen, and opaque black if not. */
  lemma InkExactly(c: RGBA)
    ensures Ink(NoFill) == RGBA(0, 0, 0, 255)
    ensures Ink(Color(c)) == if c.a == 0 then RGBA(0, 0, 0, 255) else c
  {
  }

  /** Neither mode touches a pixel outside every region. */
  lemma {:induction false} OutsideUntouched(b: Rect, rows: Rows, rs: seq<Rect>, opts: Options, x: int, y: int)
    requires Shape(rows, b.Dx(), b.Dy()) && b.Has(x, y) && !Covered(rs, x, y)
    ensures MaskAll(b, rows, rs, opts)[y - b.minY][x - b.minX] == rows[y - b.minY][x - b.minX]
  {
    if rs != [] {
      var n := |rs| - 1;
      OutsideUntouched(b, rows, rs[..n], opts, x, y);
      assert !rs[n].Intersect(b).Has(x, y);
    }
  }

  /** Solid masking depends only on which pixels the regions cover: it is independent of
      their order and repetition. */
  lemma SolidOrderIndependent(b: Rect, rows: Rows, rs: seq<Rect>, qs: seq<Rect>, fill: Fill)
    requires Shape(rows, b.Dx(), b.Dy())
    requires forall x, y {:trigger Covered(rs, x, y)} | b.Has(x, y) :: Covered(rs, x, y) <==> Covered(qs, x, y)
    ensures MaskAll(b, rows, rs, Solid(fill)) == MaskAll(b, rows, qs, Solid(fill))
  {
    var one, two := MaskAll(b, rows, rs, Solid(fill)), MaskAll(b, rows, qs, Solid(fill));
    forall y, x | 0 <= y < b.Dy() && 0 <= x < b.Dx() ensures one[y][x] == two[y][x] {
      assert Covered(rs, x + b.minX, y + b.minY) <==> Covered(qs, x + b.minX, y + b.minY);
      SameCover(b, rows, rs, qs, fill, x, y);
    }
    SamePicture(one, two, b.Dx(), b.Dy());
  }

  lemma SameCover(b: Rect, rows: Rows, rs: seq<Rect>, qs: seq<Rect>, fill: Fill, x: int, y: int)
    requires Shape(rows, b.Dx(), b.Dy()) && 0 <= x < b.Dx() && 0 <= y < b.Dy()
    requires Covered(rs, x + b.minX, y + b.minY) <==> Covered(qs, x + b.minX, y + b.minY)
    ensures MaskAll(b, rows, rs, Solid(fill))[y][x] == MaskAll(b, rows, qs, Solid(fill))[y][x]
  {
    SolidCell(b, rows, rs, fill, x, y);
    SolidCell(b, rows, qs, fill, x, y);
  }

  lemma MaskedTwice(b: Rect, rows: Rows, rs: seq<Rect>, fill: Fill, x: int, y: int)
    requires Shape(rows, b.Dx(), b.Dy()) && 0 <= x < b.Dx() && 0 <= y < b.Dy()
    ensures var one := MaskAll(b, rows, rs, Solid(fill));
            MaskAll(b, one, rs, Solid(fill))[y][x] == one[y][x]
  {
    SolidCell(b, rows, rs, fill, x, y);
    SolidCell(b, MaskAll(b, rows, rs, Solid(fill)), rs, fill, x, y);
  }

  /** Masking a solid-masked picture again changes nothing. */
  lemma SolidIdempotent(b: Rect, rows: Rows, rs: seq<Rect>, fill: Fill)
    requires Shape(rows, b.Dx(), b.Dy())
    ensures MaskAll(b, MaskAll(b, rows, rs, Solid(fill)), rs, Solid(fill)) == MaskAll(b, rows, rs, Solid(fill))
  {
    var one := MaskAll(b, rows, rs, Solid(fill));
    var two := MaskAll(b, one, rs, Solid(fill));
    forall y, x | 0 <= y < b.Dy() && 0 <= x < b.Dx() ensures two[y][x] == one[y][x] {
      MaskedTwice(b, rows, rs, fill, x, y);
    }
    SamePicture(two, one, b.Dx(), b.Dy());
  }
}
