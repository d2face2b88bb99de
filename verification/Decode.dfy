// Sniffing an image format and decoding under a pixel cap.
module Decode {
  import opened ByteStrings
  import opened Geometry
  import opened Machine
  import opened Wrappers

  datatype Format = JPEG | PNG | GIF | WebP | BMP | TIFF

  predicate IsJPEG(d: Bytes) {
    |d| >= 3 && d[0] == 0xFF && d[1] == 0xD8 && d[2] == 0xFF
  }

  predicate IsPNG(d: Bytes) {
    |d| >= 8 && d[..8] == [0x89, 0x50, 0x4E, 0x47, 0x0D, 0x0A, 0x1A, 0x0A]
  }

  predicate IsGIF(d: Bytes) {
    |d| >= 6 && (d[..6] == [0x47, 0x49, 0x46, 0x38, 0x37, 0x61] || d[..6] == [0x47, 0x49, 0x46, 0x38, 0x39, 0x61])
  }

  predicate IsWebP(d: Bytes) {
    |d| >= 12 && d[..4] == [0x52, 0x49, 0x46, 0x46] && d[8..12] == [0x57, 0x45, 0x42, 0x50]
  }

  predicate IsBMP(d: Bytes) {
    |d| >= 2 && d[0] == 0x42 && d[1] == 0x4D
  }

  predicate IsTIFF(d: Bytes) {
    |d| >= 4 && (d[..4] == [0x49, 0x49, 0x2A, 0x00] || d[..4] == [0x4D, 0x4D, 0x00, 0x2A])
  }

  /** A format this build can decode and mask. */
  function DetectFormat(d: Bytes): Option<Format> {
    if IsJPEG(d) then Some(JPEG) else if IsPNG(d) then Some(PNG) else None
  }

  /** Any image format named by the leading bytes. */
  function SniffFormat(d: Bytes): Option<Format> {
    if IsJPEG(d) then Some(JPEG)
    else if IsPNG(d) then Some(PNG)
    else if IsGIF(d) then Some(GIF)
    else if IsWebP(d) then Some(WebP)
    else if IsBMP(d) then Some(BMP)
    else if IsTIFF(d) then Some(TIFF)
    else None
  }

  const SNIFF_LEN := 512

  function Prefix(d: Bytes): (p: Bytes)
    ensures p <= d
  {
    if |d| > SNIFF_LEN then d[..SNIFF_LEN] else d
  }

  /** The first 512 bytes classify an item exactly as all of it would, so bytes that can
      be decoded are never taken for a non-image. */
  lemma SniffSeesWhatDecodeAccepts(d: Bytes)
    ensures SniffFormat(Prefix(d)) == SniffFormat(d)
    ensures DetectFormat(d).Some? ==> SniffFormat(Prefix(d)) == DetectFormat(d)
  {
  }

  /** What the leading bytes name, written out. */
  lemma SniffNames(d: Bytes)
    ensures SniffFormat(d) == Some(JPEG) <==> [0xFF, 0xD8, 0xFF] <= d
    ensures SniffFormat(d) == Some(PNG) <==> [0x89, 0x50, 0x4E, 0x47, 0x0D, 0x0A, 0x1A, 0x0A] <= d
    ensures SniffFormat(d) == Some(GIF) <==>
            [0x47, 0x49, 0x46, 0x38, 0x37, 0x61] <= d || [0x47, 0x49, 0x46, 0x38, 0x39, 0x61] <= d
    ensures SniffFormat(d) == Some(WebP) <==>
            [0x52, 0x49, 0x46, 0x46] <= d && |d| >= 12 && d[8..12] == [0x57, 0x45, 0x42, 0x50]
    ensures SniffFormat(d) == Some(BMP) <==> [0x42, 0x4D] <= d
    ensures SniffFormat(d) == Some(TIFF) <==> [0x49, 0x49, 0x2A, 0x00] <= d || [0x4D, 0x4D, 0x00, 0x2A] <= d
  {
  }

  /** Only JPEG and PNG can be decoded here. */
  lemma DetectNames(d: Bytes)
    ensures DetectFormat(d) == Some(JPEG) <==> [0xFF, 0xD8, 0xFF] <= d
    ensures DetectFormat(d) == Some(PNG) <==> [0x89, 0x50, 0x4E, 0x47, 0x0D, 0x0A, 0x1A, 0x0A] <= d
    ensures DetectFormat(d).Some? ==> DetectFormat(d) == Some(JPEG) || DetectFormat(d) == Some(PNG)
  {
  }

  // ---------- the pixel cap ----------

  /** Division rounding towards zero. */
  function Quotient(a: int, b: int): int
    requires b > 0
  {
    if a >= 0 then a / b else -(-a / b)
  }

  lemma QuotientTruncates(a: int, b: int)
    requires b > 0
    ensures 0 <= a ==> 0 <= a - Quotient(a, b) * b < b
    ensures a <= 0 ==> -b < a - Quotient(a, b) * b <= 0
  {
  }

  /** The guard of Decode, on wrapped products. */
  predicate OverCap(width: int, height: int, maxPixels: int)
    requires width > 0
  {
    var px := Wrap64(width * height);
    Quotient(px, width) != height || px > maxPixels
  }

  lemma QuotientOfProduct(w: int, h: int)
    requires w > 0
    ensures (w * h) / w == h
  {
    DivisionIs(w * h, w, h, w * h / w);
  }

  lemma DivisionIs(p: int, w: int, h: int, q: int)
    requires w > 0 && p == w * h && q == p / w
    ensures q == h
  {
    assert q * w <= p < (q + 1) * w;
    Monotone(q + 1, h, w);
    Monotone(h + 1, q, w);
  }

  lemma Monotone(a: int, b: int, w: int)
    requires w > 0
    ensures a <= b ==> a * w <= b * w
  {
  }

  /** For every width, height and cap of the machine, the guard refuses exactly the images
      whose true number of pixels exceeds the cap. */
  lemma CapIsExact(width: int, height: int, maxPixels: int)
    requires 0 < width < TWO63 && 0 < height < TWO63 && 0 < maxPixels < TWO63
    ensures OverCap(width, height, maxPixels) <==> width * height > maxPixels
  {
    var px := Wrap64(width * height);
    if width * height < TWO63 {
      QuotientOfProduct(width, height);
    }
  }

  // ---------- decoding ----------

  /** What the codec reads from a header. */
  datatype Header = Header(width: int, height: int, format: Option<Format>)

  datatype Pixels = Failed | Nothing | Got(image: Image)

  /** The image codecs: any functions at all. */
  datatype Codec = Codec(config: Bytes -> Option<Header>, pixels: (Format, Bytes) -> Pixels)

  datatype Error = Undecodable | UnsupportedFormat | TooManyPixels | InvalidBounds

  datatype Result = Ok(image: Image, format: Format) | Err(error: Error)

  /** The header names a format whose decoded bounds are compared with the header. */
  predicate Compared(h: Header) {
    h.format == Some(JPEG) || h.format == Some(PNG)
  }

  function Decode(c: Codec, d: Bytes, maxPixels: int): Result {
    var format := DetectFormat(d);
    if format.None? then Err(UnsupportedFormat)
    else
      var header := c.config(d);
      if header.None? then Err(Undecodable)
      else
        var w, h := header.value.width, header.value.height;
        if w <= 0 || h <= 0 then Err(InvalidBounds)
        else if maxPixels > 0 && OverCap(w, h, maxPixels) then Err(TooManyPixels)
        else
          match c.pixels(format.value, d)
          case Failed => Err(Undecodable)
          case Nothing => Err(InvalidBounds)
          case Got(img) =>
            var b := img.bounds;
            if b.Dx() <= 0 || b.Dy() <= 0 then Err(InvalidBounds)
            else if Compared(header.value) && (b.Dx() != w || b.Dy() != h)
            then Err(InvalidBounds)
            else Ok(img, format.value)
  }

  /** The header, when there is one, has machine-sized fields. */
  ghost predicate MachineSized(c: Codec, d: Bytes) {
    var h := c.config(d);
    h.Some? ==> h.value.width < TWO63 && h.value.height < TWO63
  }

  /** An image that is decoded has at least one pixel and, when its header names JPEG or PNG,
      no more than the cap, counted exactly, whatever the codecs put into their buffers. */
  lemma DecodedWithinCap(c: Codec, d: Bytes, maxPixels: int)
    requires MachineSized(c, d) && Decode(c, d, maxPixels).Ok?
    ensures Some(Decode(c, d, maxPixels).format) == DetectFormat(d)
    ensures var b := Decode(c, d, maxPixels).image.bounds;
            && 0 < b.Dx() && 0 < b.Dy()
            && (Compared(c.config(d).value) && 0 < maxPixels < TWO63 ==> b.Dx() * b.Dy() <= maxPixels)
  {
    var h := c.config(d).value;
    if 0 < maxPixels < TWO63 {
      CapIsExact(h.width, h.height, maxPixels);
    }
  }

  /** When decoding yields this picture in this format: the magic bytes name the format, the
      header is read and positive, its true number of pixels is within the cap if there is
      one, the codec yields the picture, and the picture is as large as a header says that
      names JPEG or PNG. */
  lemma DecodesExactly(c: Codec, d: Bytes, maxPixels: int, img: Image, f: Format)
    requires MachineSized(c, d) && maxPixels < TWO63
    ensures Decode(c, d, maxPixels) == Ok(img, f) <==>
            && ((f == JPEG && [0xFF, 0xD8, 0xFF] <= d)
                || (f == PNG && [0x89, 0x50, 0x4E, 0x47, 0x0D, 0x0A, 0x1A, 0x0A] <= d))
            && c.config(d).Some?
            && var h := c.config(d).value;
            && 0 < h.width && 0 < h.height && (0 < maxPixels ==> h.width * h.height <= maxPixels)
            && c.pixels(f, d) == Got(img)
            && img.bounds.minX < img.bounds.maxX && img.bounds.minY < img.bounds.maxY
            && (h.format == Some(JPEG) || h.format == Some(PNG) ==>
                  img.bounds.maxX - img.bounds.minX == h.width && img.bounds.maxY - img.bounds.minY == h.height)
  {
    DetectNames(d);
    if c.config(d).Some? {
      var h := c.config(d).value;
      if 0 < h.width && 0 < h.height && 0 < maxPixels {
        CapIsExact(h.width, h.height, maxPixels);
      }
    }
  }

  /** Which error it is otherwise: foreign bytes come first, then a header beyond the cap. */
  lemma ErrorsExactly(c: Codec, d: Bytes, maxPixels: int)
    requires MachineSized(c, d) && maxPixels < TWO63
    ensures var r := Decode(c, d, maxPixels);
            && (r == Err(UnsupportedFormat) <==>
                !([0xFF, 0xD8, 0xFF] <= d) && !([0x89, 0x50, 0x4E, 0x47, 0x0D, 0x0A, 0x1A, 0x0A] <= d))
            && (r == Err(TooManyPixels) <==>
                && ([0xFF, 0xD8, 0xFF] <= d || [0x89, 0x50, 0x4E, 0x47, 0x0D, 0x0A, 0x1A, 0x0A] <= d)
                && c.config(d).Some? && 0 < c.config(d).value.width && 0 < c.config(d).value.height
                && 0 < maxPixels < c.config(d).value.width * c.config(d).value.height)
  {
    DetectNames(d);
    if c.config(d).Some? {
      var h := c.config(d).value;
      if 0 < h.width && 0 < h.height && 0 < maxPixels {
        CapIsExact(h.width, h.height, maxPixels);
      }
    }
  }

  /** The condition on the header cannot be dropped: if the header is within the cap and
      names another format, some decoder's picture beyond the cap is let through. */
  lemma UncomparedOvershoots(c: Codec, d: Bytes, maxPixels: nat) returns (pixels: (Format, Bytes) -> Pixels)
    requires MachineSized(c, d) && DetectFormat(d).Some? && c.config(d).Some?
    requires var h := c.config(d).value;
             !Compared(h) && 0 < h.width && 0 < h.height && !OverCap(h.width, h.height, maxPixels)
    ensures var r := Decode(Codec(c.config, pixels), d, maxPixels);
            r.Ok? && r.image.Valid() && r.image.bounds.Dx() * r.image.bounds.Dy() > maxPixels
  {
    var row := seq(maxPixels + 1, _ => RGBA(0, 0, 0, 0));
    var img := Image(Rect(0, 0, maxPixels + 1, 1), [row]);
    pixels := (f, b) => Got(img);
  }
}
