// The separable box blur: two truncating passes over a clipped window, in 32-bit
// unsigned arithmetic.
module Blur {
  import opened Geometry
  import opened Machine

  const U32 := 0x1_0000_0000

  /** Values a uint32 can hold. */
  type u32 = v: int | 0 <= v < U32

  /** What the machine keeps of a number that may not fit. */
  function Wrap(x: int): (v: u32)
    requires 0 <= x
    ensures v <= x && (x < U32 ==> v == x)
  {
    if x < U32 then x else Wrap(x - U32)
  }

  /** Machine addition. */
  function Add(a: u32, b: u32): (v: u32) {
    if a + b < U32 then a + b else a + b - U32
  }

  lemma {:induction false} WrapIsRemainder(x: int)
    requires 0 <= x
    ensures Wrap(x) == x % U32
  {
    if x >= U32 {
      WrapIsRemainder(x - U32);
    }
  }

  /** Wrapping as one goes comes to the same as wrapping the whole sum. */
  lemma {:induction false} WrapAdds(total: int, v: u32)
    requires 0 <= total
    ensures Add(Wrap(total), v) == Wrap(total + v)
  {
    if total >= U32 {
      WrapAdds(total - U32, v);
    }
  }

  datatype Px = Px(r: u32, g: u32, b: u32, a: u32)

  type PxRows = seq<seq<Px>>

  datatype Band = R | G | B | A

  function Value(p: Px, c: Band): u32 {
    match c
    case R => p.r
    case G => p.g
    case B => p.b
    case A => p.a
  }

  function Of(p: RGBA): (q: Px)
    ensures Small(q)
  {
    Px(p.r, p.g, p.b, p.a)
  }

  ghost predicate PxShape(s: PxRows, w: int, h: int) {
    && 0 < w && 0 < h && |s| == h
    && forall y {:trigger s[y]} | 0 <= y < h :: |s[y]| == w
  }

  predicate Small(p: Px) {
    p.r <= 255 && p.g <= 255 && p.b <= 255 && p.a <= 255
  }

  /** Every band of every pixel is at most top. */
  ghost predicate AtMost(s: PxRows, top: int) {
    forall y, x, c {:trigger Value(s[y][x], c)} | 0 <= y < |s| && 0 <= x < |s[y]| :: Value(s[y][x], c) <= top
  }

  // ---------- windows and sums ----------

  function Clip(v: int, n: int): int {
    if v < 0 then 0 else if v > n then n else v
  }

  /** The part of [at - r, at + r] that lies inside [0, n). */
  function Low(at: int, r: int, n: int): int { Clip(at - r, n) }

  function High(at: int, r: int, n: int): int { Clip(at + r + 1, n) }

  function Extent(at: int, r: int, n: int): int { High(at, r, n) - Low(at, r, n) }

  ghost function RowSum(s: PxRows, c: Band, y: int, lo: int, hi: int): (t: int)
    requires 0 <= y < |s| && 0 <= lo && hi <= |s[y]|
    ensures 0 <= t
  {
    if hi <= lo then 0 else RowSum(s, c, y, lo, hi - 1) + Value(s[y][hi - 1], c)
  }

  ghost function ColSum(s: PxRows, c: Band, x: int, lo: int, hi: int): (t: int)
    requires 0 <= x && 0 <= lo && hi <= |s| && forall y | lo <= y < hi :: x < |s[y]|
    ensures 0 <= t
  {
    if hi <= lo then 0 else ColSum(s, c, x, lo, hi - 1) + Value(s[hi - 1][x], c)
  }

  /** The sum over the whole two-dimensional window. */
  ghost function WindowSum(s: PxRows, c: Band, xlo: int, xhi: int, ylo: int, yhi: int): int
    requires 0 <= xlo && 0 <= ylo && yhi <= |s| && forall y | ylo <= y < yhi :: xhi <= |s[y]|
  {
    if yhi <= ylo then 0
    else WindowSum(s, c, xlo, xhi, ylo, yhi - 1) + RowSum(s, c, yhi - 1, xlo, xhi)
  }

  lemma {:induction false} RowSumBound(s: PxRows, c: Band, y: int, lo: int, hi: int, top: int)
    requires 0 <= y < |s| && 0 <= lo <= hi <= |s[y]|
    requires forall x | lo <= x < hi :: Value(s[y][x], c) <= top
    ensures RowSum(s, c, y, lo, hi) <= top * (hi - lo)
  {
    if lo < hi {
      RowSumBound(s, c, y, lo, hi - 1, top);
      assert top * (hi - 1 - lo) + top == top * (hi - lo);
    }
  }

  lemma {:induction false} RowSumFloor(s: PxRows, c: Band, y: int, lo: int, hi: int, bottom: int)
    requires 0 <= y < |s| && 0 <= lo <= hi <= |s[y]|
    requires forall x | lo <= x < hi :: bottom <= Value(s[y][x], c)
    ensures bottom * (hi - lo) <= RowSum(s, c, y, lo, hi)
  {
    if lo < hi {
      RowSumFloor(s, c, y, lo, hi - 1, bottom);
      assert bottom * (hi - 1 - lo) + bottom == bottom * (hi - lo);
    }
  }

  lemma {:induction false} ColSumBound(s: PxRows, c: Band, x: int, lo: int, hi: int, top: int)
    requires 0 <= x && 0 <= lo <= hi <= |s| && forall y | lo <= y < hi :: x < |s[y]|
    requires forall y | lo <= y < hi :: Value(s[y][x], c) <= top
    ensures ColSum(s, c, x, lo, hi) <= top * (hi - lo)
  {
    if lo < hi {
      ColSumBound(s, c, x, lo, hi - 1, top);
      assert top * (hi - 1 - lo) + top == top * (hi - lo);
    }
  }

  lemma {:induction false} ColSumFloor(s: PxRows, c: Band, x: int, lo: int, hi: int, bottom: int)
    requires 0 <= x && 0 <= lo <= hi <= |s| && forall y | lo <= y < hi :: x < |s[y]|
    requires forall y | lo <= y < hi :: bottom <= Value(s[y][x], c)
    ensures bottom * (hi - lo) <= ColSum(s, c, x, lo, hi)
  {
    if lo < hi {
      ColSumFloor(s, c, x, lo, hi - 1, bottom);
      assert bottom * (hi - 1 - lo) + bottom == bottom * (hi - lo);
    }
  }

  /** A truncating mean is within one below the true mean. */
  lemma Truncates(sum: int, n: int)
    requires 0 < n
    ensures n * (sum / n) <= sum < n * (sum / n) + n
  {
  }

  lemma Times(n: int, a: int, b: int)
    requires 0 < n
    ensures a <= b ==> n * a <= n * b
  {
  }

  lemma MeanAtMost(sum: int, n: int, top: int)
    requires 0 < n && sum <= top * n
    ensures sum / n <= top
  {
    Truncates(sum, n);
    Times(n, top + 1, sum / n);
  }

  lemma MeanAtLeast(sum: int, n: int, bottom: int)
    requires 0 < n && bottom * n <= sum
    ensures bottom <= sum / n
  {
    Truncates(sum, n);
    Times(n, sum / n + 1, bottom);
  }

  // ---------- the two passes as functions ----------

  /** Horizontal mean at (x, y). */
  ghost function RowMean(s: PxRows, c: Band, y: int, x: int, r: int): int
    requires 0 <= y < |s| && 0 <= x < |s[y]| && 0 <= r
  {
    var lo, hi := Low(x, r, |s[y]|), High(x, r, |s[y]|);
    RowSum(s, c, y, lo, hi) / Extent(x, r, |s[y]|)
  }

  ghost function ColMean(s: PxRows, c: Band, y: int, x: int, r: int): int
    requires 0 <= y < |s| && 0 <= x && 0 <= r
    requires forall k | 0 <= k < |s| :: x < |s[k]|
  {
    var lo, hi := Low(y, r, |s|), High(y, r, |s|);
    ColSum(s, c, x, lo, hi) / Extent(y, r, |s|)
  }

  /** t holds the horizontal mean of s at (x, y). */
  ghost predicate RowMeanAt(s: PxRows, t: PxRows, r: int, y: int, x: int, c: Band)
    requires 0 <= y < |s| && 0 <= x < |s[y]| && y < |t| && x < |t[y]| && 0 <= r
  {
    Value(t[y][x], c) == RowMean(s, c, y, x, r)
  }

  ghost predicate ColMeanAt(t: PxRows, u: PxRows, r: int, y: int, x: int, c: Band)
    requires 0 <= y < |t| && 0 <= x && 0 <= r && y < |u| && x < |u[y]|
    requires forall k | 0 <= k < |t| :: x < |t[k]|
  {
    Value(u[y][x], c) == ColMean(t, c, y, x, r)
  }

  /** t is the horizontal pass over s. */
  ghost predicate RowPass(s: PxRows, t: PxRows, w: int, h: int, r: int)
    requires PxShape(s, w, h) && PxShape(t, w, h) && 0 <= r
  {
    forall y, x, c {:trigger RowMeanAt(s, t, r, y, x, c)} | 0 <= y < h && 0 <= x < w :: RowMeanAt(s, t, r, y, x, c)
  }

  /** u is the vertical pass over t. */
  ghost predicate ColPass(t: PxRows, u: PxRows, w: int, h: int, r: int)
    requires PxShape(t, w, h) && PxShape(u, w, h) && 0 <= r
  {
    forall y, x, c {:trigger ColMeanAt(t, u, r, y, x, c)} | 0 <= y < h && 0 <= x < w :: ColMeanAt(t, u, r, y, x, c)
  }

  // ---------- the error bound ----------

  lemma OneMoreRow(nx: int, before: int, v: int, row: int, total: int, count: int)
    requires 0 < nx && v == row / nx
    requires nx * before <= total <= nx * before + (nx - 1) * count
    ensures nx * (before + v) <= total + row <= nx * (before + v) + (nx - 1) * (count + 1)
  {
    Truncates(row, nx);
    assert nx * (before + v) == nx * before + nx * v;
    assert (nx - 1) * (count + 1) == (nx - 1) * count + (nx - 1);
  }

  /** t holds the truncated mean of row y of s over columns [xlo, xhi). */
  ghost predicate MeanOver(s: PxRows, t: PxRows, c: Band, y: int, x: int, xlo: int, xhi: int)
    requires 0 <= y < |s| && y < |t| && 0 <= x < |t[y]| && 0 <= xlo < xhi <= |s[y]|
  {
    Value(t[y][x], c) == RowSum(s, c, y, xlo, xhi) / (xhi - xlo)
  }

  /** Column sums of truncated row means, times the row width, undershoot the window sum
      by less than one row width per row. */
  lemma {:induction false} MeansAgainstWindow(s: PxRows, t: PxRows, c: Band, x: int, xlo: int, xhi: int, lo: int,
                                              hi: int)
    requires |s| == |t| && 0 <= lo <= hi <= |s|
    requires 0 <= x && 0 <= xlo < xhi
    requires forall y | lo <= y < hi :: x < |t[y]| && xhi <= |s[y]|
    requires forall y {:trigger MeanOver(s, t, c, y, x, xlo, xhi)} | lo <= y < hi :: MeanOver(s, t, c, y, x, xlo, xhi)
    ensures var nx := xhi - xlo;
            nx * ColSum(t, c, x, lo, hi) <= WindowSum(s, c, xlo, xhi, lo, hi)
              <= nx * ColSum(t, c, x, lo, hi) + (nx - 1) * (hi - lo)
  {
    var nx := xhi - xlo;
    if lo < hi {
      MeansAgainstWindow(s, t, c, x, xlo, xhi, lo, hi - 1);
      assert MeanOver(s, t, c, hi - 1, x, xlo, xhi);
      OneMoreRow(nx, ColSum(t, c, x, lo, hi - 1), Value(t[hi - 1][x], c), RowSum(s, c, hi - 1, xlo, xhi),
                 WindowSum(s, c, xlo, xhi, lo, hi - 1), hi - 1 - lo);
    }
  }

  /** The same on explicit windows. */
  lemma WindowErrorBound(s: PxRows, t: PxRows, c: Band, v: int, x: int, xlo: int, xhi: int, ylo: int, yhi: int,
                         nx: int, ny: int)
    requires |s| == |t| && 0 <= ylo < yhi <= |s| && ny == yhi - ylo
    requires 0 <= x && 0 <= xlo < xhi && nx == xhi - xlo
    requires forall y | ylo <= y < yhi :: x < |t[y]| && xhi <= |s[y]|
    requires forall y {:trigger MeanOver(s, t, c, y, x, xlo, xhi)} | ylo <= y < yhi :: MeanOver(s, t, c, y, x, xlo, xhi)
    requires v == ColSum(t, c, x, ylo, yhi) / ny
    ensures WithinTwo(nx, ny, v, WindowSum(s, c, xlo, xhi, ylo, yhi))
  {
    MeansAgainstWindow(s, t, c, x, xlo, xhi, ylo, yhi);
    BoundArithmetic(nx, ny, v, ColSum(t, c, x, ylo, yhi), WindowSum(s, c, xlo, xhi, ylo, yhi));
  }

  /** v is at most the exact mean of nx * ny values adding up to total, and less than 2
      below it. */
  ghost predicate WithinTwo(nx: int, ny: int, v: int, total: int) {
    0 < nx * ny && (nx * ny) * v <= total < (nx * ny) * (v + 2)
  }

  lemma WindowOfPasses(s: PxRows, t: PxRows, u: PxRows, w: int, h: int, r: int, c: Band, y: int, x: int,
                       xlo: int, xhi: int, ylo: int, yhi: int, nx: int, ny: int, v: int, total: int)
    requires PxShape(s, w, h) && PxShape(t, w, h) && PxShape(u, w, h) && 0 <= r
    requires RowPass(s, t, w, h, r) && ColPass(t, u, w, h, r)
    requires 0 <= y < h && 0 <= x < w
    requires xlo == Low(x, r, w) && xhi == High(x, r, w) && ylo == Low(y, r, h) && yhi == High(y, r, h)
    requires nx == xhi - xlo && ny == yhi - ylo
    requires v == Value(u[y][x], c) && total == WindowSum(s, c, xlo, xhi, ylo, yhi)
    ensures WithinTwo(nx, ny, v, total)
  {
    forall k | ylo <= k < yhi ensures MeanOver(s, t, c, k, x, xlo, xhi) {
      assert RowMeanAt(s, t, r, k, x, c);
    }
    assert ColMeanAt(t, u, r, y, x, c);
    WindowErrorBound(s, t, c, v, x, xlo, xhi, ylo, yhi, nx, ny);
  }

  /** What two-pass truncation costs: with nx by ny pixels in the clipped window and S
      their sum, the written value v has nx*ny*v <= S < nx*ny*(v + 2). */
  lemma BlurErrorBound(s: PxRows, t: PxRows, u: PxRows, w: int, h: int, r: int, c: Band, y: int, x: int)
    requires PxShape(s, w, h) && PxShape(t, w, h) && PxShape(u, w, h) && 0 <= r
    requires RowPass(s, t, w, h, r) && ColPass(t, u, w, h, r)
    requires 0 <= y < h && 0 <= x < w
    ensures WithinTwo(Extent(x, r, w), Extent(y, r, h), Value(u[y][x], c),
                      WindowSum(s, c, Low(x, r, w), High(x, r, w), Low(y, r, h), High(y, r, h)))
  {
    WindowOfPasses(s, t, u, w, h, r, c, y, x, Low(x, r, w), High(x, r, w), Low(y, r, h), High(y, r, h),
                   Extent(x, r, w), Extent(y, r, h), Value(u[y][x], c),
                   WindowSum(s, c, Low(x, r, w), High(x, r, w), Low(y, r, h), High(y, r, h)));
  }

  lemma BoundArithmetic(nx: int, ny: int, v: int, col: int, total: int)
    requires 0 < nx && 0 < ny && v == col / ny
    requires nx * col <= total <= nx * col + (nx - 1) * ny
    ensures WithinTwo(nx, ny, v, total)
  {
    Truncates(col, ny);
    Times(nx, ny * v, col);
    Times(nx, col + 1, ny * v + ny);
    assert nx * (ny * v) == (nx * ny) * v;
    assert nx * (ny * v + ny) == (nx * ny) * v + nx * ny;
    assert (nx * ny) * (v + 2) == (nx * ny) * v + 2 * (nx * ny);
    assert (nx - 1) * ny == nx * ny - ny;
  }

  // ---------- 32-bit sums ----------

  /** The longest window in either direction, of 255s, still fits a uint32. */
  predicate NoWrap(w: int, h: int, r: int) {
    255 * Min(2 * r + 1, w) < U32 && 255 * Min(2 * r + 1, h) < U32
  }

  /** The radius clamp keeps every sum of a region of up to 70,000,000,000,000 pixels from
      wrapping, more than a million times the default pixel cap. */
  lemma CapPreventsWrap(w: int, h: int, r: int)
    requires 0 < w && 0 < h && w * h <= 70_000_000_000_000 && 0 < r <= Min(w, h)
    ensures NoWrap(w, h, r)
  {
    var m := Min(w, h);
    Times(m, m, Max(w, h));
    if 8_421_505 <= m {
      Times(m, 8_421_505, m);
      Times(8_421_505, 8_421_505, m);
    }
  }

  lemma RowSumFits(s: PxRows, c: Band, y: int, x: int, w: int, h: int, r: int, hi: int)
    requires PxShape(s, w, h) && AtMost(s, 255) && NoWrap(w, h, r) && 0 <= r
    requires 0 <= y < h && 0 <= x < w && Low(x, r, w) <= hi <= High(x, r, w)
    ensures RowSum(s, c, y, Low(x, r, w), hi) < U32
  {
    RowSumBound(s, c, y, Low(x, r, w), hi, 255);
  }

  lemma ColSumFits(s: PxRows, c: Band, y: int, x: int, w: int, h: int, r: int, hi: int)
    requires PxShape(s, w, h) && AtMost(s, 255) && NoWrap(w, h, r) && 0 <= r
    requires 0 <= y < h && 0 <= x < w && Low(y, r, h) <= hi <= High(y, r, h)
    ensures ColSum(s, c, x, Low(y, r, h), hi) < U32
  {
    ColSumBound(s, c, x, Low(y, r, h), hi, 255);
  }

  ghost function White(w: int, h: int): (s: PxRows)
    requires 0 < w && 0 < h
    ensures PxShape(s, w, h) && AtMost(s, 255)
  {
    seq(h, _ => seq(w, _ => Px(255, 255, 255, 255)))
  }

  lemma {:induction false} WhiteRowSum(w: int, h: int, c: Band, y: int, lo: int, hi: int)
    requires 0 < w && 0 < h && 0 <= y < h && 0 <= lo <= hi <= w
    ensures RowSum(White(w, h), c, y, lo, hi) == 255 * (hi - lo)
  {
    if lo < hi {
      WhiteRowSum(w, h, c, y, lo, hi - 1);
    }
  }

  lemma {:induction false} WhiteColSum(w: int, h: int, c: Band, x: int, lo: int, hi: int)
    requires 0 < w && 0 < h && 0 <= x < w && 0 <= lo <= hi <= h
    ensures ColSum(White(w, h), c, x, lo, hi) == 255 * (hi - lo)
  {
    if lo < hi {
      WhiteColSum(w, h, c, x, lo, hi - 1);
    }
  }

  ghost predicate SumsFit(s: PxRows, w: int, h: int, r: int)
    requires PxShape(s, w, h) && 0 <= r
  {
    forall y, x, c {:trigger RowSum(s, c, y, Low(x, r, w), High(x, r, w))}
      {:trigger ColSum(s, c, x, Low(y, r, h), High(y, r, h))} |
      0 <= y < h && 0 <= x < w ::
      && RowSum(s, c, y, Low(x, r, w), High(x, r, w)) < U32
      && ColSum(s, c, x, Low(y, r, h), High(y, r, h)) < U32
  }

  lemma AllFit(s: PxRows, w: int, h: int, r: int)
    requires PxShape(s, w, h) && AtMost(s, 255) && 0 <= r && NoWrap(w, h, r)
    ensures SumsFit(s, w, h, r)
  {
    forall y, x, c: Band | 0 <= y < h && 0 <= x < w
      ensures RowSum(s, c, y, Low(x, r, w), High(x, r, w)) < U32
      ensures ColSum(s, c, x, Low(y, r, h), High(y, r, h)) < U32
    {
      RowSumFits(s, c, y, x, w, h, r, High(x, r, w));
      ColSumFits(s, c, y, x, w, h, r, High(y, r, h));
    }
  }

  /** Some window is as long as any: the middle one, or one that spans the whole line. */
  lemma LongestWindow(r: int, n: int) returns (at: int)
    requires 0 < n && 0 <= r
    ensures 0 <= at < n && Extent(at, r, n) == Min(2 * r + 1, n)
    ensures 0 <= Low(at, r, n) <= High(at, r, n) <= n
  {
    at := if 2 * r + 1 <= n then r else Max(0, n - 1 - r);
  }

  lemma WhiteWraps(w: int, h: int, r: int)
    requires 0 < w && 0 < h && 0 <= r && !NoWrap(w, h, r)
    ensures !SumsFit(White(w, h), w, h, r)
  {
    var x := LongestWindow(r, w);
    var y := LongestWindow(r, h);
    WhiteRowSum(w, h, R, y, Low(x, r, w), High(x, r, w));
    WhiteColSum(w, h, R, x, Low(y, r, h), High(y, r, h));
  }

  /** The condition is exact: it holds if and only if no picture of that size can make a
      window sum wrap. */
  lemma NoWrapIsExact(w: int, h: int, r: int)
    requires 0 < w && 0 < h && 0 <= r
    ensures NoWrap(w, h, r) <==> forall s | PxShape(s, w, h) && AtMost(s, 255) :: SumsFit(s, w, h, r)
  {
    if NoWrap(w, h, r) {
      forall s | PxShape(s, w, h) && AtMost(s, 255) ensures SumsFit(s, w, h, r) {
        AllFit(s, w, h, r);
      }
    } else {
      WhiteWraps(w, h, r);
    }
  }

  // ---------- what the means stay between ----------

  lemma RowMeanRange(s: PxRows, c: Band, y: int, x: int, r: int, bottom: int, top: int)
    requires 0 <= y < |s| && 0 <= x < |s[y]| && 0 <= r
    requires forall k | 0 <= k < |s[y]| :: bottom <= Value(s[y][k], c) <= top
    ensures bottom <= RowMean(s, c, y, x, r) <= top
  {
    var lo, hi := Low(x, r, |s[y]|), High(x, r, |s[y]|);
    RowSumBound(s, c, y, lo, hi, top);
    RowSumFloor(s, c, y, lo, hi, bottom);
    MeanAtMost(RowSum(s, c, y, lo, hi), hi - lo, top);
    MeanAtLeast(RowSum(s, c, y, lo, hi), hi - lo, bottom);
  }

  lemma ColMeanRange(s: PxRows, c: Band, y: int, x: int, r: int, bottom: int, top: int)
    requires 0 <= y < |s| && 0 <= x && 0 <= r
    requires forall k | 0 <= k < |s| :: x < |s[k]|
    requires forall k | 0 <= k < |s| :: bottom <= Value(s[k][x], c) <= top
    ensures bottom <= ColMean(s, c, y, x, r) <= top
  {
    var lo, hi := Low(y, r, |s|), High(y, r, |s|);
    ColSumBound(s, c, x, lo, hi, top);
    ColSumFloor(s, c, x, lo, hi, bottom);
    MeanAtMost(ColSum(s, c, x, lo, hi), hi - lo, top);
    MeanAtLeast(ColSum(s, c, x, lo, hi), hi - lo, bottom);
  }

  lemma {:induction false} RowSumOrder(s: PxRows, c: Band, d: Band, y: int, lo: int, hi: int)
    requires 0 <= y < |s| && 0 <= lo <= hi <= |s[y]|
    requires forall x | lo <= x < hi :: Value(s[y][x], c) <= Value(s[y][x], d)
    ensures RowSum(s, c, y, lo, hi) <= RowSum(s, d, y, lo, hi)
  {
    if lo < hi {
      RowSumOrder(s, c, d, y, lo, hi - 1);
    }
  }

  lemma {:induction false} ColSumOrder(s: PxRows, c: Band, d: Band, x: int, lo: int, hi: int)
    requires 0 <= x && 0 <= lo <= hi <= |s| && forall y | lo <= y < hi :: x < |s[y]|
    requires forall y | lo <= y < hi :: Value(s[y][x], c) <= Value(s[y][x], d)
    ensures ColSum(s, c, x, lo, hi) <= ColSum(s, d, x, lo, hi)
  {
    if lo < hi {
      ColSumOrder(s, c, d, x, lo, hi - 1);
    }
  }

  lemma MeanOrder(a: int, b: int, n: int)
    requires 0 < n && a <= b
    ensures a / n <= b / n
  {
    Truncates(a, n);
    Truncates(b, n);
    Times(n, b / n + 1, a / n);
  }

  ghost predicate Between(s: PxRows, c: Band, bottom: int, top: int) {
    forall y, x {:trigger s[y][x]} | 0 <= y < |s| && 0 <= x < |s[y]| :: bottom <= Value(s[y][x], c) <= top
  }

  /** No colour band exceeds alpha: the premultiplied form the image type requires. */
  ghost predicate Premultiplied(s: PxRows) {
    forall y, x, c {:trigger Value(s[y][x], c)} | 0 <= y < |s| && 0 <= x < |s[y]| ::
      Value(s[y][x], c) <= Value(s[y][x], A)
  }

  /** A pixel in the form the image type requires. */
  predicate PremultipliedPixel(p: RGBA) {
    p.r <= p.a && p.g <= p.a && p.b <= p.a
  }

  ghost predicate PremultipliedRows(rows: Rows) {
    forall y, x {:trigger rows[y][x]} | 0 <= y < |rows| && 0 <= x < |rows[y]| :: PremultipliedPixel(rows[y][x])
  }

  /** A blur never leaves the range a band had, and keeps pixels premultiplied. */
  lemma BlurKeepsRange(s: PxRows, t: PxRows, u: PxRows, w: int, h: int, r: int, c: Band, bottom: int, top: int)
    requires PxShape(s, w, h) && PxShape(t, w, h) && PxShape(u, w, h) && 0 <= r
    requires RowPass(s, t, w, h, r) && ColPass(t, u, w, h, r)
    requires Between(s, c, bottom, top)
    ensures Between(t, c, bottom, top) && Between(u, c, bottom, top)
  {
    forall y, x | 0 <= y < h && 0 <= x < w ensures bottom <= Value(t[y][x], c) <= top {
      assert RowMeanAt(s, t, r, y, x, c);
      RowMeanRange(s, c, y, x, r, bottom, top);
    }
    forall y, x | 0 <= y < h && 0 <= x < w ensures bottom <= Value(u[y][x], c) <= top {
      assert ColMeanAt(t, u, r, y, x, c);
      ColMeanRange(t, c, y, x, r, bottom, top);
    }
  }

  lemma BlurKeepsPremultiplied(s: PxRows, t: PxRows, u: PxRows, w: int, h: int, r: int)
    requires PxShape(s, w, h) && PxShape(t, w, h) && PxShape(u, w, h) && 0 <= r
    requires RowPass(s, t, w, h, r) && ColPass(t, u, w, h, r)
    requires Premultiplied(s)
    ensures Premultiplied(t) && Premultiplied(u)
  {
    forall y, x, c | 0 <= y < h && 0 <= x < w ensures Value(t[y][x], c) <= Value(t[y][x], A) {
      assert RowMeanAt(s, t, r, y, x, c) && RowMeanAt(s, t, r, y, x, A);
      var lo, hi := Low(x, r, w), High(x, r, w);
      RowSumOrder(s, c, A, y, lo, hi);
      MeanOrder(RowSum(s, c, y, lo, hi), RowSum(s, A, y, lo, hi), hi - lo);
    }
    forall y, x, c | 0 <= y < h && 0 <= x < w ensures Value(u[y][x], c) <= Value(u[y][x], A) {
      assert ColMeanAt(t, u, r, y, x, c) && ColMeanAt(t, u, r, y, x, A);
      var lo, hi := Low(y, r, h), High(y, r, h);
      ColSumOrder(t, c, A, x, lo, hi);
      MeanOrder(ColSum(t, c, x, lo, hi), ColSum(t, A, x, lo, hi), hi - lo);
    }
  }

  // ---------- the loops ----------

  /** Unsigned division, which cannot leave the 32-bit range. */
  function Div(a: u32, n: u32): (q: u32)
    requires 0 < n
    ensures q == a / n
  {
    Times(n, 1, n);
    Truncates(a, n);
    a / n
  }

  /** Buffer a holds exactly the rows s. */
  ghost predicate Holds(a: array2<Px>, s: PxRows)
    reads a
  {
    && a.Length0 == |s|
    && (forall y {:trigger s[y]} | 0 <= y < |s| :: |s[y]| == a.Length1)
    && (forall y, x {:trigger a[y, x]} | 0 <= y < |s| && 0 <= x < a.Length1 :: a[y, x] == s[y][x])
  }

  /** Horizontal mean at (x, y) as the machine computes it: the sum may have wrapped. */
  ghost function WrappedRowMean(s: PxRows, c: Band, y: int, x: int, r: int): int
    requires 0 <= y < |s| && 0 <= x < |s[y]| && 0 <= r
  {
    var lo, hi := Low(x, r, |s[y]|), High(x, r, |s[y]|);
    Wrap(RowSum(s, c, y, lo, hi)) / Extent(x, r, |s[y]|)
  }

  ghost function WrappedColMean(s: PxRows, c: Band, y: int, x: int, r: int): int
    requires 0 <= y < |s| && 0 <= x && 0 <= r
    requires forall k | 0 <= k < |s| :: x < |s[k]|
  {
    var lo, hi := Low(y, r, |s|), High(y, r, |s|);
    Wrap(ColSum(s, c, x, lo, hi)) / Extent(y, r, |s|)
  }

  /** Every band of p is the horizontal mean of s at (x, y). */
  ghost predicate IsRowMean(p: Px, s: PxRows, r: int, y: int, x: int)
    requires 0 <= y < |s| && 0 <= x < |s[y]| && 0 <= r
  {
    forall c {:trigger Value(p, c)} :: Value(p, c) == WrappedRowMean(s, c, y, x, r)
  }

  ghost predicate IsColMean(p: Px, s: PxRows, r: int, y: int, x: int)
    requires 0 <= y < |s| && 0 <= x && 0 <= r
    requires forall k | 0 <= k < |s| :: x < |s[k]|
  {
    forall c {:trigger Value(p, c)} :: Value(p, c) == WrappedColMean(s, c, y, x, r)
  }

  /** The four running sums over columns [lo, hi) of row y. */
  ghost predicate RowSums(s: PxRows, y: int, lo: int, hi: int, sr: int, sg: int, sb: int, sa: int)
    requires 0 <= y < |s| && 0 <= lo && hi <= |s[y]|
  {
    && sr == Wrap(RowSum(s, R, y, lo, hi)) && sg == Wrap(RowSum(s, G, y, lo, hi))
    && sb == Wrap(RowSum(s, B, y, lo, hi)) && sa == Wrap(RowSum(s, A, y, lo, hi))
  }

  ghost predicate ColSums(s: PxRows, x: int, lo: int, hi: int, sr: int, sg: int, sb: int, sa: int)
    requires 0 <= x && 0 <= lo && hi <= |s| && forall y | lo <= y < hi :: x < |s[y]|
  {
    && sr == Wrap(ColSum(s, R, x, lo, hi)) && sg == Wrap(ColSum(s, G, x, lo, hi))
    && sb == Wrap(ColSum(s, B, x, lo, hi)) && sa == Wrap(ColSum(s, A, x, lo, hi))
  }

  /** Taking in one more pixel. */
  lemma RowSumsNext(s: PxRows, y: int, lo: int, hi: int, sr: u32, sg: u32, sb: u32, sa: u32)
    requires 0 <= y < |s| && 0 <= lo <= hi < |s[y]| && RowSums(s, y, lo, hi, sr, sg, sb, sa)
    ensures var q := s[y][hi];
            RowSums(s, y, lo, hi + 1, Add(sr, q.r), Add(sg, q.g), Add(sb, q.b), Add(sa, q.a))
  {
    var q := s[y][hi];
    WrapAdds(RowSum(s, R, y, lo, hi), q.r);
    WrapAdds(RowSum(s, G, y, lo, hi), q.g);
    WrapAdds(RowSum(s, B, y, lo, hi), q.b);
    WrapAdds(RowSum(s, A, y, lo, hi), q.a);
  }

  lemma ColSumsNext(s: PxRows, x: int, lo: int, hi: int, sr: u32, sg: u32, sb: u32, sa: u32)
    requires 0 <= x && 0 <= lo <= hi < |s| && forall y | lo <= y <= hi :: x < |s[y]|
    requires ColSums(s, x, lo, hi, sr, sg, sb, sa)
    ensures var q := s[hi][x];
            ColSums(s, x, lo, hi + 1, Add(sr, q.r), Add(sg, q.g), Add(sb, q.b), Add(sa, q.a))
  {
    var q := s[hi][x];
    WrapAdds(ColSum(s, R, x, lo, hi), q.r);
    WrapAdds(ColSum(s, G, x, lo, hi), q.g);
    WrapAdds(ColSum(s, B, x, lo, hi), q.b);
    WrapAdds(ColSum(s, A, x, lo, hi), q.a);
  }

  lemma FourBandsRow(p: Px, s: PxRows, r: int, y: int, x: int)
    requires 0 <= y < |s| && 0 <= x < |s[y]| && 0 <= r
    requires p.r == WrappedRowMean(s, R, y, x, r) && p.g == WrappedRowMean(s, G, y, x, r)
    requires p.b == WrappedRowMean(s, B, y, x, r) && p.a == WrappedRowMean(s, A, y, x, r)
    ensures IsRowMean(p, s, r, y, x)
  {
    forall c ensures Value(p, c) == WrappedRowMean(s, c, y, x, r) {
      match c
      case R =>
      case G =>
      case B =>
      case A =>
    }
  }

  lemma RowMeans(s: PxRows, y: int, x: int, r: int, sr: u32, sg: u32, sb: u32, sa: u32, n: u32)
    requires 0 <= y < |s| && 0 <= x < |s[y]| && 0 <= r
    requires RowSums(s, y, Low(x, r, |s[y]|), High(x, r, |s[y]|), sr, sg, sb, sa)
    requires n == High(x, r, |s[y]|) - Low(x, r, |s[y]|) && 0 < n
    ensures IsRowMean(Px(Div(sr, n), Div(sg, n), Div(sb, n), Div(sa, n)), s, r, y, x)
  {
    FourBandsRow(Px(Div(sr, n), Div(sg, n), Div(sb, n), Div(sa, n)), s, r, y, x);
  }

  lemma FourBandsCol(p: Px, s: PxRows, r: int, y: int, x: int)
    requires 0 <= y < |s| && 0 <= x && 0 <= r && forall k | 0 <= k < |s| :: x < |s[k]|
    requires p.r == WrappedColMean(s, R, y, x, r) && p.g == WrappedColMean(s, G, y, x, r)
    requires p.b == WrappedColMean(s, B, y, x, r) && p.a == WrappedColMean(s, A, y, x, r)
    ensures IsColMean(p, s, r, y, x)
  {
    forall c ensures Value(p, c) == WrappedColMean(s, c, y, x, r) {
      match c
      case R =>
      case G =>
      case B =>
      case A =>
    }
  }

  lemma ColMeans(s: PxRows, y: int, x: int, r: int, sr: u32, sg: u32, sb: u32, sa: u32, n: u32)
    requires 0 <= y < |s| && 0 <= x && 0 <= r && forall k | 0 <= k < |s| :: x < |s[k]|
    requires ColSums(s, x, Low(y, r, |s|), High(y, r, |s|), sr, sg, sb, sa)
    requires n == High(y, r, |s|) - Low(y, r, |s|) && 0 < n
    ensures IsColMean(Px(Div(sr, n), Div(sg, n), Div(sb, n), Div(sa, n)), s, r, y, x)
  {
    FourBandsCol(Px(Div(sr, n), Div(sg, n), Div(sb, n), Div(sa, n)), s, r, y, x);
  }

  /** No window along a side of n pixels holds 2^32 of them. */
  predicate CountFits(n: int, r: int) {
    n < U32 || 2 * r + 1 < U32
  }

  /** In a region whose pixels a machine integer can number, no window count wraps. */
  lemma CountsFit(w: int, h: int, r: int)
    requires 0 < w && 0 < h && w * h < TWO63 && 0 < r <= Min(w, h)
    ensures CountFits(w, r) && CountFits(h, r)
  {
    if 0x8000_0000 <= r {
      Times(h, 0x8000_0000, w);
      Times(w, 0x8000_0000, h);
    }
  }

  /** The innermost loop of the horizontal pass. The sums wrap; the count of pixels in the
      window must not, or it could be zero when it divides. */
  method MeanOfRow(src: array2<Px>, ghost s: PxRows, y: int, x: int, r: int) returns (p: Px)
    requires Holds(src, s) && PxShape(s, src.Length1, src.Length0)
    requires 0 <= y < src.Length0 && 0 <= x < src.Length1 && 0 <= r && CountFits(src.Length1, r)
    ensures IsRowMean(p, s, r, y, x)
  {
    var w := src.Length1;
    ghost var lo := Low(x, r, w);
    var sr: u32, sg: u32, sb: u32, sa: u32, n: u32 := 0, 0, 0, 0, 0;
    var dx := -r;
    while dx <= r
      invariant -r <= dx <= r + 1
      invariant lo <= Clip(x + dx, w) <= High(x, r, w)
      invariant n == Clip(x + dx, w) - lo
      invariant RowSums(s, y, lo, Clip(x + dx, w), sr, sg, sb, sa)
    {
      var xx := x + dx;
      if 0 <= xx < w {
        var q := src[y, xx];
        assert q == s[y][xx];
        RowSumsNext(s, y, lo, xx, sr, sg, sb, sa);
        sr := Add(sr, q.r);
        sg := Add(sg, q.g);
        sb := Add(sb, q.b);
        sa := Add(sa, q.a);
        n := n + 1;
      }
      dx := dx + 1;
    }
    RowMeans(s, y, x, r, sr, sg, sb, sa, n);
    p := Px(Div(sr, n), Div(sg, n), Div(sb, n), Div(sa, n));
  }

  /** The innermost loop of the vertical pass. */
  method MeanOfCol(tmp: array2<Px>, ghost t: PxRows, y: int, x: int, r: int) returns (p: Px)
    requires Holds(tmp, t) && PxShape(t, tmp.Length1, tmp.Length0)
    requires 0 <= y < tmp.Length0 && 0 <= x < tmp.Length1 && 0 <= r && CountFits(tmp.Length0, r)
    ensures IsColMean(p, t, r, y, x)
  {
    var h := tmp.Length0;
    ghost var lo := Low(y, r, h);
    var sr: u32, sg: u32, sb: u32, sa: u32, n: u32 := 0, 0, 0, 0, 0;
    var dy := -r;
    while dy <= r
      invariant -r <= dy <= r + 1
      invariant lo <= Clip(y + dy, h) <= High(y, r, h)
      invariant n == Clip(y + dy, h) - lo
      invariant ColSums(t, x, lo, Clip(y + dy, h), sr, sg, sb, sa)
    {
      var yy := y + dy;
      if 0 <= yy < h {
        var q := tmp[yy, x];
        assert q == t[yy][x];
        ColSumsNext(t, x, lo, yy, sr, sg, sb, sa);
        sr := Add(sr, q.r);
        sg := Add(sg, q.g);
        sb := Add(sb, q.b);
        sa := Add(sa, q.a);
        n := n + 1;
      }
      dy := dy + 1;
    }
    ColMeans(t, y, x, r, sr, sg, sb, sa, n);
    p := Px(Div(sr, n), Div(sg, n), Div(sb, n), Div(sa, n));
  }

  // ---------- the blurred region as a value ----------

  /** Wrapped or not, a mean of bytes is a byte. */
  lemma RowMeanFits(s: PxRows, w: int, h: int, r: int, c: Band, y: int, x: int)
    requires PxShape(s, w, h) && AtMost(s, 255) && 0 <= r && 0 <= y < h && 0 <= x < w
    ensures 0 <= WrappedRowMean(s, c, y, x, r) <= 255
  {
    var lo, hi := Low(x, r, w), High(x, r, w);
    RowSumBound(s, c, y, lo, hi, 255);
    MeanAtMost(Wrap(RowSum(s, c, y, lo, hi)), hi - lo, 255);
    MeanAtLeast(Wrap(RowSum(s, c, y, lo, hi)), hi - lo, 0);
  }

  lemma ColMeanFits(s: PxRows, w: int, h: int, r: int, c: Band, y: int, x: int)
    requires PxShape(s, w, h) && AtMost(s, 255) && 0 <= r && 0 <= y < h && 0 <= x < w
    ensures 0 <= WrappedColMean(s, c, y, x, r) <= 255
  {
    var lo, hi := Low(y, r, h), High(y, r, h);
    ColSumBound(s, c, x, lo, hi, 255);
    MeanAtMost(Wrap(ColSum(s, c, x, lo, hi)), hi - lo, 255);
    MeanAtLeast(Wrap(ColSum(s, c, x, lo, hi)), hi - lo, 0);
  }

  ghost function RowPixel(s: PxRows, w: int, h: int, r: int, y: int, x: int): (p: Px)
    requires PxShape(s, w, h) && AtMost(s, 255) && 0 <= r && 0 <= y < h && 0 <= x < w
    ensures IsRowMean(p, s, r, y, x) && Small(p)
  {
    RowMeanFits(s, w, h, r, R, y, x);
    RowMeanFits(s, w, h, r, G, y, x);
    RowMeanFits(s, w, h, r, B, y, x);
    RowMeanFits(s, w, h, r, A, y, x);
    var p := Px(WrappedRowMean(s, R, y, x, r), WrappedRowMean(s, G, y, x, r),
                WrappedRowMean(s, B, y, x, r), WrappedRowMean(s, A, y, x, r));
    FourBandsRow(p, s, r, y, x);
    p
  }

  ghost function ColPixel(s: PxRows, w: int, h: int, r: int, y: int, x: int): (p: Px)
    requires PxShape(s, w, h) && AtMost(s, 255) && 0 <= r && 0 <= y < h && 0 <= x < w
    ensures IsColMean(p, s, r, y, x) && Small(p)
  {
    ColMeanFits(s, w, h, r, R, y, x);
    ColMeanFits(s, w, h, r, G, y, x);
    ColMeanFits(s, w, h, r, B, y, x);
    ColMeanFits(s, w, h, r, A, y, x);
    var p := Px(WrappedColMean(s, R, y, x, r), WrappedColMean(s, G, y, x, r),
                WrappedColMean(s, B, y, x, r), WrappedColMean(s, A, y, x, r));
    FourBandsCol(p, s, r, y, x);
    p
  }

  ghost function RowsPassed(s: PxRows, w: int, h: int, r: int): (t: PxRows)
    requires PxShape(s, w, h) && AtMost(s, 255) && 0 <= r
    ensures PxShape(t, w, h) && AtMost(t, 255)
    ensures forall y, x {:trigger t[y][x]} | 0 <= y < h && 0 <= x < w :: t[y][x] == RowPixel(s, w, h, r, y, x)
  {
    var t := seq(h, y requires 0 <= y < h => seq(w, x requires 0 <= x < w => RowPixel(s, w, h, r, y, x)));
    t
  }

  ghost function ColsPassed(t: PxRows, w: int, h: int, r: int): (u: PxRows)
    requires PxShape(t, w, h) && AtMost(t, 255) && 0 <= r
    ensures PxShape(u, w, h) && AtMost(u, 255)
    ensures forall y, x {:trigger u[y][x]} | 0 <= y < h && 0 <= x < w :: u[y][x] == ColPixel(t, w, h, r, y, x)
  {
    var u := seq(h, y requires 0 <= y < h => seq(w, x requires 0 <= x < w => ColPixel(t, w, h, r, y, x)));
    u
  }

  lemma SamePixel(p: Px, q: Px)
    requires forall c {:trigger Value(p, c)} :: Value(p, c) == Value(q, c)
    ensures p == q
  {
    assert Value(p, R) == Value(q, R) && Value(p, G) == Value(q, G);
    assert Value(p, B) == Value(q, B) && Value(p, A) == Value(q, A);
  }

  // ---------- when the machine's passes are the exact ones ----------

  lemma RowsPassedExactly(s: PxRows, w: int, h: int, r: int)
    requires PxShape(s, w, h) && AtMost(s, 255) && 0 <= r && NoWrap(w, h, r)
    ensures RowPass(s, RowsPassed(s, w, h, r), w, h, r)
  {
    var t := RowsPassed(s, w, h, r);
    forall y, x, c | 0 <= y < h && 0 <= x < w ensures RowMeanAt(s, t, r, y, x, c) {
      RowSumFits(s, c, y, x, w, h, r, High(x, r, w));
      assert Value(t[y][x], c) == WrappedRowMean(s, c, y, x, r);
    }
  }

  lemma ColsPassedExactly(t: PxRows, w: int, h: int, r: int)
    requires PxShape(t, w, h) && AtMost(t, 255) && 0 <= r && NoWrap(w, h, r)
    ensures ColPass(t, ColsPassed(t, w, h, r), w, h, r)
  {
    var u := ColsPassed(t, w, h, r);
    forall y, x, c | 0 <= y < h && 0 <= x < w ensures ColMeanAt(t, u, r, y, x, c) {
      ColSumFits(t, c, y, x, w, h, r, High(y, r, h));
      assert Value(u[y][x], c) == WrappedColMean(t, c, y, x, r);
    }
  }

  /** The value the two machine passes give band c at (x, y) is within two of the mean. */
  ghost predicate AccurateAt(s: PxRows, w: int, h: int, r: int, y: int, x: int, c: Band)
    requires PxShape(s, w, h) && AtMost(s, 255) && 0 <= r && 0 <= y < h && 0 <= x < w
  {
    WithinTwo(Extent(x, r, w), Extent(y, r, h), Value(ColsPassed(RowsPassed(s, w, h, r), w, h, r)[y][x], c),
              WindowSum(s, c, Low(x, r, w), High(x, r, w), Low(y, r, h), High(y, r, h)))
  }

  ghost predicate Accurate(s: PxRows, w: int, h: int, r: int)
    requires PxShape(s, w, h) && AtMost(s, 255) && 0 <= r
  {
    forall y, x, c {:trigger AccurateAt(s, w, h, r, y, x, c)} | 0 <= y < h && 0 <= x < w ::
      AccurateAt(s, w, h, r, y, x, c)
  }

  lemma NoWrapIsAccurate(s: PxRows, w: int, h: int, r: int)
    requires PxShape(s, w, h) && AtMost(s, 255) && 0 <= r && NoWrap(w, h, r)
    ensures Accurate(s, w, h, r)
  {
    var t := RowsPassed(s, w, h, r);
    RowsPassedExactly(s, w, h, r);
    ColsPassedExactly(t, w, h, r);
    forall y, x, c | 0 <= y < h && 0 <= x < w ensures AccurateAt(s, w, h, r, y, x, c) {
      BlurErrorBound(s, t, ColsPassed(t, w, h, r), w, h, r, c, y, x);
    }
  }

  /** A wrapped mean of 255s is far too small. */
  lemma WrappedIsLow(n: int)
    requires 0 < n < U32 && 255 * n >= U32
    ensures Wrap(255 * n) / n <= 253
  {
    assert Wrap(255 * n) == Wrap(255 * n - U32);
    MeanAtMost(Wrap(255 * n), n, 253);
  }

  lemma {:induction false} WhiteWindowSum(w: int, h: int, c: Band, xlo: int, xhi: int, ylo: int, yhi: int)
    requires 0 < w && 0 < h && 0 <= xlo <= xhi <= w && 0 <= ylo <= yhi <= h
    ensures WindowSum(White(w, h), c, xlo, xhi, ylo, yhi) == 255 * (xhi - xlo) * (yhi - ylo)
  {
    if ylo < yhi {
      WhiteWindowSum(w, h, c, xlo, xhi, ylo, yhi - 1);
      WhiteRowSum(w, h, c, yhi - 1, xlo, xhi);
      Distributes(255 * (xhi - xlo), yhi - 1 - ylo);
    }
  }

  lemma Distributes(a: int, n: int)
    ensures a * (n + 1) == a * n + a
  {
  }

  lemma {:induction false} ConstantColSum(t: PxRows, c: Band, x: int, lo: int, hi: int, m: int)
    requires 0 <= x && 0 <= lo <= hi <= |t| && forall y | lo <= y < hi :: x < |t[y]|
    requires forall y | lo <= y < hi :: Value(t[y][x], c) == m
    ensures ColSum(t, c, x, lo, hi) == m * (hi - lo)
  {
    if lo < hi {
      ConstantColSum(t, c, x, lo, hi - 1, m);
      Distributes(m, hi - 1 - lo);
    }
  }

  lemma WhiteRow(w: int, h: int, r: int, y: int, x: int)
    requires 0 < w && 0 < h && 0 <= r && 0 <= y < h && 0 <= x < w
    ensures 0 < Extent(x, r, w) <= w
    ensures Value(RowsPassed(White(w, h), w, h, r)[y][x], R) == Wrap(255 * Extent(x, r, w)) / Extent(x, r, w)
  {
    var t := RowsPassed(White(w, h), w, h, r);
    WhiteRowSum(w, h, R, y, Low(x, r, w), High(x, r, w));
    assert Value(t[y][x], R) == WrappedRowMean(White(w, h), R, y, x, r);
  }

  lemma ConstantCol(t: PxRows, w: int, h: int, r: int, y: int, x: int, m: int)
    requires PxShape(t, w, h) && AtMost(t, 255) && 0 <= r && 0 <= y < h && 0 <= x < w && 0 <= m
    requires forall k | 0 <= k < h :: Value(t[k][x], R) == m
    ensures 0 < Extent(y, r, h) <= h && 0 <= m * Extent(y, r, h)
    ensures Value(ColsPassed(t, w, h, r)[y][x], R) == Wrap(m * Extent(y, r, h)) / Extent(y, r, h)
  {
    var u := ColsPassed(t, w, h, r);
    ConstantColSum(t, R, x, Low(y, r, h), High(y, r, h), m);
    assert Value(u[y][x], R) == WrappedColMean(t, R, y, x, r);
  }

  /** What the two passes make of an all-white picture at (x, y). */
  lemma WhitePixel(w: int, h: int, r: int, y: int, x: int) returns (m: int)
    requires 0 < w && 0 < h && 0 <= r && 0 <= y < h && 0 <= x < w
    ensures 0 < Extent(x, r, w) <= w && 0 < Extent(y, r, h) <= h
    ensures m == Wrap(255 * Extent(x, r, w)) / Extent(x, r, w) && 0 <= m <= 255 && 0 <= m * Extent(y, r, h)
    ensures Value(ColsPassed(RowsPassed(White(w, h), w, h, r), w, h, r)[y][x], R)
         == Wrap(m * Extent(y, r, h)) / Extent(y, r, h)
  {
    var t := RowsPassed(White(w, h), w, h, r);
    var nx := Extent(x, r, w);
    WhiteRow(w, h, r, y, x);
    m := Wrap(255 * nx) / nx;
    forall k | 0 <= k < h ensures Value(t[k][x], R) == m {
      WhiteRow(w, h, r, k, x);
    }
    MeanAtMost(Wrap(255 * nx), nx, 255);
    MeanAtLeast(Wrap(255 * nx), nx, 0);
    ConstantCol(t, w, h, r, y, x, m);
  }

  /** Where a sum wraps, an all-white picture comes out visibly darker. */
  lemma WhiteIsInaccurate(w: int, h: int, r: int)
    requires 0 < w < U32 && 0 < h < U32 && 0 <= r && !NoWrap(w, h, r)
    ensures !Accurate(White(w, h), w, h, r)
  {
    var x := LongestWindow(r, w);
    var y := LongestWindow(r, h);
    var nx, ny := Extent(x, r, w), Extent(y, r, h);
    var m := WhitePixel(w, h, r, y, x);
    WhiteWindowSum(w, h, R, Low(x, r, w), High(x, r, w), Low(y, r, h), High(y, r, h));
    Darker(nx, ny, m);
    TooDark(nx, ny, Wrap(m * ny) / ny);
    assert !AccurateAt(White(w, h), w, h, r, y, x, R);
  }

  lemma Darker(nx: int, ny: int, m: int)
    requires 0 < nx < U32 && 0 < ny < U32 && (255 * nx >= U32 || 255 * ny >= U32)
    requires m == Wrap(255 * nx) / nx && 0 <= m <= 255
    ensures 0 <= m * ny && Wrap(m * ny) / ny <= 253
  {
    if 255 * nx >= U32 {
      WrappedIsLow(nx);
      LowMean(m, ny);
    } else {
      MeanOfEqual(255, nx);
      WrappedIsLow(ny);
    }
  }

  lemma LowMean(m: int, n: int)
    requires 0 <= m <= 253 && 0 < n
    ensures 0 <= m * n && Wrap(m * n) / n <= 253
  {
    Times(n, 0, m);
    Times(n, m, 253);
    MeanAtMost(Wrap(m * n), n, 253);
  }

  lemma MeanOfEqual(m: int, n: int)
    requires 0 < n
    ensures m * n / n == m
  {
    MeanAtMost(m * n, n, m);
    MeanAtLeast(m * n, n, m);
  }

  lemma TooDark(nx: int, ny: int, v: int)
    requires 0 < nx && 0 < ny && v <= 253
    ensures !WithinTwo(nx, ny, v, 255 * nx * ny)
  {
    var n := nx * ny;
    assert 255 * nx * ny == n * 255;
    if 0 < n {
      Times(n, v + 2, 255);
    }
  }

  /** The error bound holds for every picture of a size exactly when no 32-bit window sum
      of that size can wrap. */
  lemma AccurateExactly(w: int, h: int, r: int)
    requires 0 < w < U32 && 0 < h < U32 && 0 <= r
    ensures NoWrap(w, h, r) <==> forall s | PxShape(s, w, h) && AtMost(s, 255) :: Accurate(s, w, h, r)
  {
    if NoWrap(w, h, r) {
      forall s | PxShape(s, w, h) && AtMost(s, 255) ensures Accurate(s, w, h, r) {
        NoWrapIsAccurate(s, w, h, r);
      }
    } else {
      WhiteIsInaccurate(w, h, r);
    }
  }

  /** The radius after defaulting and clamping to the region. */
  function Radius(radius: int, w: int, h: int): int {
    Min(Min(if radius <= 0 then 1 else radius, w), h)
  }

  /** q lies inside a w by h picture and is not empty. */
  predicate Fits(q: Rect, w: int, h: int) {
    0 <= q.minX < q.maxX <= w && 0 <= q.minY < q.maxY <= h
  }

  ghost function CropPixel(rows: Rows, w: int, h: int, q: Rect, y: int, x: int): (p: Px)
    requires Shape(rows, w, h) && Fits(q, w, h) && 0 <= y < q.Dy() && 0 <= x < q.Dx()
    ensures Small(p) && p == Of(rows[q.minY + y][q.minX + x])
  {
    Of(rows[q.minY + y][q.minX + x])
  }

  ghost function Crop(rows: Rows, w: int, h: int, q: Rect): (s: PxRows)
    requires Shape(rows, w, h) && Fits(q, w, h)
    ensures PxShape(s, q.Dx(), q.Dy()) && AtMost(s, 255)
    ensures forall y, x {:trigger s[y][x]} | 0 <= y < q.Dy() && 0 <= x < q.Dx() ::
              s[y][x] == CropPixel(rows, w, h, q, y, x)
  {
    var s := seq(q.Dy(), y requires 0 <= y < q.Dy() =>
      seq(q.Dx(), x requires 0 <= x < q.Dx() => CropPixel(rows, w, h, q, y, x)));
    s
  }

  function Narrow(p: Px): RGBA
    requires Small(p)
  {
    RGBA(p.r, p.g, p.b, p.a)
  }

  /** What blurring q makes of pixel (x, y), given the blurred region. */
  ghost function PixelAfter(rows: Rows, w: int, h: int, q: Rect, u: PxRows, y: int, x: int): (p: RGBA)
    requires Shape(rows, w, h) && Fits(q, w, h) && PxShape(u, q.Dx(), q.Dy()) && AtMost(u, 255)
    requires 0 <= y < h && 0 <= x < w
    ensures if q.Has(x, y) then Of(p) == u[y - q.minY][x - q.minX] else p == rows[y][x]
  {
    if q.Has(x, y) then NarrowAt(u, y - q.minY, x - q.minX) else rows[y][x]
  }

  /** The picture after blurring q: both passes inside, untouched outside. */
  ghost function BlurredRows(rows: Rows, w: int, h: int, q: Rect, radius: int): (out: Rows)
    requires Shape(rows, w, h) && Fits(q, w, h)
    ensures Shape(out, w, h)
    ensures forall y, x {:trigger out[y][x]} | 0 <= y < h && 0 <= x < w ::
              out[y][x] == PixelAfter(rows, w, h, q, BlurredRegion(rows, w, h, q, radius), y, x)
  {
    var u := BlurredRegion(rows, w, h, q, radius);
    seq(h, y requires 0 <= y < h => seq(w, x requires 0 <= x < w => PixelAfter(rows, w, h, q, u, y, x)))
  }

  ghost function NarrowAt(u: PxRows, y: int, x: int): (p: RGBA)
    requires AtMost(u, 255) && 0 <= y < |u| && 0 <= x < |u[y]|
    ensures Of(p) == u[y][x]
  {
    assert Value(u[y][x], R) <= 255 && Value(u[y][x], G) <= 255 && Value(u[y][x], B) <= 255 && Value(u[y][x], A) <= 255;
    Narrow(u[y][x])
  }

  ghost function BlurredRegion(rows: Rows, w: int, h: int, q: Rect, radius: int): (u: PxRows)
    requires Shape(rows, w, h) && Fits(q, w, h)
    ensures PxShape(u, q.Dx(), q.Dy()) && AtMost(u, 255)
  {
    var r := Radius(radius, q.Dx(), q.Dy());
    ColsPassed(RowsPassed(Crop(rows, w, h, q), q.Dx(), q.Dy(), r), q.Dx(), q.Dy(), r)
  }

  lemma BlurredAt(rows: Rows, w: int, h: int, q: Rect, radius: int, y: int, x: int)
    requires Shape(rows, w, h) && Fits(q, w, h) && q.Has(x, y) && 0 <= y < h && 0 <= x < w
    ensures Of(BlurredRows(rows, w, h, q, radius)[y][x])
         == BlurredRegion(rows, w, h, q, radius)[y - q.minY][x - q.minX]
  {
    PixelInside(rows, w, h, q, BlurredRegion(rows, w, h, q, radius), y, x);
  }

  lemma PixelInside(rows: Rows, w: int, h: int, q: Rect, u: PxRows, y: int, x: int)
    requires Shape(rows, w, h) && Fits(q, w, h) && PxShape(u, q.Dx(), q.Dy()) && AtMost(u, 255)
    requires q.Has(x, y) && 0 <= y < h && 0 <= x < w
    ensures Of(PixelAfter(rows, w, h, q, u, y, x)) == u[y - q.minY][x - q.minX]
  {
  }

  /** The two exact passes behind one pixel of a blurred region whose sums do not wrap. */
  lemma PassesBehind(rows: Rows, w: int, h: int, q: Rect, radius: int, y: int, x: int) returns (t: PxRows, u: PxRows)
    requires Shape(rows, w, h) && Fits(q, w, h) && q.Has(x, y) && 0 <= y < h && 0 <= x < w
    requires NoWrap(q.Dx(), q.Dy(), Radius(radius, q.Dx(), q.Dy()))
    ensures PxShape(t, q.Dx(), q.Dy()) && PxShape(u, q.Dx(), q.Dy())
    ensures RowPass(Crop(rows, w, h, q), t, q.Dx(), q.Dy(), Radius(radius, q.Dx(), q.Dy()))
    ensures ColPass(t, u, q.Dx(), q.Dy(), Radius(radius, q.Dx(), q.Dy()))
    ensures Of(BlurredRows(rows, w, h, q, radius)[y][x]) == u[y - q.minY][x - q.minX]
  {
    var s, r := Crop(rows, w, h, q), Radius(radius, q.Dx(), q.Dy());
    BlurredAt(rows, w, h, q, radius, y, x);
    t := RowsPassed(s, q.Dx(), q.Dy(), r);
    u := ColsPassed(t, q.Dx(), q.Dy(), r);
    RowsPassedExactly(s, q.Dx(), q.Dy(), r);
    ColsPassedExactly(t, q.Dx(), q.Dy(), r);
  }

  /** Band c of pixel (x, y) of out is at most the exact mean of its clipped window in rows,
      and less than 2 below it. */
  ghost predicate AccuratePixel(rows: Rows, out: Rows, w: int, h: int, q: Rect, radius: int, y: int, x: int, c: Band)
    requires Shape(rows, w, h) && Shape(out, w, h) && Fits(q, w, h) && q.Has(x, y) && 0 <= y < h && 0 <= x < w
  {
    var s, r := Crop(rows, w, h, q), Radius(radius, q.Dx(), q.Dy());
    var i, j := x - q.minX, y - q.minY;
    WithinTwo(Extent(i, r, q.Dx()), Extent(j, r, q.Dy()), Value(Of(out[y][x]), c),
              WindowSum(s, c, Low(i, r, q.Dx()), High(i, r, q.Dx()), Low(j, r, q.Dy()), High(j, r, q.Dy())))
  }

  /** Every pixel a blur writes is accurate as long as no window sum of the region can
      wrap. */
  lemma BlurredPixel(rows: Rows, w: int, h: int, q: Rect, radius: int, y: int, x: int, c: Band)
    requires Shape(rows, w, h) && Fits(q, w, h) && q.Has(x, y) && 0 <= y < h && 0 <= x < w
    requires NoWrap(q.Dx(), q.Dy(), Radius(radius, q.Dx(), q.Dy()))
    ensures AccuratePixel(rows, BlurredRows(rows, w, h, q, radius), w, h, q, radius, y, x, c)
  {
    var s, r := Crop(rows, w, h, q), Radius(radius, q.Dx(), q.Dy());
    BlurredAt(rows, w, h, q, radius, y, x);
    NoWrapIsAccurate(s, q.Dx(), q.Dy(), r);
    assert AccurateAt(s, q.Dx(), q.Dy(), r, y - q.minY, x - q.minX, c);
  }

  /** It also stays between the region's extremes, and premultiplied if the region was. */
  lemma BlurredPixelRange(rows: Rows, w: int, h: int, q: Rect, radius: int, y: int, x: int, c: Band, bottom: int,
                          top: int)
    requires Shape(rows, w, h) && Fits(q, w, h) && q.Has(x, y) && 0 <= y < h && 0 <= x < w
    requires NoWrap(q.Dx(), q.Dy(), Radius(radius, q.Dx(), q.Dy()))
    requires Between(Crop(rows, w, h, q), c, bottom, top)
    ensures var v := Of(BlurredRows(rows, w, h, q, radius)[y][x]);
            && bottom <= Value(v, c) <= top
            && (Premultiplied(Crop(rows, w, h, q)) ==> Value(v, c) <= Value(v, A))
  {
    var t, u := PassesBehind(rows, w, h, q, radius, y, x);
    var s, r := Crop(rows, w, h, q), Radius(radius, q.Dx(), q.Dy());
    BlurKeepsRange(s, t, u, q.Dx(), q.Dy(), r, c, bottom, top);
    if Premultiplied(s) {
      BlurKeepsPremultiplied(s, t, u, q.Dx(), q.Dy(), r);
      assert Value(u[y - q.minY][x - q.minX], c) <= Value(u[y - q.minY][x - q.minX], A);
    }
  }

  // ---------- the blur in terms of the picture alone ----------

  function Channel(p: RGBA, c: Band): Channel {
    match c
    case R => p.r
    case G => p.g
    case B => p.b
    case A => p.a
  }

  /** The sum of a band over pixels x0..x1 of row y. */
  ghost function LineSum(rows: Rows, c: Band, y: int, x0: int, x1: int): int
    requires 0 <= y < |rows| && 0 <= x0 && x1 <= |rows[y]|
  {
    if x1 <= x0 then 0 else LineSum(rows, c, y, x0, x1 - 1) + Channel(rows[y][x1 - 1], c)
  }

  ghost function PictureSum(rows: Rows, w: int, h: int, c: Band, x0: int, x1: int, y0: int, y1: int): int
    requires Shape(rows, w, h) && 0 <= x0 && x1 <= w && 0 <= y0 && y1 <= h
  {
    if y1 <= y0 then 0
    else PictureSum(rows, w, h, c, x0, x1, y0, y1 - 1) + LineSum(rows, c, y1 - 1, x0, x1)
  }

  lemma {:induction false} LineIsRow(rows: Rows, w: int, h: int, q: Rect, c: Band, y: int, lo: int, hi: int)
    requires Shape(rows, w, h) && Fits(q, w, h) && 0 <= y < q.Dy() && 0 <= lo && hi <= q.Dx()
    ensures RowSum(Crop(rows, w, h, q), c, y, lo, hi) == LineSum(rows, c, q.minY + y, q.minX + lo, q.minX + hi)
  {
    if lo < hi {
      LineIsRow(rows, w, h, q, c, y, lo, hi - 1);
      assert Crop(rows, w, h, q)[y][hi - 1] == CropPixel(rows, w, h, q, y, hi - 1);
    }
  }

  lemma {:induction false} PictureIsWindow(rows: Rows, w: int, h: int, q: Rect, c: Band,
                                           xlo: int, xhi: int, ylo: int, yhi: int)
    requires Shape(rows, w, h) && Fits(q, w, h) && 0 <= xlo && xhi <= q.Dx() && 0 <= ylo && yhi <= q.Dy()
    ensures WindowSum(Crop(rows, w, h, q), c, xlo, xhi, ylo, yhi)
            == PictureSum(rows, w, h, c, q.minX + xlo, q.minX + xhi, q.minY + ylo, q.minY + yhi)
  {
    if ylo < yhi {
      PictureIsWindow(rows, w, h, q, c, xlo, xhi, ylo, yhi - 1);
      LineIsRow(rows, w, h, q, c, yhi - 1, xlo, xhi);
    }
  }

  /** The radius used: 1 unless a positive one is asked for, and never beyond either side. */
  lemma RadiusExactly(radius: int, w: int, h: int)
    requires 1 <= w && 1 <= h
    ensures var r := Radius(radius, w, h);
            && 1 <= r <= w && r <= h
            && (radius < 1 ==> r == 1)
            && (1 <= radius <= w && radius <= h ==> r == radius)
            && (radius > w || radius > h ==> r == w || r == h)
  {
  }

  /** The window of a place: the places of the side at most r away. */
  lemma WindowExactly(at: int, r: int, n: int, i: int)
    requires 0 <= at < n && 0 <= r
    ensures Low(at, r, n) <= i < High(at, r, n) <==> 0 <= i < n && at - r <= i <= at + r
  {
  }

  lemma ChannelIsValue(p: RGBA, c: Band)
    ensures Channel(p, c) == Value(Of(p), c)
  {
  }

  lemma BlurredNear(rows: Rows, w: int, h: int, q: Rect, radius: int, y: int, x: int, c: Band, r: int,
                    xlo: int, xhi: int, ylo: int, yhi: int, nx: int, ny: int, v: int, total: int)
    requires Shape(rows, w, h) && Fits(q, w, h) && q.Has(x, y) && 0 <= y < h && 0 <= x < w
    requires r == Radius(radius, q.Dx(), q.Dy()) && NoWrap(q.Dx(), q.Dy(), r)
    requires xlo == Low(x - q.minX, r, q.Dx()) && xhi == High(x - q.minX, r, q.Dx())
    requires ylo == Low(y - q.minY, r, q.Dy()) && yhi == High(y - q.minY, r, q.Dy())
    requires 0 <= xlo && xhi <= q.Dx() && 0 <= ylo && yhi <= q.Dy()
    requires nx == Extent(x - q.minX, r, q.Dx()) && ny == Extent(y - q.minY, r, q.Dy())
    requires v == Value(Of(BlurredRows(rows, w, h, q, radius)[y][x]), c)
    requires total == WindowSum(Crop(rows, w, h, q), c, xlo, xhi, ylo, yhi)
    ensures WithinTwo(nx, ny, v, total)
  {
    BlurredPixel(rows, w, h, q, radius, y, x, c);
  }

  /** The same sum, counted from the corner of the picture. */
  lemma SumFromCorner(rows: Rows, w: int, h: int, q: Rect, c: Band, x0: int, x1: int, y0: int, y1: int,
                      xlo: int, xhi: int, ylo: int, yhi: int, total: int)
    requires Shape(rows, w, h) && Fits(q, w, h)
    requires 0 <= xlo && xhi <= q.Dx() && 0 <= ylo && yhi <= q.Dy()
    requires x0 == q.minX + xlo && x1 == q.minX + xhi && y0 == q.minY + ylo && y1 == q.minY + yhi
    requires total == PictureSum(rows, w, h, c, x0, x1, y0, y1)
    ensures total == WindowSum(Crop(rows, w, h, q), c, xlo, xhi, ylo, yhi)
  {
    PictureIsWindow(rows, w, h, q, c, xlo, xhi, ylo, yhi);
  }

  lemma BlurredWindow(rows: Rows, w: int, h: int, q: Rect, radius: int, y: int, x: int, c: Band, r: int,
                      x0: int, x1: int, y0: int, y1: int, xlo: int, xhi: int, ylo: int, yhi: int,
                      nx: int, ny: int, v: int, total: int)
    requires Shape(rows, w, h) && Fits(q, w, h) && q.Has(x, y) && 0 <= y < h && 0 <= x < w
    requires r == Radius(radius, q.Dx(), q.Dy()) && NoWrap(q.Dx(), q.Dy(), r)
    requires x0 == q.minX + xlo && x1 == q.minX + xhi && y0 == q.minY + ylo && y1 == q.minY + yhi
    requires xlo == Low(x - q.minX, r, q.Dx()) && xhi == High(x - q.minX, r, q.Dx())
    requires ylo == Low(y - q.minY, r, q.Dy()) && yhi == High(y - q.minY, r, q.Dy())
    requires 0 <= xlo && xhi <= q.Dx() && 0 <= ylo && yhi <= q.Dy()
    requires nx == Extent(x - q.minX, r, q.Dx()) && ny == Extent(y - q.minY, r, q.Dy())
    requires v == Channel(BlurredRows(rows, w, h, q, radius)[y][x], c)
    requires total == PictureSum(rows, w, h, c, x0, x1, y0, y1)
    ensures WithinTwo(nx, ny, v, total)
  {
    ChannelIsValue(BlurredRows(rows, w, h, q, radius)[y][x], c);
    SumFromCorner(rows, w, h, q, c, x0, x1, y0, y1, xlo, xhi, ylo, yhi, total);
    BlurredNear(rows, w, h, q, radius, y, x, c, r, xlo, xhi, ylo, yhi, nx, ny, v, total);
  }

  /** The window of a place, counted from the corner of the picture. */
  lemma CornerWindow(at: int, r: int, lo: int, hi: int, a0: int, a1: int)
    requires lo <= at < hi && 0 <= r && a0 == Max(lo, at - r) && a1 == Min(hi, at + r + 1)
    ensures lo <= a0 <= at < a1 <= hi
    ensures a0 - lo == Low(at - lo, r, hi - lo) && a1 - lo == High(at - lo, r, hi - lo)
    ensures a1 - a0 == Extent(at - lo, r, hi - lo)
  {
  }

  /** Every band of every pixel of a blurred region, read off the picture: of the nx by ny
      pixels of the region at most r away along each axis, those in [x0, x1) by [y0, y1),
      total is the sum before the blur, and the value v written is at most the mean and less
      than 2 below it. */
  lemma BlurredInPicture(rows: Rows, w: int, h: int, q: Rect, radius: int, y: int, x: int, c: Band, r: int,
                         x0: int, x1: int, y0: int, y1: int, nx: int, ny: int, v: int, total: int)
    requires Shape(rows, w, h) && Fits(q, w, h) && q.Has(x, y) && 0 <= y < h && 0 <= x < w
    requires r == Radius(radius, q.Dx(), q.Dy()) && NoWrap(q.Dx(), q.Dy(), r)
    requires x0 == Max(q.minX, x - r) && x1 == Min(q.maxX, x + r + 1) && nx == x1 - x0
    requires y0 == Max(q.minY, y - r) && y1 == Min(q.maxY, y + r + 1) && ny == y1 - y0
    requires v == Channel(BlurredRows(rows, w, h, q, radius)[y][x], c)
    requires 0 <= x0 && x1 <= w && 0 <= y0 && y1 <= h && total == PictureSum(rows, w, h, c, x0, x1, y0, y1)
    ensures 0 < nx * ny && (nx * ny) * v <= total < (nx * ny) * (v + 2)
  {
    RadiusExactly(radius, q.Dx(), q.Dy());
    CornerWindow(x, r, q.minX, q.maxX, x0, x1);
    CornerWindow(y, r, q.minY, q.maxY, y0, y1);
    var xlo, xhi, ylo, yhi := x0 - q.minX, x1 - q.minX, y0 - q.minY, y1 - q.minY;
    BlurredWindow(rows, w, h, q, radius, y, x, c, r, x0, x1, y0, y1, xlo, xhi, ylo, yhi, nx, ny, v, total);
  }

  lemma CropIsPremultiplied(rows: Rows, w: int, h: int, q: Rect)
    requires Shape(rows, w, h) && Fits(q, w, h) && PremultipliedRows(rows)
    ensures Premultiplied(Crop(rows, w, h, q))
  {
    var s := Crop(rows, w, h, q);
    forall y, x, c | 0 <= y < |s| && 0 <= x < |s[y]| ensures Value(s[y][x], c) <= Value(s[y][x], A) {
      assert s[y][x] == Of(rows[q.minY + y][q.minX + x]);
    }
  }

  /** A blur whose sums do not wrap keeps a premultiplied picture premultiplied. */
  lemma BlurredIsPremultiplied(rows: Rows, w: int, h: int, q: Rect, radius: int)
    requires Shape(rows, w, h) && Fits(q, w, h) && PremultipliedRows(rows)
    requires NoWrap(q.Dx(), q.Dy(), Radius(radius, q.Dx(), q.Dy()))
    ensures PremultipliedRows(BlurredRows(rows, w, h, q, radius))
  {
    var out := BlurredRows(rows, w, h, q, radius);
    CropIsPremultiplied(rows, w, h, q);
    forall y, x | 0 <= y < |out| && 0 <= x < |out[y]| ensures PremultipliedPixel(out[y][x]) {
      if q.Has(x, y) {
        BlurredPixelRange(rows, w, h, q, radius, y, x, R, 0, 255);
        BlurredPixelRange(rows, w, h, q, radius, y, x, G, 0, 255);
        BlurredPixelRange(rows, w, h, q, radius, y, x, B, 0, 255);
      }
    }
  }

  // ---------- the in-place blur ----------

  /** The picture an image buffer holds. */
  function Picture(img: array2<RGBA>): (rows: Rows)
    reads img
    ensures Shape(rows, img.Length1, img.Length0)
    ensures forall y, x {:trigger rows[y][x]} | 0 <= y < img.Length0 && 0 <= x < img.Length1 :: rows[y][x] == img[y, x]
  {
    seq(img.Length0, y requires 0 <= y < img.Length0 reads img =>
      seq(img.Length1, x requires 0 <= x < img.Length1 reads img => img[y, x]))
  }

  /** Cell (j, k) comes before (y, x) in the order the loops visit cells. */
  predicate Earlier(j: int, k: int, y: int, x: int) {
    j < y || (j == y && k < x)
  }

  /** Buffer a agrees with s on every cell before (y, x). */
  ghost predicate FilledUpTo(a: array2<Px>, s: PxRows, y: int, x: int)
    requires PxShape(s, a.Length1, a.Length0)
    reads a
  {
    forall j, k {:trigger a[j, k]} | 0 <= j < a.Length0 && 0 <= k < a.Length1 && Earlier(j, k, y, x) ::
      a[j, k] == s[j][k]
  }

  /** Copies the region out, so that the passes sample original pixels. */
  method Snapshot(img: array2<RGBA>, q: Rect) returns (src: array2<Px>)
    requires Fits(q, img.Length1, img.Length0)
    ensures fresh(src) && src.Length1 == q.Dx() && src.Length0 == q.Dy()
    ensures Holds(src, Crop(Picture(img), img.Length1, img.Length0, q))
  {
    var w, h := q.Dx(), q.Dy();
    ghost var s := Crop(Picture(img), img.Length1, img.Length0, q);
    src := new Px[h, w];
    for y := 0 to h
      invariant FilledUpTo(src, s, y, 0)
    {
      for x := 0 to w
        invariant FilledUpTo(src, s, y, x)
      {
        assert s[y][x] == Of(img[q.minY + y, q.minX + x]);
        src[y, x] := Of(img[q.minY + y, q.minX + x]);
      }
    }
  }

  /** The horizontal pass into a second buffer. */
  method RowsInto(src: array2<Px>, ghost s: PxRows, r: int) returns (tmp: array2<Px>)
    requires PxShape(s, src.Length1, src.Length0) && Holds(src, s) && AtMost(s, 255)
    requires 0 <= r && CountFits(src.Length1, r)
    ensures fresh(tmp) && tmp.Length0 == src.Length0 && tmp.Length1 == src.Length1
    ensures Holds(tmp, RowsPassed(s, src.Length1, src.Length0, r))
  {
    var w, h := src.Length1, src.Length0;
    ghost var t := RowsPassed(s, w, h, r);
    tmp := new Px[h, w];
    for y := 0 to h
      invariant FilledUpTo(tmp, t, y, 0)
    {
      for x := 0 to w
        invariant FilledUpTo(tmp, t, y, x)
      {
        var p := MeanOfRow(src, s, y, x, r);
        assert p == t[y][x] by {
          SamePixel(p, RowPixel(s, w, h, r, y, x));
        }
        tmp[y, x] := p;
      }
    }
  }

  /** The cells of q before (y, x) are written, everything else is as it was. */
  ghost predicate PaintedUpTo(img: array2<RGBA>, before: Rows, q: Rect, u: PxRows, y: int, x: int)
    requires Shape(before, img.Length1, img.Length0) && Fits(q, img.Length1, img.Length0)
    requires PxShape(u, q.Dx(), q.Dy()) && AtMost(u, 255)
    reads img
  {
    forall j, k {:trigger img[j, k]} | 0 <= j < img.Length0 && 0 <= k < img.Length1 ::
      img[j, k] == if Earlier(j - q.minY, k - q.minX, y, x)
                   then PixelAfter(before, img.Length1, img.Length0, q, u, j, k)
                   else before[j][k]
  }

  /** Writes the next cell back to the image. */
  method PaintCell(img: array2<RGBA>, q: Rect, y: int, x: int, p: Px, ghost before: Rows, ghost u: PxRows)
    requires Fits(q, img.Length1, img.Length0) && Shape(before, img.Length1, img.Length0)
    requires PxShape(u, q.Dx(), q.Dy()) && AtMost(u, 255) && 0 <= y < q.Dy() && 0 <= x < q.Dx()
    requires Small(p) && p == u[y][x] && PaintedUpTo(img, before, q, u, y, x)
    modifies img
    ensures PaintedUpTo(img, before, q, u, y, x + 1)
  {
    img[q.minY + y, q.minX + x] := Narrow(p);
  }

  /** Row y of the vertical pass, written back to the image. */
  method ColsIntoRow(tmp: array2<Px>, ghost t: PxRows, img: array2<RGBA>, q: Rect, r: int, y: int,
                     ghost before: Rows, ghost u: PxRows)
    requires Fits(q, img.Length1, img.Length0) && Shape(before, img.Length1, img.Length0)
    requires tmp.Length1 == q.Dx() && tmp.Length0 == q.Dy() && PxShape(t, q.Dx(), q.Dy())
    requires Holds(tmp, t) && AtMost(t, 255) && 0 <= r && CountFits(q.Dy(), r)
    requires u == ColsPassed(t, q.Dx(), q.Dy(), r) && 0 <= y < q.Dy()
    requires PaintedUpTo(img, before, q, u, y, 0)
    modifies img
    ensures PaintedUpTo(img, before, q, u, y + 1, 0)
  {
    var w, h := q.Dx(), q.Dy();
    for x := 0 to w
      invariant Holds(tmp, t)
      invariant PaintedUpTo(img, before, q, u, y, x)
    {
      var p := MeanOfCol(tmp, t, y, x, r);
      SamePixel(p, ColPixel(t, w, h, r, y, x));
      PaintCell(img, q, y, x, p, before, u);
    }
  }

  /** The vertical pass, written back to the image. */
  method ColsInto(tmp: array2<Px>, ghost t: PxRows, img: array2<RGBA>, q: Rect, r: int)
    requires Fits(q, img.Length1, img.Length0)
    requires tmp.Length1 == q.Dx() && tmp.Length0 == q.Dy() && PxShape(t, q.Dx(), q.Dy())
    requires Holds(tmp, t) && AtMost(t, 255) && 0 <= r && CountFits(q.Dy(), r)
    modifies img
    ensures PaintedUpTo(img, old(Picture(img)), q, ColsPassed(t, q.Dx(), q.Dy(), r), q.Dy(), 0)
  {
    ghost var before, u := Picture(img), ColsPassed(t, q.Dx(), q.Dy(), r);
    for y := 0 to q.Dy()
      invariant Holds(tmp, t)
      invariant PaintedUpTo(img, before, q, u, y, 0)
    {
      ColsIntoRow(tmp, t, img, q, r, y, before, u);
    }
  }

  /** Blurs region q of the image in place. An empty region is left alone; the snapshot of
      any other must be one that can be allocated. */
  method BlurRegion(img: array2<RGBA>, q: Rect, radius: int)
    requires q.Empty() || (Fits(q, img.Length1, img.Length0) && q.Dx() * q.Dy() < TWO63)
    modifies img
    ensures q.Empty() ==> Picture(img) == old(Picture(img))
    ensures !q.Empty() ==> Picture(img) == BlurredRows(old(Picture(img)), img.Length1, img.Length0, q, radius)
  {
    var r := radius;
    if r <= 0 {
      r := 1;
    }
    var w, h := q.Dx(), q.Dy();
    if w <= 0 || h <= 0 {
      return;
    }
    if r > w {
      r := w;
    }
    if r > h {
      r := h;
    }
    CountsFit(w, h, r);
    ghost var before := Picture(img);
    ghost var s := Crop(before, img.Length1, img.Length0, q);
    var src := Snapshot(img, q);
    var tmp := RowsInto(src, s, r);
    ColsInto(tmp, RowsPassed(s, w, h, r), img, q, r);
    SamePicture(Picture(img), BlurredRows(before, img.Length1, img.Length0, q, radius), img.Length1, img.Length0);
  }

  lemma SamePicture(a: Rows, b: Rows, w: int, h: int)
    requires Shape(a, w, h) && Shape(b, w, h)
    requires forall y, x {:trigger a[y][x]} {:trigger b[y][x]} | 0 <= y < h && 0 <= x < w :: a[y][x] == b[y][x]
    ensures a == b
  {
    forall y | 0 <= y < h ensures a[y] == b[y] {
    }
  }
}
