/** The HSV colour band used by both colour detectors: a tolerance box
    around the template's mean colour, clamped to OpenCV's 8-bit HSV ranges
    (hue 0..179, saturation and value 0..255), and the inclusive per-pixel
    test of cv2.inRange. */
module ColorBand {
  import opened Sampling

  const HueMax: int := 179
  const ChannelMax: int := 255

  datatype Pixel = Pixel(h: int, s: int, v: int)

  /** A triple of per-channel values: means, tolerances or bounds. */
  datatype Hsv = Hsv(h: real, s: real, v: real)

  datatype Band = Band(lower: Hsv, upper: Hsv)

  predicate ValidPixel(p: Pixel) {
    0 <= p.h <= HueMax && 0 <= p.s <= ChannelMax && 0 <= p.v <= ChannelMax
  }

  function Max(a: real, b: real): real { if a >= b then a else b }
  function Min(a: real, b: real): real { if a <= b then a else b }

  /** lower = max(0, mean - tol) and upper = min(channel max, mean + tol),
      channel by channel. */
  function MakeBand(mean: Hsv, tol: Hsv): (b: Band)
    ensures b.lower.h >= 0.0 && b.lower.s >= 0.0 && b.lower.v >= 0.0
    ensures b.upper.h <= HueMax as real && b.upper.s <= ChannelMax as real && b.upper.v <= ChannelMax as real
    ensures b.lower.h >= mean.h - tol.h && b.lower.s >= mean.s - tol.s && b.lower.v >= mean.v - tol.v
    ensures b.upper.h <= mean.h + tol.h && b.upper.s <= mean.s + tol.s && b.upper.v <= mean.v + tol.v
  {
    Band(Hsv(Max(0.0, mean.h - tol.h), Max(0.0, mean.s - tol.s), Max(0.0, mean.v - tol.v)),
         Hsv(Min(HueMax as real, mean.h + tol.h), Min(ChannelMax as real, mean.s + tol.s), Min(ChannelMax as real, mean.v + tol.v)))
  }

  /** cv2.inRange: every channel inclusively between the bounds. */
  predicate InBand(p: Pixel, b: Band) {
    && b.lower.h <= p.h as real <= b.upper.h
    && b.lower.s <= p.s as real <= b.upper.s
    && b.lower.v <= p.v as real <= b.upper.v
  }

  /** cvRound: the nearest integer, a tie going to the even neighbour. */
  function RoundHalfEven(x: real): (n: int)
    ensures x - 0.5 <= n as real <= x + 0.5
    ensures x - 0.5 < n as real < x + 0.5 || n % 2 == 0
  {
    var f := x.Floor;
    var d := x - f as real;
    if d < 0.5 then f
    else if d > 0.5 then f + 1
    else if f % 2 == 0 then f else f + 1
  }

  function RoundHsv(t: Hsv): Hsv {
    Hsv(RoundHalfEven(t.h) as real, RoundHalfEven(t.s) as real, RoundHalfEven(t.v) as real)
  }

  /** cv2.inRange on an 8-bit image first converts fractional bounds to
      the image's integer depth, each to its nearest integer. */
  function RoundBand(b: Band): Band {
    Band(RoundHsv(b.lower), RoundHsv(b.upper))
  }

  /** The band widened by d on both sides of every channel. */
  function Widen(b: Band, d: real): Band {
    Band(Hsv(b.lower.h - d, b.lower.s - d, b.lower.v - d), Hsv(b.upper.h + d, b.upper.s + d, b.upper.v + d))
  }

  /** Every channel strictly between the bounds. */
  predicate StrictlyInBand(p: Pixel, b: Band) {
    && b.lower.h < p.h as real < b.upper.h
    && b.lower.s < p.s as real < b.upper.s
    && b.lower.v < p.v as real < b.upper.v
  }

  /** One channel of the rounded test: an integer passes the rounded bounds
      only within half a unit of the exact ones, and always strictly inside
      that half-unit margin. */
  lemma RoundedChannel(x: int, lo: real, hi: real)
    ensures RoundHalfEven(lo) <= x <= RoundHalfEven(hi) ==> lo - 0.5 <= x as real <= hi + 0.5
    ensures lo - 0.5 < x as real < hi + 0.5 ==> RoundHalfEven(lo) <= x <= RoundHalfEven(hi)
  {
  }

  /** The rounded band accepts a pixel that lies within half a unit of the
      exact band, and no pixel further out. */
  lemma RoundedBandWithinHalf(p: Pixel, b: Band)
    ensures InBand(p, RoundBand(b)) ==> InBand(p, Widen(b, 0.5))
    ensures StrictlyInBand(p, Widen(b, 0.5)) ==> InBand(p, RoundBand(b))
  {
    RoundedChannel(p.h, b.lower.h, b.upper.h);
    RoundedChannel(p.s, b.lower.s, b.upper.s);
    RoundedChannel(p.v, b.lower.v, b.upper.v);
  }

  lemma RoundWhole(k: int)
    ensures RoundHalfEven(k as real) == k
  {
  }

  /** The bound max(0, m - t) or min(top, m + t) of whole numbers is whole. */
  lemma ClampedWhole(m: int, t: int, top: int)
    ensures Max(0.0, m as real - t as real) == (if m - t >= 0 then m - t else 0) as real
    ensures Min(top as real, m as real + t as real) == (if top <= m + t then top else m + t) as real
  {
  }

  /** A band around a whole-number mean with whole-number tolerances is
      not changed by the rounding. */
  lemma WholeBandUnrounded(h: int, s: int, v: int, th: int, ts: int, tv: int)
    ensures var b := MakeBand(Hsv(h as real, s as real, v as real), Hsv(th as real, ts as real, tv as real));
            RoundBand(b) == b
  {
    ClampedWhole(h, th, HueMax);
    ClampedWhole(s, ts, ChannelMax);
    ClampedWhole(v, tv, ChannelMax);
    RoundWhole(if h - th >= 0 then h - th else 0);
    RoundWhole(if s - ts >= 0 then s - ts else 0);
    RoundWhole(if v - tv >= 0 then v - tv else 0);
    RoundWhole(if HueMax <= h + th then HueMax else h + th);
    RoundWhole(if ChannelMax <= s + ts then ChannelMax else s + ts);
    RoundWhole(if ChannelMax <= v + tv then ChannelMax else v + tv);
  }

  /** A saturation mean of 100.3 gives the exact lower bound 50.3, which
      rejects a pixel of saturation 50; inRange's rounded bound 50 accepts it. */
  lemma RoundingAdmitsPixelBelowExactBound()
    ensures var b := MakeBand(Hsv(90.0, 100.3, 200.0), Hsv(15.0, 50.0, 50.0));
            && b.lower.s == 50.3
            && !InBand(Pixel(90, 50, 200), b)
            && InBand(Pixel(90, 50, 200), RoundBand(b))
  {
    var b := MakeBand(Hsv(90.0, 100.3, 200.0), Hsv(15.0, 50.0, 50.0));
    assert RoundHalfEven(50.3) == 50;
  }

  predicate MeanInRange(m: Hsv) {
    0.0 <= m.h <= HueMax as real && 0.0 <= m.s <= ChannelMax as real && 0.0 <= m.v <= ChannelMax as real
  }

  predicate NonNegative(t: Hsv) {
    t.h >= 0.0 && t.s >= 0.0 && t.v >= 0.0
  }

  function Abs(x: real): real { if x < 0.0 then -x else x }

  /** For a mean inside the channel ranges, lower <= mean <= upper on every
      channel, so the band is never empty. */
  lemma MeanInsideBand(mean: Hsv, tol: Hsv)
    requires MeanInRange(mean) && NonNegative(tol)
    ensures var b := MakeBand(mean, tol);
            && b.lower.h <= mean.h <= b.upper.h
            && b.lower.s <= mean.s <= b.upper.s
            && b.lower.v <= mean.v <= b.upper.v
  {
  }

  /** Clamping changes nothing for real pixels: a valid pixel is in the band
      exactly when each channel is within its tolerance of the mean. */
  lemma InBandWithinTolerance(p: Pixel, mean: Hsv, tol: Hsv)
    requires ValidPixel(p)
    ensures InBand(p, MakeBand(mean, tol)) <==>
              && Abs(p.h as real - mean.h) <= tol.h
              && Abs(p.s as real - mean.s) <= tol.s
              && Abs(p.v as real - mean.v) <= tol.v
  {
  }

  /** The in-band pixels of a region: np.sum(mask > 0) for its mask. */
  function CountRow(row: seq<Pixel>, b: Band): (n: nat)
    ensures n <= |row|
  {
    if row == [] then 0
    else CountRow(row[..|row| - 1], b) + (if InBand(row[|row| - 1], b) then 1 else 0)
  }

  function CountInBand(img: seq<seq<Pixel>>, b: Band): (n: nat)
    ensures n <= PixelCount(img)
  {
    if img == [] then 0 else CountInBand(img[..|img| - 1], b) + CountRow(img[|img| - 1], b)
  }

  function PixelCount(img: seq<seq<Pixel>>): nat {
    if img == [] then 0 else PixelCount(img[..|img| - 1]) + |img[|img| - 1]|
  }

  /** np.sum of the 0/255 mask. */
  function MaskSum(img: seq<seq<Pixel>>, b: Band): int {
    255 * CountInBand(img, b)
  }

  /** The count is exactly the number of in-band positions. */
  lemma {:induction false} CountRowCounts(row: seq<Pixel>, b: Band)
    ensures CountRow(row, b) == |set c | 0 <= c < |row| && InBand(row[c], b)|
  {
    if row != [] {
      var init := row[..|row| - 1];
      CountRowCounts(init, b);
      var before := set c | 0 <= c < |init| && InBand(init[c], b);
      var after := set c | 0 <= c < |row| && InBand(row[c], b);
      if InBand(row[|row| - 1], b) {
        assert after == before + {|row| - 1};
      } else {
        assert after == before;
      }
    }
  }

  /** Python slicing s[a:b] for non-negative a, b: clipped at the end. */
  function Slice<T>(s: seq<T>, a: nat, b: nat): (r: seq<T>)
    ensures |r| <= if b <= a then 0 else b - a
  {
    var lo := if a <= |s| then a else |s|;
    var hi := if b <= |s| then (if b >= lo then b else lo) else |s|;
    s[lo..hi]
  }

  /** hsv[y0:y0 + h, x0:x0 + w]. */
  function Roi(img: seq<seq<Pixel>>, x0: nat, y0: nat, w: nat, h: nat): (roi: seq<seq<Pixel>>)
    ensures |roi| <= h
    ensures forall r :: 0 <= r < |roi| ==> |roi[r]| <= w
  {
    var rows := Slice(img, y0, y0 + h);
    seq(|rows|, r requires 0 <= r < |rows| => Slice(rows[r], x0, x0 + w))
  }

  lemma {:induction false} PixelCountBound(img: seq<seq<Pixel>>, w: nat)
    requires forall r :: 0 <= r < |img| ==> |img[r]| <= w
    ensures PixelCount(img) <= |img| * w
  {
    if img != [] {
      PixelCountBound(img[..|img| - 1], w);
    }
  }

  /** The ROI never holds more than w*h pixels, so at most w*h are in band. */
  lemma RoiCountBound(img: seq<seq<Pixel>>, x0: nat, y0: nat, w: nat, h: nat, b: Band)
    ensures CountInBand(Roi(img, x0, y0, w, h), b) <= w * h
  {
    var roi := Roi(img, x0, y0, w, h);
    PixelCountBound(roi, w);
    assert |roi| * w <= h * w;
  }

  /** np.sum(mask > 0) / (w * h) on the template's rectangle. None when
      w*h is 0: numpy's 0/0 is NaN, and NaN > 0.5 is false. */
  function MatchRatio(img: seq<seq<Pixel>>, x0: nat, y0: nat, w: nat, h: nat, band: Band): (r: Option<real>)
    ensures r.Some? <==> w * h > 0
    ensures r.Some? ==> 0.0 <= r.value <= 1.0
  {
    var area := w * h;
    if area == 0 then None
    else
      var n := CountInBand(Roi(img, x0, y0, w, h), band);
      RoiCountBound(img, x0, y0, w, h, band);
      FractionAtMostOne(n, area);
      Some(n as real / area as real)
  }

  lemma FractionAtMostOne(n: nat, d: nat)
    requires 0 < d && n <= d
    ensures 0.0 <= n as real / d as real <= 1.0
  {
    assert n as real / d as real * d as real == n as real;
  }
}
