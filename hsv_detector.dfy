/** hsv_detector_from_template.py (lines 57-108): the template's mean HSV
    colour, truncated to integers, spans a band with tolerances 20/50/50;
    every int(fps)-th frame is then tested, either on the template's fixed
    rectangle (share of in-band pixels above one half) or, when the object
    moves, on every in-band region whose bounding box is at least half the
    template's area.

    The frames in HSV and the bounding boxes of the mask's outer contours
    (cv2.findContours and cv2.boundingRect) are inputs of the model. */
module HsvDetector {
  import opened Sampling
  import ColorBand

  const Tolerance: ColorBand.Hsv := ColorBand.Hsv(20.0, 50.0, 50.0)
  const RatioThreshold: real := 0.5
  const AreaFraction: real := 0.5

  /** Lines 59-66: int() of each channel mean, then the clamped band. */
  function TemplateBand(mean: ColorBand.Hsv): ColorBand.Band {
    ColorBand.MakeBand(ColorBand.Hsv(Trunc(mean.h) as real, Trunc(mean.s) as real, Trunc(mean.v) as real), Tolerance)
  }

  /** A template whose mean colour lies in the HSV ranges gets a band that
      holds its truncated mean on every channel, so the band is not empty. */
  lemma TemplateBandHoldsMean(mean: ColorBand.Hsv)
    requires ColorBand.MeanInRange(mean)
    ensures var b := TemplateBand(mean);
            && b.lower.h <= Trunc(mean.h) as real <= b.upper.h
            && b.lower.s <= Trunc(mean.s) as real <= b.upper.s
            && b.lower.v <= Trunc(mean.v) as real <= b.upper.v
            && ColorBand.InBand(ColorBand.Pixel(Trunc(mean.h), Trunc(mean.s), Trunc(mean.v)), b)
  {
    var m := ColorBand.Hsv(Trunc(mean.h) as real, Trunc(mean.s) as real, Trunc(mean.v) as real);
    assert ColorBand.MeanInRange(m);
    ColorBand.MeanInsideBand(m, Tolerance);
  }

  /** The truncated means give whole-number bounds, so inRange's rounding
      of the bounds changes nothing here. */
  lemma TemplateBandIsWhole(mean: ColorBand.Hsv)
    ensures ColorBand.RoundBand(TemplateBand(mean)) == TemplateBand(mean)
  {
    ColorBand.WholeBandUnrounded(Trunc(mean.h), Trunc(mean.s), Trunc(mean.v), 20, 50, 50);
  }

  datatype Meta = Meta(x0: nat, y0: nat, w: nat, h: nat, motionExpected: bool)

  /** The bounding box x, y, ww, hh of one outer contour of the mask. */
  datatype Region = Region(x: int, y: int, ww: nat, hh: nat)

  datatype FrameObs = FrameObs(hsv: seq<seq<ColorBand.Pixel>>, regions: seq<Region>)

  /** A CSV row: timestamp, x, y, width, height, score. */
  datatype Row = Row(t: real, x: int, y: int, w: int, h: int, score: real)

  function Area(r: Region): nat {
    r.ww * r.hh
  }

  /** Line 99: area >= w * h * 0.5. */
  predicate LargeEnough(r: Region, m: Meta) {
    Area(r) as real >= (m.w * m.h) as real * AreaFraction
  }

  function RegionRow(t: real, r: Region): Row {
    Row(t, r.x, r.y, r.ww, r.hh, Area(r) as real)
  }

  /** Lines 96-101: one row per large enough region, in contour order. */
  function RegionRows(t: real, regions: seq<Region>, m: Meta): (rows: seq<Row>)
    ensures |rows| <= |regions|
  {
    if regions == [] then []
    else
      var r := regions[|regions| - 1];
      RegionRows(t, regions[..|regions| - 1], m) + (if LargeEnough(r, m) then [RegionRow(t, r)] else [])
  }

  /** Moving mode keeps every large enough region, not only the largest:
      its rows are exactly those of the large enough regions, in order. */
  lemma {:induction false} RegionRowsExactly(t: real, regions: seq<Region>, m: Meta)
    ensures forall row :: row in RegionRows(t, regions, m) <==>
              exists r :: r in regions && LargeEnough(r, m) && row == RegionRow(t, r)
    ensures forall row :: row in RegionRows(t, regions, m) ==> row.t == t && row.score >= (m.w * m.h) as real * AreaFraction
  {
    if regions != [] {
      var init := regions[..|regions| - 1];
      RegionRowsExactly(t, init, m);
      assert regions == init + [regions[|regions| - 1]];
    }
  }

  /** Two large regions in one frame give two rows. */
  lemma TwoRegionsTwoRows()
    ensures |RegionRows(1.0, [Region(0, 0, 10, 10), Region(50, 50, 8, 8)], Meta(0, 0, 10, 10, true))| == 2
  {
    var regions := [Region(0, 0, 10, 10), Region(50, 50, 8, 8)];
    assert regions[..1] == [regions[0]] && [regions[0]][..0] == [];
  }

  /** The rows one readable frame f yields. */
  function FrameRows(f: nat, fps: nat, obs: FrameObs, m: Meta, band: ColorBand.Band): (rows: seq<Row>)
    requires fps > 0
    ensures m.motionExpected ==> rows == RegionRows(Seconds(f, fps), obs.regions, m)
    ensures !m.motionExpected ==> |rows| <= 1
    ensures !m.motionExpected ==>
              var ratio := ColorBand.MatchRatio(obs.hsv, m.x0, m.y0, m.w, m.h, band);
              (rows != [] <==> ratio.Some? && ratio.value > RatioThreshold)
              && (rows != [] ==> rows[0] == Row(Seconds(f, fps), m.x0, m.y0, m.w, m.h, ratio.value) && rows[0].score <= 1.0)
  {
    var t := Seconds(f, fps);
    if m.motionExpected then RegionRows(t, obs.regions, m)
    else
      var ratio := ColorBand.MatchRatio(obs.hsv, m.x0, m.y0, m.w, m.h, band);
      if ratio.Some? && ratio.value > RatioThreshold then [Row(t, m.x0, m.y0, m.w, m.h, ratio.value)] else []
  }

  /** The rows of the sampled frames fs; unreadable frames are skipped. */
  function RowsOver(video: seq<FrameObs>, fs: seq<nat>, fps: nat, m: Meta, band: ColorBand.Band): seq<Row>
    requires fps > 0
  {
    if fs == [] then []
    else
      var f := fs[|fs| - 1];
      RowsOver(video, fs[..|fs| - 1], fps, m, band) + (if f < |video| then FrameRows(f, fps, video[f], m, band) else [])
  }

  /** One more sampled frame adds its rows, if it is readable. */
  lemma RowsOverSnoc(video: seq<FrameObs>, fs: seq<nat>, i: nat, fps: nat, m: Meta, band: ColorBand.Band)
    requires fps > 0 && i < |fs|
    ensures RowsOver(video, fs[..i + 1], fps, m, band)
            == RowsOver(video, fs[..i], fps, m, band) + (if fs[i] < |video| then FrameRows(fs[i], fps, video[fs[i]], m, band) else [])
  {
    assert fs[..i + 1][..i] == fs[..i] && fs[..i + 1][i] == fs[i];
  }

  /** Lines 96-101: the inner loop over the contours of one frame. */
  method ScanContours(timestamp: real, contours: seq<Region>, m: Meta) returns (rows: seq<Row>)
    ensures rows == RegionRows(timestamp, contours, m)
  {
    rows := [];
    for j := 0 to |contours|
      invariant rows == RegionRows(timestamp, contours[..j], m)
    {
      var cnt := contours[j];
      var area := cnt.ww * cnt.hh;
      assert contours[..j + 1][..j] == contours[..j] && contours[..j + 1][j] == cnt;
      if area as real >= (m.w * m.h) as real * AreaFraction {
        rows := rows + [Row(timestamp, cnt.x, cnt.y, cnt.ww, cnt.hh, area as real)];
      }
    }
    assert contours[..|contours|] == contours;
  }

  /** Lines 83-108. */
  method DetectHsv(video: seq<FrameObs>, totalFrames: nat, fps: nat, m: Meta, band: ColorBand.Band)
    returns (results: seq<Row>)
    requires fps > 0
    ensures results == RowsOver(video, Range(0, totalFrames, fps), fps, m, band)
  {
    var step := fps;
    var frames := Range(0, totalFrames, step);
    results := [];
    for i := 0 to |frames|
      invariant results == RowsOver(video, frames[..i], fps, m, band)
    {
      var frameIdx := frames[i];
      RowsOverSnoc(video, frames, i, fps, m, band);
      if frameIdx >= |video| {
        continue;
      }
      var obs := video[frameIdx];
      if m.motionExpected {
        var regionRows := ScanContours(Seconds(frameIdx, fps), obs.regions, m);
        results := results + regionRows;
      } else {
        var matchRatio := ColorBand.MatchRatio(obs.hsv, m.x0, m.y0, m.w, m.h, band);
        if matchRatio.Some? && matchRatio.value > RatioThreshold {
          var timestamp := Seconds(frameIdx, fps);
          results := results + [Row(timestamp, m.x0, m.y0, m.w, m.h, matchRatio.value)];
        }
      }
    }
    assert frames[..|frames|] == frames;
  }

  /** Every row is one of the rows of a readable sampled frame, stamped with
      that frame's time, and passes its mode's rule: a share above one half
      of the template's rectangle, or a region of at least half the
      template's area. */
  ghost predicate Accepted(video: seq<FrameObs>, fs: seq<nat>, fps: nat, m: Meta, band: ColorBand.Band, row: Row)
    requires fps > 0
  {
    && (exists i :: 0 <= i < |fs| && fs[i] < |video| && row.t == Seconds(fs[i], fps)
                    && row in FrameRows(fs[i], fps, video[fs[i]], m, band))
    && (m.motionExpected ==> row.score >= (m.w * m.h) as real * AreaFraction)
    && (!m.motionExpected ==> RatioThreshold < row.score <= 1.0 && row.x == m.x0 && row.y == m.y0)
  }

  lemma {:induction false} RowsAccepted(video: seq<FrameObs>, fs: seq<nat>, fps: nat, m: Meta, band: ColorBand.Band)
    requires fps > 0
    ensures forall k :: 0 <= k < |RowsOver(video, fs, fps, m, band)| ==>
              Accepted(video, fs, fps, m, band, RowsOver(video, fs, fps, m, band)[k])
  {
    if fs != [] {
      var init := fs[..|fs| - 1];
      var f := fs[|fs| - 1];
      RowsAccepted(video, init, fps, m, band);
      var prev := RowsOver(video, init, fps, m, band);
      var rows := RowsOver(video, fs, fps, m, band);
      forall k | 0 <= k < |rows| ensures Accepted(video, fs, fps, m, band, rows[k]) {
        if k < |prev| {
          assert rows[k] == prev[k];
          assert Accepted(video, init, fps, m, band, prev[k]);
          var i :| 0 <= i < |init| && init[i] < |video| && prev[k].t == Seconds(init[i], fps)
                   && prev[k] in FrameRows(init[i], fps, video[init[i]], m, band);
          assert fs[i] == init[i];
        } else {
          var frameRows := FrameRows(f, fps, video[f], m, band);
          assert rows[k] == frameRows[k - |prev|] && rows[k] in frameRows;
          if m.motionExpected {
            RegionRowsExactly(Seconds(f, fps), video[f].regions, m);
          }
          assert fs[|fs| - 1] == f;
        }
      }
    }
  }

  /** Every row a readable sampled frame yields is in the results. */
  lemma {:induction false} RowsComplete(video: seq<FrameObs>, fs: seq<nat>, fps: nat, m: Meta, band: ColorBand.Band)
    requires fps > 0
    ensures forall i, row :: 0 <= i < |fs| && fs[i] < |video| && row in FrameRows(fs[i], fps, video[fs[i]], m, band) ==>
              row in RowsOver(video, fs, fps, m, band)
  {
    if fs != [] {
      var init := fs[..|fs| - 1];
      RowsComplete(video, init, fps, m, band);
      var prev := RowsOver(video, init, fps, m, band);
      var rows := RowsOver(video, fs, fps, m, band);
      forall i, row | 0 <= i < |fs| && fs[i] < |video| && row in FrameRows(fs[i], fps, video[fs[i]], m, band)
        ensures row in rows
      {
        if i < |init| {
          assert fs[i] == init[i];
          assert row in prev;
        } else {
          assert rows == prev + FrameRows(fs[i], fps, video[fs[i]], m, band);
        }
      }
    }
  }

  /** Lines 57-108, the whole detection: the band from the template's mean
      colour, as inRange applies it after rounding its bounds, then the
      frame loop. Every row is a row of a readable sampled frame under the
      unrounded int() band, and every such row is reported. */
  method DetectFromTemplate(mean: ColorBand.Hsv, video: seq<FrameObs>, totalFrames: nat, fps: nat, m: Meta)
    returns (results: seq<Row>)
    requires fps > 0
    ensures results == RowsOver(video, Range(0, totalFrames, fps), fps, m, TemplateBand(mean))
    ensures forall k :: 0 <= k < |results| ==>
              Accepted(video, Range(0, totalFrames, fps), fps, m, TemplateBand(mean), results[k])
    ensures forall i, row :: 0 <= i < |Range(0, totalFrames, fps)| && Range(0, totalFrames, fps)[i] < |video|
              && row in FrameRows(Range(0, totalFrames, fps)[i], fps, video[Range(0, totalFrames, fps)[i]], m, TemplateBand(mean))
              ==> row in results
  {
    var band := ColorBand.RoundBand(TemplateBand(mean));
    TemplateBandIsWhole(mean);
    results := DetectHsv(video, totalFrames, fps, m, band);
    RowsAccepted(video, Range(0, totalFrames, fps), fps, m, band);
    RowsComplete(video, Range(0, totalFrames, fps), fps, m, band);
  }
}
