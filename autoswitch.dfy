/** template_detector_autoswitch.py: a rule picks a detection strategy
    from template statistics (lines 16-33), every int(fps)-th frame is tested
    by the chosen strategy's acceptance rule (lines 72-108), and the best row
    is refined by rescoring the frames within about 100 ms of it
    (lines 128-156).

    OpenCV's outputs (template statistics, keypoint counts, match scores and
    locations, HSV frames) are inputs of the model. A frame read fails when
    its index is at least the number of readable frames. */
module AutoSwitch {
  import opened Sampling
  import ColorBand

  // ---------------------------------------------------------------------
  // strategy choice (lines 16-33)

  datatype Strategy = TemplateMatch | Orb | Hsv

  const FlatSaturation: real := 20.0
  const SmallSurface: int := 2000
  const MinKeypoints: nat := 10

  /** Template statistics: saturation mean and deviation, the template's
      size from its metadata, and the number of ORB keypoints. */
  datatype TemplateStats = TemplateStats(meanS: real, stdS: real, width: int, height: int, keypoints: nat)

  predicate FlatAndSmall(t: TemplateStats) {
    t.meanS < FlatSaturation && t.stdS < FlatSaturation && t.width * t.height < SmallSurface
  }

  function DecideStrategy(t: TemplateStats): (s: Strategy)
    ensures s == TemplateMatch <==> FlatAndSmall(t)
    ensures s == Orb <==> !FlatAndSmall(t) && t.keypoints >= MinKeypoints
    ensures s == Hsv <==> !FlatAndSmall(t) && t.keypoints < MinKeypoints
  {
    if FlatAndSmall(t) then TemplateMatch
    else if t.keypoints >= MinKeypoints then Orb
    else Hsv
  }

  /** The first rule wins: a flat, small template is template-matched
      however many keypoints it has, e.g. 30x30 with saturation mean 5 and
      deviation 3. */
  lemma FlatSmallTemplateIgnoresKeypoints(k: nat)
    ensures DecideStrategy(TemplateStats(5.0, 3.0, 30, 30, k)) == TemplateMatch
  {
  }

  /** Only the keypoint count separates ORB from HSV, and more keypoints
      never turn ORB back into HSV. */
  lemma MoreKeypointsKeepOrb(t: TemplateStats, k: nat)
    requires DecideStrategy(t) == Orb && k >= t.keypoints
    ensures DecideStrategy(t.(keypoints := k)) == Orb
  {
  }

  /** A template that is no flatter, no smaller and has no fewer keypoints
      never moves back to template matching, and an ORB choice stays ORB. */
  lemma StrategyMonotone(t: TemplateStats, u: TemplateStats)
    requires u.meanS >= t.meanS && u.stdS >= t.stdS && u.width * u.height >= t.width * t.height
    requires u.keypoints >= t.keypoints
    ensures DecideStrategy(t) != TemplateMatch ==> DecideStrategy(u) != TemplateMatch
    ensures DecideStrategy(t) == Orb ==> DecideStrategy(u) == Orb
  {
  }

  // ---------------------------------------------------------------------
  // acceptance rules (lines 81-108)

  const CorrThreshold: real := 0.9
  const RatioThreshold: real := 0.5
  const MaskSumPerPixel: int := 100
  const Tolerance: ColorBand.Hsv := ColorBand.Hsv(15.0, 50.0, 50.0)

  /** Template placement from the metadata file. */
  datatype Meta = Meta(x0: nat, y0: nat, w: nat, h: nat, motionExpected: bool)

  /** What OpenCV yields for one frame: the best correlation over the whole
      grey frame and its location, the correlation of the template's own
      rectangle, and the frame in HSV. */
  datatype FrameObs = FrameObs(fullMatch: real, fullLoc: (int, int), roiMatch: real, hsv: seq<seq<ColorBand.Pixel>>)

  /** A CSV row: timestamp, x, y, width, height, score. */
  datatype Row = Row(t: real, x: int, y: int, w: int, h: int, score: real)

  /** Python's round(x, d) for scale 10^d, on exact reals: the nearest
      multiple of 1/scale, a tie going to the even one. */
  function RoundTo(x: real, scale: nat): real
    requires scale > 0
  {
    ColorBand.RoundHalfEven(x * scale as real) as real / scale as real
  }

  lemma ScaledAbove(x: real, k: int, scale: nat)
    requires scale > 0 && x > k as real / scale as real
    ensures ColorBand.RoundHalfEven(x * scale as real) >= k
  {
    var sc := scale as real;
    assert x * sc > (k as real / sc) * sc;
  }

  lemma ScaledAtMost(x: real, k: int, scale: nat)
    requires scale > 0 && x <= k as real / scale as real
    ensures ColorBand.RoundHalfEven(x * scale as real) <= k
  {
    var sc := scale as real;
    assert x * sc <= (k as real / sc) * sc;
  }

  lemma DivideMonotone(a: int, b: int, scale: nat)
    requires a >= b && scale > 0
    ensures a as real / scale as real >= b as real / scale as real
  {
  }

  /** Rounding keeps a strict lower bound that is a multiple of 1/scale as a
      non-strict one. */
  lemma RoundedAtLeast(x: real, k: int, scale: nat)
    requires scale > 0 && x > k as real / scale as real
    ensures RoundTo(x, scale) >= k as real / scale as real
  {
    ScaledAbove(x, k, scale);
    DivideMonotone(ColorBand.RoundHalfEven(x * scale as real), k, scale);
  }

  /** Rounding keeps an upper bound that is a multiple of 1/scale. */
  lemma RoundedAtMost(x: real, k: int, scale: nat)
    requires scale > 0 && x <= k as real / scale as real
    ensures RoundTo(x, scale) <= k as real / scale as real
  {
    ScaledAtMost(x, k, scale);
    DivideMonotone(k, ColorBand.RoundHalfEven(x * scale as real), scale);
  }

  /** Ratios 0.871 and 0.874 are both written as 0.87, so idxmax on the
      written column picks the first of the two although the second is
      larger. */
  lemma RoundedTieKeepsFirst()
    ensures RoundTo(0.871, 100) == 0.87 && RoundTo(0.874, 100) == 0.87
    ensures ArgMaxFirst([RoundTo(0.871, 100), RoundTo(0.874, 100)]) == 0
  {
    assert ColorBand.RoundHalfEven(87.1) == 87;
    assert ColorBand.RoundHalfEven(87.4) == 87;
  }

  /** The row one readable frame f yields under each strategy and mode, with
      the scores as written to the CSV: correlations rounded to 3 digits,
      the ratio to 2, the mask sum as is. */
  function RowFor(s: Strategy, m: Meta, band: ColorBand.Band, f: nat, fps: nat, obs: FrameObs): (r: Option<Row>)
    requires fps > 0
    ensures s == Orb ==> r == None
    ensures s == TemplateMatch && m.motionExpected ==>
              (r.Some? <==> obs.fullMatch > CorrThreshold)
              && (r.Some? ==> r.value == Row(Seconds(f, fps), obs.fullLoc.0, obs.fullLoc.1, m.w, m.h, RoundTo(obs.fullMatch, 1000)))
    ensures s == TemplateMatch && !m.motionExpected ==>
              (r.Some? <==> obs.roiMatch > CorrThreshold)
              && (r.Some? ==> r.value == Row(Seconds(f, fps), m.x0, m.y0, m.w, m.h, RoundTo(obs.roiMatch, 1000)))
    ensures s == Hsv && m.motionExpected ==>
              (r.Some? <==> ColorBand.MaskSum(obs.hsv, band) > m.w * m.h * MaskSumPerPixel)
    ensures s == Hsv && !m.motionExpected ==>
              (r.Some? <==> ColorBand.MatchRatio(obs.hsv, m.x0, m.y0, m.w, m.h, band).Some? && ColorBand.MatchRatio(obs.hsv, m.x0, m.y0, m.w, m.h, band).value > RatioThreshold)
              && (r.Some? ==> r.value == Row(Seconds(f, fps), m.x0, m.y0, m.w, m.h, RoundTo(ColorBand.MatchRatio(obs.hsv, m.x0, m.y0, m.w, m.h, band).value, 100)))
    ensures r.Some? ==> r.value.t == Seconds(f, fps)
  {
    var t := Seconds(f, fps);
    match s
    case TemplateMatch =>
      if m.motionExpected then
        if obs.fullMatch > CorrThreshold then Some(Row(t, obs.fullLoc.0, obs.fullLoc.1, m.w, m.h, RoundTo(obs.fullMatch, 1000))) else None
      else
        if obs.roiMatch > CorrThreshold then Some(Row(t, m.x0, m.y0, m.w, m.h, RoundTo(obs.roiMatch, 1000))) else None
    case Hsv =>
      if m.motionExpected then
        var sum := ColorBand.MaskSum(obs.hsv, band);
        if sum > m.w * m.h * MaskSumPerPixel then Some(Row(t, 0, 0, 0, 0, sum as real)) else None
      else
        var ratio := ColorBand.MatchRatio(obs.hsv, m.x0, m.y0, m.w, m.h, band);
        if ratio.Some? && ratio.value > RatioThreshold then Some(Row(t, m.x0, m.y0, m.w, m.h, RoundTo(ratio.value, 100))) else None
    case Orb => None
  }

  /** What a row says about its frame: its time converts back to the frame,
      a template-matching row's written score is at least 0.9 (a match
      above 0.9, rounded) with the template's size, a fixed colour row's
      written ratio is in [0.5, 1], a moving colour row holds 255 per
      in-band pixel of the frame, and fixed-mode rows sit at the template's
      place. */
  lemma RowScoreFacts(s: Strategy, m: Meta, band: ColorBand.Band, f: nat, fps: nat, obs: FrameObs)
    requires fps > 0 && RowFor(s, m, band, f, fps, obs).Some?
    ensures var row := RowFor(s, m, band, f, fps, obs).value;
            && s != Orb
            && FrameAt(row.t, fps) == f
            && (s == TemplateMatch ==> row.score >= CorrThreshold && row.w == m.w && row.h == m.h)
            && (s == Hsv && !m.motionExpected ==> RatioThreshold <= row.score <= 1.0)
            && (s == Hsv && m.motionExpected ==>
                  row.score == (255 * ColorBand.CountInBand(obs.hsv, band)) as real
                  && row.score > (m.w * m.h * MaskSumPerPixel) as real)
            && (!m.motionExpected ==> row.x == m.x0 && row.y == m.y0)
  {
    FrameAtSeconds(f, fps);
    if s == TemplateMatch {
      TemplateRowScore(m, band, f, fps, obs);
    } else if s == Hsv && !m.motionExpected {
      FixedColourRowScore(m, band, f, fps, obs);
    } else if s == Hsv {
      assert ColorBand.MaskSum(obs.hsv, band) == 255 * ColorBand.CountInBand(obs.hsv, band);
    }
  }

  lemma TemplateRowScore(m: Meta, band: ColorBand.Band, f: nat, fps: nat, obs: FrameObs)
    requires fps > 0 && RowFor(TemplateMatch, m, band, f, fps, obs).Some?
    ensures RowFor(TemplateMatch, m, band, f, fps, obs).value.score >= CorrThreshold
  {
    if m.motionExpected {
      RoundedAtLeast(obs.fullMatch, 900, 1000);
    } else {
      RoundedAtLeast(obs.roiMatch, 900, 1000);
    }
  }

  lemma FixedColourRowScore(m: Meta, band: ColorBand.Band, f: nat, fps: nat, obs: FrameObs)
    requires fps > 0 && !m.motionExpected && RowFor(Hsv, m, band, f, fps, obs).Some?
    ensures RatioThreshold <= RowFor(Hsv, m, band, f, fps, obs).value.score <= 1.0
  {
    var ratio := ColorBand.MatchRatio(obs.hsv, m.x0, m.y0, m.w, m.h, band).value;
    assert RowFor(Hsv, m, band, f, fps, obs).value.score == RoundTo(ratio, 100);
    RoundedRatioBounds(ratio);
  }

  /** A ratio in (0.5, 1] is written as a value in [0.5, 1]. */
  lemma RoundedRatioBounds(ratio: real)
    requires RatioThreshold < ratio <= 1.0
    ensures RatioThreshold <= RoundTo(ratio, 100) <= 1.0
  {
    RoundedAtLeast(ratio, 50, 100);
    RoundedAtMost(ratio, 100, 100);
  }

  /** In moving colour mode the mask holds 255 per in-band pixel, so the
      rule asks for more in-band pixels than w*h*100/255, about 39% of the
      template's area, anywhere in the frame. */
  lemma MovingColourRuleCountsPixels(obs: FrameObs, m: Meta, band: ColorBand.Band, f: nat, fps: nat)
    requires fps > 0 && m.motionExpected
    ensures RowFor(Hsv, m, band, f, fps, obs).Some? <==> 255 * ColorBand.CountInBand(obs.hsv, band) > m.w * m.h * 100
  {
    assert ColorBand.MaskSum(obs.hsv, band) == 255 * ColorBand.CountInBand(obs.hsv, band);
  }

  // ---------------------------------------------------------------------
  // detection loop (lines 72-108)

  /** The rows produced by the sampled frames fs, in order; unreadable
      frames are skipped. */
  function RowsOver(video: seq<FrameObs>, fs: seq<nat>, s: Strategy, m: Meta, band: ColorBand.Band, fps: nat): (rows: seq<Row>)
    requires fps > 0
    ensures |rows| <= |fs|
  {
    if fs == [] then []
    else
      var f := fs[|fs| - 1];
      var r := if f < |video| then RowFor(s, m, band, f, fps, video[f]) else None;
      RowsOver(video, fs[..|fs| - 1], s, m, band, fps) + (if r.Some? then [r.value] else [])
  }

  method DetectRows(video: seq<FrameObs>, totalFrames: nat, fps: nat, s: Strategy, m: Meta, band: ColorBand.Band)
    returns (rows: seq<Row>)
    requires fps > 0
    ensures rows == RowsOver(video, Range(0, totalFrames, fps), s, m, band, fps)
  {
    var step := fps;
    var frames := Range(0, totalFrames, step);
    rows := [];
    for i := 0 to |frames|
      invariant rows == RowsOver(video, frames[..i], s, m, band, fps)
    {
      var frameIdx := frames[i];
      assert frames[..i + 1][..i] == frames[..i] && frames[..i + 1][i] == frameIdx;
      if frameIdx >= |video| {
        continue;
      }
      var r := RowFor(s, m, band, frameIdx, fps, video[frameIdx]);
      if r.Some? {
        rows := rows + [r.value];
      }
    }
    assert frames[..|frames|] == frames;
  }

  /** The ORB strategy has no branch in the loop, so it yields no rows. */
  lemma {:induction false} OrbYieldsNoRows(video: seq<FrameObs>, fs: seq<nat>, m: Meta, band: ColorBand.Band, fps: nat)
    requires fps > 0
    ensures RowsOver(video, fs, Orb, m, band, fps) == []
  {
    if fs != [] {
      OrbYieldsNoRows(video, fs[..|fs| - 1], m, band, fps);
    }
  }

  /** row is what some readable frame of fs yields. */
  ghost predicate FromSampledFrame(video: seq<FrameObs>, fs: seq<nat>, s: Strategy, m: Meta, band: ColorBand.Band, fps: nat, row: Row)
    requires fps > 0
  {
    exists i :: 0 <= i < |fs| && fs[i] < |video| && RowFor(s, m, band, fs[i], fps, video[fs[i]]) == Some(row)
  }

  /** Each row comes from one readable frame of fs, no later than its last. */
  lemma {:induction false} RowsSound(video: seq<FrameObs>, fs: seq<nat>, s: Strategy, m: Meta, band: ColorBand.Band, fps: nat)
    requires fps > 0
    requires forall i, j :: 0 <= i < j < |fs| ==> fs[i] < fs[j]
    ensures forall k :: 0 <= k < |RowsOver(video, fs, s, m, band, fps)| ==>
              FromSampledFrame(video, fs, s, m, band, fps, RowsOver(video, fs, s, m, band, fps)[k]) && RowsOver(video, fs, s, m, band, fps)[k].t <= Seconds(fs[|fs| - 1], fps)
  {
    if fs != [] {
      var init := fs[..|fs| - 1];
      var f := fs[|fs| - 1];
      RowsSound(video, init, s, m, band, fps);
      var prev := RowsOver(video, init, s, m, band, fps);
      var rows := RowsOver(video, fs, s, m, band, fps);
      forall k | 0 <= k < |rows|
        ensures FromSampledFrame(video, fs, s, m, band, fps, rows[k]) && rows[k].t <= Seconds(f, fps)
      {
        if k < |prev| {
          assert rows[k] == prev[k];
          assert FromSampledFrame(video, init, s, m, band, fps, prev[k]);
          var i :| 0 <= i < |init| && init[i] < |video| && RowFor(s, m, band, init[i], fps, video[init[i]]) == Some(prev[k]);
          assert fs[i] == init[i];
          SecondsMonotone(init[|init| - 1], f, fps);
        } else {
          assert RowFor(s, m, band, fs[|fs| - 1], fps, video[fs[|fs| - 1]]) == Some(rows[k]);
        }
      }
    }
  }

  /** With fs increasing, row timestamps strictly increase. */
  lemma {:induction false} RowsOrdered(video: seq<FrameObs>, fs: seq<nat>, s: Strategy, m: Meta, band: ColorBand.Band, fps: nat)
    requires fps > 0
    requires forall i, j :: 0 <= i < j < |fs| ==> fs[i] < fs[j]
    ensures forall a, b :: 0 <= a < b < |RowsOver(video, fs, s, m, band, fps)| ==> RowsOver(video, fs, s, m, band, fps)[a].t < RowsOver(video, fs, s, m, band, fps)[b].t
  {
    if fs != [] {
      var init := fs[..|fs| - 1];
      var f := fs[|fs| - 1];
      RowsOrdered(video, init, s, m, band, fps);
      RowsSound(video, init, s, m, band, fps);
      var prev := RowsOver(video, init, s, m, band, fps);
      var rows := RowsOver(video, fs, s, m, band, fps);
      forall a, b | 0 <= a < b < |rows| ensures rows[a].t < rows[b].t {
        assert rows[a] == prev[a];
        if b == |prev| {
          SecondsMonotone(init[|init| - 1], f, fps);
        } else {
          assert rows[b] == prev[b];
        }
      }
    }
  }

  /** Every accepted readable frame of fs has its row. */
  lemma {:induction false} RowsComplete(video: seq<FrameObs>, fs: seq<nat>, s: Strategy, m: Meta, band: ColorBand.Band, fps: nat)
    requires fps > 0
    ensures forall i :: 0 <= i < |fs| && fs[i] < |video| && RowFor(s, m, band, fs[i], fps, video[fs[i]]).Some? ==>
              RowFor(s, m, band, fs[i], fps, video[fs[i]]).value in RowsOver(video, fs, s, m, band, fps)
  {
    if fs != [] {
      var init := fs[..|fs| - 1];
      RowsComplete(video, init, s, m, band, fps);
      var prev := RowsOver(video, init, s, m, band, fps);
      var rows := RowsOver(video, fs, s, m, band, fps);
      forall i | 0 <= i < |fs| && fs[i] < |video| && RowFor(s, m, band, fs[i], fps, video[fs[i]]).Some?
        ensures RowFor(s, m, band, fs[i], fps, video[fs[i]]).value in rows
      {
        if i < |init| {
          assert fs[i] == init[i];
          assert RowFor(s, m, band, init[i], fps, video[init[i]]).value in prev;
        }
      }
    }
  }

  // ---------------------------------------------------------------------
  // refinement around the best row (lines 128-156)

  /** pandas idxmax: the first position holding the largest value. */
  function ArgMaxFirst(xs: seq<real>): (k: nat)
    requires xs != []
    ensures k < |xs|
    ensures forall i :: 0 <= i < |xs| ==> xs[i] <= xs[k]
    ensures forall i :: 0 <= i < k ==> xs[i] < xs[k]
  {
    if |xs| == 1 then 0
    else
      var k := ArgMaxFirst(xs[..|xs| - 1]);
      if xs[|xs| - 1] > xs[k] then |xs| - 1 else k
  }

  /** The "score" column of a table. */
  function Scores<T>(table: seq<T>, score: T -> real): (xs: seq<real>)
    ensures |xs| == |table| && forall i :: 0 <= i < |table| ==> xs[i] == score(table[i])
  {
    seq(|table|, i requires 0 <= i < |table| => score(table[i]))
  }

  /** A row of the refined table: timestamp and score. */
  datatype Entry = Entry(t: real, score: real)

  function RowScore(r: Row): real { r.score }

  function EntryScore(e: Entry): real { e.score }

  /** The entries for offsets -window .. upto - 1 around frame best:
      negative frames and failed reads are skipped. */
  function Around(video: seq<FrameObs>, best: int, window: nat, upto: int, fps: nat): (es: seq<Entry>)
    requires fps > 0
    ensures |es| <= if upto <= -(window as int) then 0 else upto + window
    decreases upto + window
  {
    if upto <= -(window as int) then []
    else
      var idx := best + upto - 1;
      Around(video, best, window, upto - 1, fps)
        + (if 0 <= idx < |video| then [Entry(Seconds(idx, fps), video[idx].fullMatch)] else [])
  }

  method RefineAroundBest(video: seq<FrameObs>, bestFrame: int, window: nat, fps: nat) returns (refined: seq<Entry>)
    requires fps > 0
    ensures refined == Around(video, bestFrame, window, window + 1, fps)
  {
    refined := [];
    for i := -(window as int) to window + 1
      invariant refined == Around(video, bestFrame, window, i, fps)
    {
      var frameIdx := bestFrame + i;
      if frameIdx < 0 {
        continue;
      }
      if frameIdx >= |video| {
        continue;
      }
      refined := refined + [Entry(Seconds(frameIdx, fps), video[frameIdx].fullMatch)];
    }
  }

  /** e is the rescoring of a readable frame in lo .. hi - 1. */
  ghost predicate RescoredFrame(video: seq<FrameObs>, lo: int, hi: int, fps: nat, e: Entry)
    requires fps > 0
  {
    exists idx :: 0 <= idx < |video| && lo <= idx < hi && e == Entry(Seconds(idx, fps), video[idx].fullMatch)
  }

  /** At most 2*window + 1 frames are rescored, each a readable frame within
      window of best, with its own score, in frame order; the best frame
      itself is rescored when it is readable. */
  lemma {:induction false} AroundEntries(video: seq<FrameObs>, best: int, window: nat, upto: int, fps: nat)
    requires fps > 0 && upto <= window + 1
    ensures |Around(video, best, window, upto, fps)| <= 2 * window + 1
    ensures forall k :: 0 <= k < |Around(video, best, window, upto, fps)| ==> RescoredFrame(video, best - window, best + upto, fps, Around(video, best, window, upto, fps)[k])
    ensures 0 <= best < |video| && upto > 0 ==> Around(video, best, window, upto, fps) != []
    decreases upto + window
  {
    if upto > -(window as int) {
      AroundEntries(video, best, window, upto - 1, fps);
      var prev := Around(video, best, window, upto - 1, fps);
      var es := Around(video, best, window, upto, fps);
      forall k | 0 <= k < |es|
        ensures RescoredFrame(video, best - window, best + upto, fps, es[k])
      {
        if k < |prev| {
          assert es[k] == prev[k];
          var idx :| 0 <= idx < |video| && best - window <= idx < best + upto - 1
                     && prev[k] == Entry(Seconds(idx, fps), video[idx].fullMatch);
        } else {
          var idx := best + upto - 1;
          assert es[k] == Entry(Seconds(idx, fps), video[idx].fullMatch);
        }
      }
    }
  }

  /** int(fps * 0.1): about 100 ms of frames. */
  function WindowFrames(fps: nat): nat {
    fps / 10
  }

  datatype Refinement = NoInitialResult | NoRefinedFrame | Refined(t: real, score: real)

  /** Lines 129-158 on the detected rows: the first best-scoring row is
      located, the frames within WindowFrames(fps) of it are rescored, and
      the first best of those is reported. pandas' idxmax on an empty table
      raises, which NoRefinedFrame stands for. */
  method RefinementPass(rows: seq<Row>, video: seq<FrameObs>, fps: nat) returns (outcome: Refinement)
    requires fps > 0
    ensures outcome == NoInitialResult <==> rows == []
    ensures rows != [] ==>
              var bestFrame := FrameAt(rows[ArgMaxFirst(Scores(rows, RowScore))].t, fps);
              var es := Around(video, bestFrame, WindowFrames(fps), WindowFrames(fps) + 1, fps);
              (outcome == NoRefinedFrame <==> es == [])
              && (outcome.Refined? ==> Entry(outcome.t, outcome.score) == es[ArgMaxFirst(Scores(es, EntryScore))])
  {
    if |rows| == 0 {
      return NoInitialResult;
    }
    var bestRow := rows[ArgMaxFirst(Scores(rows, RowScore))];
    var bestTime := bestRow.t;
    var bestFrame := FrameAt(bestTime, fps);
    var window := WindowFrames(fps);
    var refined := RefineAroundBest(video, bestFrame, window, fps);
    if |refined| == 0 {
      return NoRefinedFrame;
    }
    var bestRefined := refined[ArgMaxFirst(Scores(refined, EntryScore))];
    outcome := Refined(bestRefined.t, bestRefined.score);
  }

  /** The refinement of a best frame that is readable always finds a frame,
      within WindowFrames(fps) of it, scoring at least as high as every
      rescored frame. */
  lemma RefineReadableFrame(video: seq<FrameObs>, bestFrame: int, fps: nat)
    requires fps > 0 && 0 <= bestFrame < |video|
    ensures var w := WindowFrames(fps);
            var es := Around(video, bestFrame, w, w + 1, fps);
            && es != []
            && (exists idx :: 0 <= idx < |video| && bestFrame - w <= idx <= bestFrame + w
                              && es[ArgMaxFirst(Scores(es, EntryScore))] == Entry(Seconds(idx, fps), video[idx].fullMatch))
            && (forall k :: 0 <= k < |es| ==> es[k].score <= es[ArgMaxFirst(Scores(es, EntryScore))].score)
  {
    var w := WindowFrames(fps);
    AroundEntries(video, bestFrame, w, w + 1, fps);
    var es := Around(video, bestFrame, w, w + 1, fps);
    var top := ArgMaxFirst(Scores(es, EntryScore));
    var idx :| 0 <= idx < |video| && bestFrame - w <= idx < bestFrame + w + 1
               && es[top] == Entry(Seconds(idx, fps), video[idx].fullMatch);
  }

  /** On rows the detection loop produced, the best row points back at a
      readable frame, so the refinement never meets an empty table. */
  lemma BestRowFrameReadable(video: seq<FrameObs>, totalFrames: nat, fps: nat, s: Strategy, m: Meta, band: ColorBand.Band)
    requires fps > 0
    ensures var rows := RowsOver(video, Range(0, totalFrames, fps), s, m, band, fps);
            rows != [] ==> 0 <= FrameAt(rows[ArgMaxFirst(Scores(rows, RowScore))].t, fps) < |video|
  {
    var fs := Range(0, totalFrames, fps);
    var rows := RowsOver(video, fs, s, m, band, fps);
    if rows != [] {
      RowsSound(video, fs, s, m, band, fps);
      var b := ArgMaxFirst(Scores(rows, RowScore));
      SampledRowFrame(video, fs, s, m, band, fps, rows[b]);
    }
  }

  /** A row from a readable sampled frame converts back to that frame. */
  lemma SampledRowFrame(video: seq<FrameObs>, fs: seq<nat>, s: Strategy, m: Meta, band: ColorBand.Band, fps: nat, row: Row)
    requires fps > 0 && FromSampledFrame(video, fs, s, m, band, fps, row)
    ensures 0 <= FrameAt(row.t, fps) < |video|
  {
    var i :| 0 <= i < |fs| && fs[i] < |video| && RowFor(s, m, band, fs[i], fps, video[fs[i]]) == Some(row);
    FrameAtSeconds(fs[i], fps);
  }

  /** The whole script: choose the strategy, detect, refine. */
  method RunAutoSwitch(stats: TemplateStats, m: Meta, templateMean: ColorBand.Hsv, video: seq<FrameObs>, totalFrames: nat, fps: nat)
    returns (strategy: Strategy, rows: seq<Row>, outcome: Refinement)
    requires fps > 0
    ensures strategy == DecideStrategy(stats)
    ensures rows == RowsOver(video, Range(0, totalFrames, fps), strategy, m, ColorBand.RoundBand(ColorBand.MakeBand(templateMean, Tolerance)), fps)
    ensures strategy == Orb ==> rows == [] && outcome == NoInitialResult
    ensures outcome == NoInitialResult <==> rows == []
    ensures rows != [] ==>
              var bestFrame := FrameAt(rows[ArgMaxFirst(Scores(rows, RowScore))].t, fps);
              var es := Around(video, bestFrame, WindowFrames(fps), WindowFrames(fps) + 1, fps);
              && es != []
              && outcome == Refined(es[ArgMaxFirst(Scores(es, EntryScore))].t, es[ArgMaxFirst(Scores(es, EntryScore))].score)
  {
    strategy := DecideStrategy(stats);
    var band := ColorBand.RoundBand(ColorBand.MakeBand(templateMean, Tolerance));
    rows := DetectRows(video, totalFrames, fps, strategy, m, band);
    OrbYieldsNoRows(video, Range(0, totalFrames, fps), m, band, fps);
    BestRowFrameReadable(video, totalFrames, fps, strategy, m, band);
    outcome := RefinementPass(rows, video, fps);
    if rows != [] {
      RefineReadableFrame(video, FrameAt(rows[ArgMaxFirst(Scores(rows, RowScore))].t, fps), fps);
    }
  }
}
