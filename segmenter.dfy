/** The Dall3.py detection script: per-frame scores become a (timestamp,
    score) series, a two-state machine turns the series into on-intervals of
    at least a minimum duration, and a single pass fuses intervals separated
    by less than a minimum gap. Template matching itself is not modelled: the
    score of every extracted frame is an input (None for a frame that could
    not be read). */
module Segmenter {

  datatype Option<+T> = None | Some(value: T)

  datatype Sample = Sample(t: real, score: real)

  /** One record of the output list: {"timestamp_sec", "duration_sec", "score"}. */
  datatype Detection = Detection(start: real, duration: real, score: real)

  /** Only every FrameSkip-th frame of the video is extracted and scored. */
  const FrameSkip: nat := 15
  const MatchThreshold: real := 0.85
  const MinDuration: real := 1.0
  const MinGapToSeparate: real := 4.0

  function End(d: Detection): real {
    d.start + d.duration
  }

  // ---------------------------------------------------------------------
  // the frame loop: results and hits

  /** Timestamp of the idx-th extracted frame, idx * FrameSkip / fps. */
  function FrameTime(idx: nat, fps: nat): real
    requires fps > 0
  {
    (idx * FrameSkip) as real / fps as real
  }

  /** The series of samples built from the frames read so far. */
  function SamplesOf(frames: seq<Option<real>>, fps: nat): seq<Sample>
    requires fps > 0
  {
    if frames == [] then []
    else
      var n := |frames| - 1;
      SamplesOf(frames[..n], fps)
        + (if frames[n].Some? then [Sample(FrameTime(n, fps), frames[n].value)] else [])
  }

  /** The samples whose score is strictly above the threshold. */
  function Above(rs: seq<Sample>, thr: real): seq<Sample> {
    if rs == [] then []
    else Above(rs[..|rs| - 1], thr) + (if rs[|rs| - 1].score > thr then [rs[|rs| - 1]] else [])
  }

  predicate StrictlyIncreasing(rs: seq<Sample>) {
    forall a, b :: 0 <= a < b < |rs| ==> rs[a].t < rs[b].t
  }

  /** Lines 57-68: every readable frame yields one sample; hits keeps those
      scoring strictly above MatchThreshold. */
  method ScoreFrames(frames: seq<Option<real>>, fps: nat) returns (results: seq<Sample>, hits: seq<Sample>)
    requires fps > 0
    ensures results == SamplesOf(frames, fps)
    ensures hits == Above(results, MatchThreshold)
  {
    results, hits := [], [];
    for idx := 0 to |frames|
      invariant results == SamplesOf(frames[..idx], fps)
      invariant hits == Above(results, MatchThreshold)
    {
      assert frames[..idx + 1][..idx] == frames[..idx];
      if frames[idx].Some? {
        var score := frames[idx].value;
        var timestamp := FrameTime(idx, fps);
        results := results + [Sample(timestamp, score)];
        assert results[..|results| - 1] == SamplesOf(frames[..idx], fps);
        if score > MatchThreshold {
          hits := hits + [Sample(timestamp, score)];
        }
      }
    }
    assert frames[..|frames|] == frames;
  }

  /** Frames are read in index order, so the series' timestamps strictly increase
      and each sample carries the score of a readable frame. */
  lemma {:induction false} SamplesOfIncreasing(frames: seq<Option<real>>, fps: nat)
    requires fps > 0
    ensures StrictlyIncreasing(SamplesOf(frames, fps))
    ensures |SamplesOf(frames, fps)| <= |frames|
    ensures forall a :: 0 <= a < |SamplesOf(frames, fps)| ==>
              exists idx :: 0 <= idx < |frames| && frames[idx] == Some(SamplesOf(frames, fps)[a].score)
                            && SamplesOf(frames, fps)[a].t == FrameTime(idx, fps)
    ensures forall a :: 0 <= a < |SamplesOf(frames, fps)| ==> SamplesOf(frames, fps)[a].t < FrameTime(|frames|, fps)
  {
    if frames != [] {
      var n := |frames| - 1;
      var prev := SamplesOf(frames[..n], fps);
      SamplesOfIncreasing(frames[..n], fps);
      assert FrameTime(n, fps) < FrameTime(n + 1, fps) by {
        DivLess((n * FrameSkip) as real, ((n + 1) * FrameSkip) as real, fps as real);
      }
      var rs := SamplesOf(frames, fps);
      forall a | 0 <= a < |rs|
        ensures exists idx :: 0 <= idx < |frames| && frames[idx] == Some(rs[a].score) && rs[a].t == FrameTime(idx, fps)
      {
        if a < |prev| {
          var idx :| 0 <= idx < n && frames[..n][idx] == Some(prev[a].score) && prev[a].t == FrameTime(idx, fps);
          assert rs[a] == prev[a] && frames[idx] == frames[..n][idx];
        } else {
          assert rs[a] == Sample(FrameTime(n, fps), frames[n].value);
        }
      }
    }
  }

  lemma DivLess(a: real, b: real, f: real)
    requires a < b && f > 0.0
    ensures a / f < b / f
  {
    assert (b - a) / f > 0.0;
    assert b / f - a / f == (b - a) / f;
  }

  /** hits is exactly the series' samples scoring strictly above the threshold, in order. */
  lemma {:induction false} AboveMembers(rs: seq<Sample>, thr: real)
    ensures forall x :: x in Above(rs, thr) <==> x in rs && x.score > thr
  {
    if rs != [] {
      AboveMembers(rs[..|rs| - 1], thr);
      assert rs == rs[..|rs| - 1] + [rs[|rs| - 1]];
    }
  }

  // ---------------------------------------------------------------------
  // rising/falling-edge segmentation (lines 70-100)

  /** A detection is emitted only when its duration reaches the minimum. */
  function Emit(start: real, duration: real, minDur: real): (r: seq<Detection>)
    ensures |r| <= 1
  {
    if duration >= minDur then [Detection(start, duration, 1.0)] else []
  }

  /** The rest of the segmentation from sample i, with `open` the index of the
      sample that opened the current on-run, if one is open. */
  function SegmentFrom(rs: seq<Sample>, i: nat, open: Option<nat>, thr: real, minDur: real): seq<Detection>
    requires i <= |rs|
    requires open.Some? ==> open.value < i
    decreases |rs| - i
  {
    if i == |rs| then
      if open.Some? then Emit(rs[open.value].t, rs[|rs| - 1].t - rs[open.value].t, minDur) else []
    else if rs[i].score >= thr then
      SegmentFrom(rs, i + 1, if open.None? then Some(i) else open, thr, minDur)
    else if open.Some? then
      Emit(rs[open.value].t, rs[i].t - rs[open.value].t, minDur) + SegmentFrom(rs, i + 1, None, thr, minDur)
    else
      SegmentFrom(rs, i + 1, None, thr, minDur)
  }

  function Segment(rs: seq<Sample>, thr: real, minDur: real): seq<Detection> {
    SegmentFrom(rs, 0, None, thr, minDur)
  }

  method SegmentSeries(results: seq<Sample>, thr: real, minDur: real) returns (detections: seq<Detection>)
    ensures detections == Segment(results, thr, minDur)
  {
    detections := [];
    var startTs: Option<real> := None;
    ghost var open: Option<nat> := None;
    for i := 0 to |results|
      invariant open.Some? ==> open.value < i
      invariant startTs == if open.Some? then Some(results[open.value].t) else None
      invariant detections + SegmentFrom(results, i, open, thr, minDur) == Segment(results, thr, minDur)
    {
      var t, score := results[i].t, results[i].score;
      if score >= thr {
        if startTs.None? {
          startTs, open := Some(t), Some(i);
        }
      } else {
        if startTs.Some? {
          var duration := t - startTs.value;
          ghost var before := detections;
          if duration >= minDur {
            detections := detections + [Detection(startTs.value, duration, 1.0)];
          }
          assert detections == before + Emit(startTs.value, duration, minDur);
          startTs, open := None, None;
        }
      }
    }
    if startTs.Some? {
      var duration := results[|results| - 1].t - startTs.value;
      if duration >= minDur {
        detections := detections + [Detection(startTs.value, duration, 1.0)];
      }
    }
  }

  /** Every detection lasts at least the minimum duration and scores 1.0. */
  lemma {:induction false} SegmentFromDurations(rs: seq<Sample>, i: nat, open: Option<nat>, thr: real, minDur: real)
    requires i <= |rs|
    requires open.Some? ==> open.value < i
    ensures forall d :: d in SegmentFrom(rs, i, open, thr, minDur) ==> d.duration >= minDur && d.score == 1.0
    decreases |rs| - i
  {
    if i < |rs| {
      if rs[i].score >= thr {
        SegmentFromDurations(rs, i + 1, if open.None? then Some(i) else open, thr, minDur);
      } else {
        SegmentFromDurations(rs, i + 1, None, thr, minDur);
      }
    }
  }

  /** Consecutive detections do not overlap: each ends strictly before the next starts. */
  predicate Ordered(ds: seq<Detection>) {
    forall n :: 0 <= n < |ds| - 1 ==> End(ds[n]) < ds[n + 1].start
  }

  /** No detection of the rest of the run starts before this time. */
  function LowerBound(rs: seq<Sample>, i: nat, open: Option<nat>): real
    requires i <= |rs|
    requires open.Some? ==> open.value < i
  {
    if open.Some? then rs[open.value].t else if i < |rs| then rs[i].t else 0.0
  }

  lemma {:induction false} SegmentFromOrdered(rs: seq<Sample>, i: nat, open: Option<nat>, thr: real, minDur: real)
    requires StrictlyIncreasing(rs)
    requires i <= |rs|
    requires open.Some? ==> open.value < i
    ensures Ordered(SegmentFrom(rs, i, open, thr, minDur))
    ensures forall d :: d in SegmentFrom(rs, i, open, thr, minDur) ==> d.duration >= 0.0 && LowerBound(rs, i, open) <= d.start
    decreases |rs| - i
  {
    if i == |rs| {
      if open.Some? && open.value < |rs| - 1 {
        assert rs[open.value].t < rs[|rs| - 1].t;
      }
    } else if rs[i].score >= thr {
      SegmentFromOrdered(rs, i + 1, if open.None? then Some(i) else open, thr, minDur);
    } else {
      SegmentFromOrdered(rs, i + 1, None, thr, minDur);
      var rest := SegmentFrom(rs, i + 1, None, thr, minDur);
      if i + 1 < |rs| {
        assert rs[i].t < rs[i + 1].t;
      } else {
        assert rest == [];
      }
      if open.Some? {
        var o := open.value;
        assert rs[o].t < rs[i].t;
        if rs[i].t - rs[o].t >= minDur {
          OrderedPrepend(RunDetection(rs, o, i), rest);
        }
      }
    }
  }

  lemma OrderedPrepend(e: Detection, rest: seq<Detection>)
    requires Ordered(rest)
    requires forall d :: d in rest ==> End(e) < d.start
    ensures Ordered([e] + rest)
  {
    var ds := [e] + rest;
    forall n | 0 <= n < |ds| - 1 ensures End(ds[n]) < ds[n + 1].start {
      assert ds[n + 1] == rest[n];
      if n > 0 {
        assert ds[n] == rest[n - 1];
      }
    }
  }

  /** Samples j..k form one on-run: j is a rising edge (score reaches the
      threshold, the sample before did not), every sample from j up to k
      stays on, and k is either the first sample back below the threshold or
      the last sample of a series that ends while still on. */
  predicate OnRun(rs: seq<Sample>, thr: real, j: nat, k: nat) {
    && j <= k < |rs|
    && rs[j].score >= thr
    && (j == 0 || rs[j - 1].score < thr)
    && (forall m :: j <= m < k ==> rs[m].score >= thr)
    && (rs[k].score < thr || (k == |rs| - 1 && rs[k].score >= thr))
  }

  /** The detection the on-run j..k produces: it starts at sample j and lasts
      until sample k's timestamp. */
  function RunDetection(rs: seq<Sample>, j: nat, k: nat): Detection
    requires j <= k < |rs|
  {
    Detection(rs[j].t, rs[k].t - rs[j].t, 1.0)
  }

  /** What the state machine knows after reading samples 0..i-1. */
  predicate StateOK(rs: seq<Sample>, thr: real, i: nat, open: Option<nat>) {
    && i <= |rs|
    && (open.Some? ==>
          && open.value < i
          && (open.value == 0 || rs[open.value - 1].score < thr)
          && (forall m :: open.value <= m < i ==> rs[m].score >= thr))
    && (open.None? ==> i == 0 || rs[i - 1].score < thr)
  }

  lemma {:induction false} SegmentFromSound(rs: seq<Sample>, i: nat, open: Option<nat>, thr: real, minDur: real)
    requires StateOK(rs, thr, i, open)
    ensures forall d :: d in SegmentFrom(rs, i, open, thr, minDur) ==>
              exists j: nat, k: nat :: OnRun(rs, thr, j, k) && d == RunDetection(rs, j, k) && d.duration >= minDur
    decreases |rs| - i
  {
    if i == |rs| {
      if open.Some? {
        assert OnRun(rs, thr, open.value, |rs| - 1);
      }
    } else if rs[i].score >= thr {
      var next := if open.None? then Some(i) else open;
      assert StateOK(rs, thr, i + 1, next);
      SegmentFromSound(rs, i + 1, next, thr, minDur);
    } else {
      assert StateOK(rs, thr, i + 1, None);
      SegmentFromSound(rs, i + 1, None, thr, minDur);
      if open.Some? {
        assert OnRun(rs, thr, open.value, i);
      }
    }
  }

  lemma {:induction false} SegmentFromComplete(rs: seq<Sample>, i: nat, open: Option<nat>, thr: real, minDur: real, j: nat, k: nat)
    requires StateOK(rs, thr, i, open)
    requires OnRun(rs, thr, j, k) && rs[k].t - rs[j].t >= minDur
    requires open == Some(j) || j >= i
    ensures RunDetection(rs, j, k) in SegmentFrom(rs, i, open, thr, minDur)
    decreases |rs| - i
  {
    if i == |rs| {
      assert open == Some(j);
    } else if rs[i].score >= thr {
      var next := if open.None? then Some(i) else open;
      assert StateOK(rs, thr, i + 1, next);
      SegmentFromComplete(rs, i + 1, next, thr, minDur, j, k);
    } else {
      assert StateOK(rs, thr, i + 1, None);
      if open == Some(j) {
        assert k == i;
      } else {
        assert j != i;
        SegmentFromComplete(rs, i + 1, None, thr, minDur, j, k);
      }
    }
  }

  /** Both directions: a detection is emitted exactly for each on-run whose
      duration (falling-edge timestamp minus rising-edge timestamp, or last
      timestamp minus rising edge when the series ends while on) reaches the
      minimum. Shorter on-runs are dropped. */
  lemma SegmentCharacterized(rs: seq<Sample>, thr: real, minDur: real)
    ensures forall d :: d in Segment(rs, thr, minDur) <==>
              exists j: nat, k: nat :: OnRun(rs, thr, j, k) && d == RunDetection(rs, j, k) && d.duration >= minDur
  {
    SegmentFromSound(rs, 0, None, thr, minDur);
    forall j: nat, k: nat | OnRun(rs, thr, j, k) && rs[k].t - rs[j].t >= minDur
      ensures RunDetection(rs, j, k) in Segment(rs, thr, minDur)
    {
      SegmentFromComplete(rs, 0, None, thr, minDur, j, k);
    }
  }

  /** Every detection lasts at least minDur and has score 1.0; with strictly
      increasing timestamps detections come out in start order and each ends
      strictly before the next one starts. */
  lemma SegmentInvariants(rs: seq<Sample>, thr: real, minDur: real)
    ensures forall d :: d in Segment(rs, thr, minDur) ==> d.duration >= minDur && d.score == 1.0
    ensures StrictlyIncreasing(rs) ==> Ordered(Segment(rs, thr, minDur))
    ensures StrictlyIncreasing(rs) ==> forall d :: d in Segment(rs, thr, minDur) ==> d.duration >= 0.0
  {
    SegmentFromDurations(rs, 0, None, thr, minDur);
    if StrictlyIncreasing(rs) {
      SegmentFromOrdered(rs, 0, None, thr, minDur);
    }
  }

  /** [(0,.9),(1,.9),(2,.9),(3,.2)] at threshold .85 and minimum 1 gives one
      detection starting at 0 and lasting 3: it closes at the first sample
      below the threshold. */
  lemma ScenarioFallingEdge()
    ensures Segment([Sample(0.0, 0.9), Sample(1.0, 0.9), Sample(2.0, 0.9), Sample(3.0, 0.2)], 0.85, 1.0)
            == [Detection(0.0, 3.0, 1.0)]
  {
    var rs := [Sample(0.0, 0.9), Sample(1.0, 0.9), Sample(2.0, 0.9), Sample(3.0, 0.2)];
    assert SegmentFrom(rs, 4, None, 0.85, 1.0) == [];
    assert SegmentFrom(rs, 3, Some(0), 0.85, 1.0) == [Detection(0.0, 3.0, 1.0)];
  }

  /** A series that ends while on closes at its last timestamp. */
  lemma ScenarioOpenAtEnd()
    ensures Segment([Sample(0.0, 0.1), Sample(1.0, 0.9), Sample(2.5, 0.95)], 0.85, 1.0)
            == [Detection(1.0, 1.5, 1.0)]
  {
    var rs := [Sample(0.0, 0.1), Sample(1.0, 0.9), Sample(2.5, 0.95)];
    assert SegmentFrom(rs, 3, Some(1), 0.85, 1.0) == [Detection(1.0, 1.5, 1.0)];
  }

  /** hits uses a strict ">" but segmentation uses ">=": a series sitting
      exactly at the threshold yields a detection yet no hit. */
  lemma ThresholdBoundary()
    ensures Above([Sample(0.0, 0.85), Sample(1.0, 0.85), Sample(2.0, 0.1)], MatchThreshold) == []
    ensures Segment([Sample(0.0, 0.85), Sample(1.0, 0.85), Sample(2.0, 0.1)], MatchThreshold, MinDuration)
            == [Detection(0.0, 2.0, 1.0)]
  {
    var rs := [Sample(0.0, 0.85), Sample(1.0, 0.85), Sample(2.0, 0.1)];
    assert rs[..2] == [rs[0], rs[1]] && rs[..2][..1] == [rs[0]] && [rs[0]][..0] == [];
    assert Above([rs[0]], MatchThreshold) == [];
    assert Above(rs[..2], MatchThreshold) == [];
    assert SegmentFrom(rs, 2, Some(0), MatchThreshold, MinDuration) == [Detection(0.0, 2.0, 1.0)];
  }

  // ---------------------------------------------------------------------
  // gap merge (lines 102-118)

  function Gap(prev: Detection, next: Detection): real {
    next.start - End(prev)
  }

  /** The kept event last, stretched so that it ends where d ends. */
  function Fuse(last: Detection, d: Detection): Detection {
    last.(duration := End(d) - last.start)
  }

  /** One step of the pass: a detection closer than minGap to the last kept
      event is absorbed by it, otherwise it is kept as a new event. */
  function MergeStep(merged: seq<Detection>, d: Detection, minGap: real): seq<Detection> {
    if merged != [] && Gap(merged[|merged| - 1], d) < minGap then
      merged[..|merged| - 1] + [Fuse(merged[|merged| - 1], d)]
    else merged + [d]
  }

  function Merge(ds: seq<Detection>, minGap: real): seq<Detection> {
    if ds == [] then [] else MergeStep(Merge(ds[..|ds| - 1], minGap), ds[|ds| - 1], minGap)
  }

  /** The kept events before the last are untouched by a step; the last one
      ends where d ends, and either is d itself or keeps the start and score
      of the event it extends. */
  lemma MergeStepFacts(merged: seq<Detection>, d: Detection, minGap: real)
    ensures var r := MergeStep(merged, d, minGap);
            && |r| >= 1
            && End(r[|r| - 1]) == End(d)
            && (if merged != [] && Gap(merged[|merged| - 1], d) < minGap then
                  |r| == |merged| && r[..|r| - 1] == merged[..|merged| - 1]
                  && r[|r| - 1].start == merged[|merged| - 1].start
                  && r[|r| - 1].score == merged[|merged| - 1].score
                else |r| == |merged| + 1 && r[..|r| - 1] == merged && r[|r| - 1] == d)
  {
  }

  /** Lines 103-115; the kept event is updated in place. */
  method MergeClose(detections: seq<Detection>, minGap: real) returns (merged: seq<Detection>)
    ensures merged == Merge(detections, minGap)
  {
    merged := [];
    for i := 0 to |detections|
      invariant merged == Merge(detections[..i], minGap)
    {
      var d := detections[i];
      assert detections[..i + 1][..i] == detections[..i] && detections[..i + 1][i] == d;
      if merged == [] {
        merged := merged + [d];
      } else {
        var last := merged[|merged| - 1];
        var gap := d.start - (last.start + last.duration);
        if gap < minGap {
          ghost var before := merged;
          merged := merged[|merged| - 1 := last.(duration := (d.start + d.duration) - last.start)];
          assert merged == before[..|before| - 1] + [Fuse(last, d)];
        } else {
          merged := merged + [d];
        }
      }
    }
    assert detections[..|detections|] == detections;
  }

  predicate GapsAtLeast(ms: seq<Detection>, minGap: real) {
    forall n :: 0 <= n < |ms| - 1 ==> Gap(ms[n], ms[n + 1]) >= minGap
  }

  /** After merging, every two adjacent events are at least minGap apart. */
  lemma {:induction false} MergeGaps(ds: seq<Detection>, minGap: real)
    ensures GapsAtLeast(Merge(ds, minGap), minGap)
  {
    if ds != [] {
      var d := ds[|ds| - 1];
      var prev := Merge(ds[..|ds| - 1], minGap);
      MergeGaps(ds[..|ds| - 1], minGap);
      MergeStepFacts(prev, d, minGap);
      var r := Merge(ds, minGap);
      forall n | 0 <= n < |r| - 1 ensures Gap(r[n], r[n + 1]) >= minGap {
        assert r[n] == r[..|r| - 1][n];
        if n + 1 < |r| - 1 {
          assert r[n + 1] == r[..|r| - 1][n + 1];
          assert r[n] == prev[n] && r[n + 1] == prev[n + 1];
        } else if |r| == |prev| {
          assert r[n] == prev[n];
        } else {
          assert r[n] == prev[|prev| - 1];
        }
      }
    }
  }

  /** Where the events of Merge(ds) come from: at most one per detection,
      each starting where some detection starts (with its score) and ending
      where some detection ends; the first keeps the first start and the last
      ends where the last detection ends. */
  predicate DrawnFrom(ms: seq<Detection>, ds: seq<Detection>) {
    && |ms| <= |ds|
    && (ds != [] ==> |ms| >= 1 && ms[0].start == ds[0].start && End(ms[|ms| - 1]) == End(ds[|ds| - 1]))
    && StartsDrawn(ms, ds)
    && EndsDrawn(ms, ds)
  }

  predicate StartsDrawn(ms: seq<Detection>, ds: seq<Detection>) {
    forall n :: 0 <= n < |ms| ==>
      exists a :: 0 <= a < |ds| && ms[n].start == ds[a].start && ms[n].score == ds[a].score
  }

  predicate EndsDrawn(ms: seq<Detection>, ds: seq<Detection>) {
    forall n :: 0 <= n < |ms| ==> exists b :: 0 <= b < |ds| && End(ms[n]) == End(ds[b])
  }

  lemma {:induction false} MergeFromDetections(ds: seq<Detection>, minGap: real)
    ensures DrawnFrom(Merge(ds, minGap), ds)
  {
    if ds != [] {
      var init := ds[..|ds| - 1];
      var d := ds[|ds| - 1];
      var prev := Merge(init, minGap);
      MergeFromDetections(init, minGap);
      assert ds == init + [d];
      StepEndpoints(prev, init, d, minGap);
      StepStartsDrawn(prev, init, d, minGap);
      StepEndsDrawn(prev, init, d, minGap);
    }
  }

  /** The merged list stays no longer than the detections, keeps the first
      start and ends where the last detection ends. */
  lemma StepEndpoints(prev: seq<Detection>, init: seq<Detection>, d: Detection, minGap: real)
    requires |prev| <= |init| && (init != [] ==> |prev| >= 1 && prev[0].start == init[0].start)
    ensures var r, ds := MergeStep(prev, d, minGap), init + [d];
            && |r| <= |ds| && |r| >= 1
            && r[0].start == ds[0].start && End(r[|r| - 1]) == End(ds[|ds| - 1])
  {
    var r, ds := MergeStep(prev, d, minGap), init + [d];
    MergeStepFacts(prev, d, minGap);
    if |r| > 1 {
      assert r[0] == r[..|r| - 1][0];
    }
    if init != [] {
      assert ds[0] == init[0];
    }
  }

  /** Each kept event still starts, with its score, where a detection does. */
  lemma StepStartsDrawn(prev: seq<Detection>, init: seq<Detection>, d: Detection, minGap: real)
    requires StartsDrawn(prev, init)
    ensures StartsDrawn(MergeStep(prev, d, minGap), init + [d])
  {
    var r, ds := MergeStep(prev, d, minGap), init + [d];
    MergeStepFacts(prev, d, minGap);
    forall n | 0 <= n < |r|
      ensures exists a :: 0 <= a < |ds| && r[n].start == ds[a].start && r[n].score == ds[a].score
    {
      if n < |r| - 1 || |r| == |prev| {
        if n < |r| - 1 {
          assert r[n] == r[..|r| - 1][n];
        }
        var a :| 0 <= a < |init| && prev[n].start == init[a].start && prev[n].score == init[a].score;
        assert ds[a] == init[a];
      } else {
        assert ds[|init|] == d;
      }
    }
  }

  /** Each kept event still ends where a detection does. */
  lemma StepEndsDrawn(prev: seq<Detection>, init: seq<Detection>, d: Detection, minGap: real)
    requires EndsDrawn(prev, init)
    ensures EndsDrawn(MergeStep(prev, d, minGap), init + [d])
  {
    var r, ds := MergeStep(prev, d, minGap), init + [d];
    MergeStepFacts(prev, d, minGap);
    forall n | 0 <= n < |r| ensures exists b :: 0 <= b < |ds| && End(r[n]) == End(ds[b]) {
      if n < |r| - 1 {
        assert r[n] == r[..|r| - 1][n] == prev[n];
        var b :| 0 <= b < |init| && End(prev[n]) == End(init[b]);
        assert ds[b] == init[b];
      } else {
        assert ds[|init|] == d;
      }
    }
  }

  predicate StartsNondecreasing(ds: seq<Detection>) {
    forall a, b :: 0 <= a < b < |ds| ==> ds[a].start <= ds[b].start
  }

  /** On detections in start order, a fused event is never shorter than the
      detection it absorbed, so the minimum duration survives merging. */
  lemma {:induction false} MergeKeepsMinDuration(ds: seq<Detection>, minGap: real, minDur: real)
    requires StartsNondecreasing(ds)
    requires forall n :: 0 <= n < |ds| ==> ds[n].duration >= minDur
    ensures forall n :: 0 <= n < |Merge(ds, minGap)| ==> Merge(ds, minGap)[n].duration >= minDur
  {
    if ds != [] {
      var init := ds[..|ds| - 1];
      var d := ds[|ds| - 1];
      var prev := Merge(init, minGap);
      assert StartsNondecreasing(init) by {
        forall a, b | 0 <= a < b < |init| ensures init[a].start <= init[b].start {
          assert init[a] == ds[a] && init[b] == ds[b];
        }
      }
      MergeKeepsMinDuration(init, minGap, minDur);
      MergeFromDetections(init, minGap);
      MergeStepFacts(prev, d, minGap);
      var r := Merge(ds, minGap);
      forall n | 0 <= n < |r| ensures r[n].duration >= minDur {
        if n < |r| - 1 {
          assert r[n] == r[..|r| - 1][n] == prev[n];
        } else if |r| == |prev| {
          var a :| 0 <= a < |init| && prev[n].start == init[a].start && prev[n].score == init[a].score;
          assert init[a] == ds[a] && ds[a].start <= d.start;
        }
      }
    }
  }

  /** {0,1} and {3,1} with minimum gap 4 fuse into {0,4}: the gap is 3 - 1 = 2. */
  lemma ScenarioFuse()
    ensures Merge([Detection(0.0, 1.0, 1.0), Detection(3.0, 1.0, 1.0)], 4.0) == [Detection(0.0, 4.0, 1.0)]
  {
    var ds := [Detection(0.0, 1.0, 1.0), Detection(3.0, 1.0, 1.0)];
    assert ds[..1] == [ds[0]] && [ds[0]][..0] == [];
    assert Merge(ds[..1], 4.0) == [ds[0]];
  }

  /** In an ordered list of non-negative-duration detections starts increase. */
  lemma {:induction false} OrderedStarts(ds: seq<Detection>, a: nat, b: nat)
    requires Ordered(ds) && forall d :: d in ds ==> d.duration >= 0.0
    requires a < b < |ds|
    ensures ds[a].start < ds[b].start
    decreases b - a
  {
    assert ds[a] in ds;
    if a + 1 < b {
      OrderedStarts(ds, a + 1, b);
    }
  }

  /** t is the time of a sample that opens an on-run. */
  ghost predicate RisingEdgeTime(rs: seq<Sample>, thr: real, t: real) {
    exists j: nat, k: nat :: OnRun(rs, thr, j, k) && rs[j].t == t
  }

  /** What the script's final list promises for a strictly increasing
      series: each event lasts at least minDur, scores 1.0, starts at the
      first sample of an on-run, and is at least minGap after the previous. */
  lemma MergedSegmentFacts(rs: seq<Sample>, thr: real, minDur: real, minGap: real, ms: seq<Detection>)
    requires StrictlyIncreasing(rs)
    requires ms == Merge(Segment(rs, thr, minDur), minGap)
    ensures GapsAtLeast(ms, minGap)
    ensures forall n :: 0 <= n < |ms| ==> ms[n].duration >= minDur && ms[n].score == 1.0
    ensures forall n :: 0 <= n < |ms| ==> RisingEdgeTime(rs, thr, ms[n].start)
  {
    MergeGaps(Segment(rs, thr, minDur), minGap);
    MergedDurations(rs, thr, minDur, minGap);
    MergedOrigins(rs, thr, minDur, minGap);
  }

  /** The detections of an increasing series come in start order, so merging
      them keeps the minimum duration. */
  lemma MergedDurations(rs: seq<Sample>, thr: real, minDur: real, minGap: real)
    requires StrictlyIncreasing(rs)
    ensures var ms := Merge(Segment(rs, thr, minDur), minGap);
            forall n :: 0 <= n < |ms| ==> ms[n].duration >= minDur
  {
    var ds := Segment(rs, thr, minDur);
    SegmentInvariants(rs, thr, minDur);
    assert StartsNondecreasing(ds) by {
      forall a, b | 0 <= a < b < |ds| ensures ds[a].start <= ds[b].start {
        OrderedStarts(ds, a, b);
      }
    }
    assert forall n :: 0 <= n < |ds| ==> ds[n].duration >= minDur by {
      forall n | 0 <= n < |ds| ensures ds[n].duration >= minDur {
        assert ds[n] in ds;
      }
    }
    MergeKeepsMinDuration(ds, minGap, minDur);
  }

  /** Every merged event starts, with score 1.0, where an on-run starts. */
  lemma MergedOrigins(rs: seq<Sample>, thr: real, minDur: real, minGap: real)
    ensures var ms := Merge(Segment(rs, thr, minDur), minGap);
            forall n :: 0 <= n < |ms| ==> ms[n].score == 1.0 && RisingEdgeTime(rs, thr, ms[n].start)
  {
    var ds := Segment(rs, thr, minDur);
    var ms := Merge(ds, minGap);
    SegmentCharacterized(rs, thr, minDur);
    MergeFromDetections(ds, minGap);
    forall n | 0 <= n < |ms|
      ensures ms[n].score == 1.0 && RisingEdgeTime(rs, thr, ms[n].start)
    {
      var a :| 0 <= a < |ds| && ms[n].start == ds[a].start && ms[n].score == ds[a].score;
      assert ds[a] in ds;
      var j: nat, k: nat :| OnRun(rs, thr, j, k) && ds[a] == RunDetection(rs, j, k);
    }
  }

  /** The index-to-(start, duration) dictionary built at line 120. */
  function Onsets(events: seq<Detection>): (m: map<nat, (real, real)>)
    ensures forall n: nat :: n in m <==> n < |events|
    ensures forall n: nat :: n < |events| ==> m[n] == (events[n].start, events[n].duration)
  {
    map n: nat | n < |events| :: (events[n].start, events[n].duration)
  }

  /** In a gapped list of events with non-negative durations, every later
      event starts at least minGap after an earlier one ends. */
  lemma {:induction false} GapsChain(ms: seq<Detection>, minGap: real, a: nat, b: nat)
    requires GapsAtLeast(ms, minGap) && minGap >= 0.0
    requires forall n :: 0 <= n < |ms| ==> ms[n].duration >= 0.0
    requires a < b < |ms|
    ensures End(ms[a]) + minGap <= ms[b].start
    decreases b - a
  {
    assert Gap(ms[b - 1], ms[b]) >= minGap;
    if a < b - 1 {
      GapsChain(ms, minGap, a, b - 1);
      assert ms[b - 1].duration >= 0.0;
    }
  }

  /** The onsets dictionary of a gapped list: its keys are 0 .. n - 1 with
      no hole, and each key's interval ends at least the gap before any
      later key's interval starts, so the starts increase with the key. */
  lemma OnsetsOrdered(events: seq<Detection>, minGap: real)
    requires GapsAtLeast(events, minGap) && minGap >= 0.0
    requires forall n :: 0 <= n < |events| ==> events[n].duration >= 0.0
    ensures forall a: nat, b: nat :: a < b && b in Onsets(events) ==>
              a in Onsets(events) && Onsets(events)[a].0 + Onsets(events)[a].1 + minGap <= Onsets(events)[b].0
  {
    var m := Onsets(events);
    forall a: nat, b: nat | a < b && b in m
      ensures a in m && m[a].0 + m[a].1 + minGap <= m[b].0
    {
      GapsChain(events, minGap, a, b);
    }
  }

  /** The whole script on the readable frames' scores (None: a failed read):
      the samples, the hits, the merged events and their onsets dictionary. */
  method DetectAppearances(frames: seq<Option<real>>, fps: nat)
    returns (results: seq<Sample>, hits: seq<Sample>, events: seq<Detection>, onsets: map<nat, (real, real)>)
    requires fps > 0
    ensures results == SamplesOf(frames, fps)
    ensures hits == Above(results, MatchThreshold)
    ensures events == Merge(Segment(results, MatchThreshold, MinDuration), MinGapToSeparate)
    ensures onsets == Onsets(events)
    ensures forall h :: h in hits ==> h.score > MatchThreshold && h in results
    ensures GapsAtLeast(events, MinGapToSeparate)
    ensures forall n :: 0 <= n < |events| ==> events[n].duration >= MinDuration && events[n].score == 1.0
    ensures forall n :: 0 <= n < |events| ==> RisingEdgeTime(results, MatchThreshold, events[n].start)
    ensures forall a: nat, b: nat :: a < b && b in onsets ==> a in onsets && onsets[a].0 + onsets[a].1 + MinGapToSeparate <= onsets[b].0
  {
    results, hits := ScoreFrames(frames, fps);
    var detections := SegmentSeries(results, MatchThreshold, MinDuration);
    events := MergeClose(detections, MinGapToSeparate);
    AboveMembers(results, MatchThreshold);
    assert StrictlyIncreasing(results) by {
      SamplesOfIncreasing(frames, fps);
    }
    MergedSegmentFacts(results, MatchThreshold, MinDuration, MinGapToSeparate, events);
    onsets := Onsets(events);
    OnsetsOrdered(events, MinGapToSeparate);
  }
}
