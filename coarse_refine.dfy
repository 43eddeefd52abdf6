/** The two-pass "T" detector of t_detector_gui_optimized.py (lines 62-143).

    The video is modelled by the template-match score of each frame it can
    read: scores[f] is the best masked normalised correlation of frame f, and
    a read at a frame f >= |scores| fails. The frame rate is a whole number of
    frames per second, so jump, cooldown and the refinement step are exact. */
module CoarseRefine {
  import opened Sampling

  /** Pixels brighter than this are left out of the template mask. */
  const MaskCutoff: int := 250
  const MaskOn: int := 255
  const CooldownSeconds: nat := 120
  const LookBackSeconds: nat := 180

  // ---------------------------------------------------------------------
  // template mask (line 66): an inverted binary threshold at 250

  function TemplateMask(gray: seq<seq<int>>): (mask: seq<seq<int>>)
    ensures |mask| == |gray|
    ensures forall r :: 0 <= r < |gray| ==> |mask[r]| == |gray[r]|
    ensures forall r, c :: 0 <= r < |gray| && 0 <= c < |gray[r]| ==>
              (mask[r][c] == MaskOn <==> gray[r][c] <= MaskCutoff) && (mask[r][c] == 0 <==> gray[r][c] > MaskCutoff)
  {
    seq(|gray|, r requires 0 <= r < |gray| =>
      seq(|gray[r]|, c requires 0 <= c < |gray[r]| => if gray[r][c] > MaskCutoff then 0 else MaskOn))
  }

  /** The mask has the template's shape, holds only 0 and 255, and never
      keeps a brighter pixel while leaving out a darker one. */
  lemma MaskBinary(gray: seq<seq<int>>)
    ensures var mask := TemplateMask(gray);
            && |mask| == |gray|
            && (forall r :: 0 <= r < |gray| ==> |mask[r]| == |gray[r]|)
            && (forall r, c :: 0 <= r < |gray| && 0 <= c < |gray[r]| ==> mask[r][c] == 0 || mask[r][c] == MaskOn)
            && (forall r, c, r', c' ::
                  0 <= r < |gray| && 0 <= c < |gray[r]| && 0 <= r' < |gray| && 0 <= c' < |gray[r']| && gray[r][c] <= gray[r'][c']
                  ==> mask[r][c] >= mask[r'][c'])
  {
  }

  // ---------------------------------------------------------------------
  // time conversions

  function Times(fs: seq<nat>, fps: nat): (ts: seq<real>)
    requires fps > 0
    ensures |ts| == |fs|
  {
    seq(|fs|, i requires 0 <= i < |fs| => Seconds(fs[i], fps))
  }

  /** Line 113-115: the refinement window of a coarse match at time ts,
      as (start_frame, end_frame). */
  function Window(ts: real, fps: nat): (int, int)
    requires fps > 0
  {
    var start := Trunc((ts - LookBackSeconds as real) * fps as real);
    (if start < 0 then 0 else start, Trunc(ts * fps as real))
  }

  /** A coarse match found at frame idx looks back over the frames
      max(idx - 180*fps, 0) .. idx - 1. */
  lemma WindowOfFrame(idx: nat, fps: nat)
    requires fps > 0
    ensures Window(Seconds(idx, fps), fps) == (if idx < LookBackSeconds * fps then 0 else idx - LookBackSeconds * fps, idx)
  {
    var ts := Seconds(idx, fps);
    var k: int := idx - LookBackSeconds * fps;
    ScaleBack(idx as real, fps as real, LookBackSeconds as real);
    assert ts * fps as real == idx as real;
    assert (ts - LookBackSeconds as real) * fps as real == k as real;
    assert Trunc(idx as real) == idx;
    assert Trunc(k as real) == k;
    assert Window(ts, fps).1 == idx;
    assert Window(ts, fps).0 == if k < 0 then 0 else k;
  }

  /** (a / f) * f == a, and shifting by d before scaling shifts by d * f. */
  lemma ScaleBack(a: real, f: real, d: real)
    requires f > 0.0
    ensures (a / f) * f == a
    ensures (a / f - d) * f == a - d * f
  {
  }

  // ---------------------------------------------------------------------
  // first pass (lines 76-103)

  /** Frames on the sampling grid a, a + step, a + 2*step, ... */
  predicate OnGrid(a: int, g: int, step: nat)
    requires step > 0
    decreases g - a
  {
    if g < a then false else if g == a then true else OnGrid(a + step, g, step)
  }

  /** The frames the first pass reports, scanning from frame idx: a hit
      skips the cooldown, a miss the one-second jump; a failed read ends. */
  function CoarseFrom(scores: seq<real>, idx: nat, fps: nat, thr: real): seq<nat>
    requires fps > 0
    decreases |scores| - idx
  {
    if idx >= |scores| then []
    else if scores[idx] >= thr then [idx] + CoarseFrom(scores, idx + CooldownSeconds * fps, fps, thr)
    else CoarseFrom(scores, idx + fps, fps, thr)
  }

  method CoarseScan(scores: seq<real>, fps: nat, thr: real) returns (coarse: seq<real>)
    requires fps > 0
    ensures coarse == Times(CoarseFrom(scores, 0, fps, thr), fps)
  {
    var jumpFrames := fps;
    var cooldownFrames := CooldownSeconds * fps;
    coarse := [];
    ghost var found: seq<nat> := [];
    var frameIdx: nat := 0;
    while true
      invariant found + CoarseFrom(scores, frameIdx, fps, thr) == CoarseFrom(scores, 0, fps, thr)
      invariant coarse == Times(found, fps)
      decreases |scores| - frameIdx
    {
      if frameIdx >= |scores| {
        break;
      }
      var maxVal := scores[frameIdx];
      if maxVal >= thr {
        coarse := coarse + [Seconds(frameIdx, fps)];
        found := found + [frameIdx];
        frameIdx := frameIdx + cooldownFrames;
      } else {
        frameIdx := frameIdx + jumpFrames;
      }
    }
    assert found == CoarseFrom(scores, 0, fps, thr);
  }

  /** The first frame reported from idx is the first frame of the grid
      idx, idx + fps, ... that reaches the threshold; with none reported,
      no readable frame of that grid reaches it. */
  ghost predicate FirstSampledHit(scores: seq<real>, from: int, fps: nat, thr: real, c: seq<nat>)
    requires fps > 0
  {
    && (c != [] ==> OnGrid(from, c[0], fps) && c[0] < |scores| && scores[c[0]] >= thr)
    && (forall g :: OnGrid(from, g, fps) && g < |scores| && (c == [] || g < c[0]) ==> 0 <= g && scores[g] < thr)
  }

  lemma {:induction false} OnGridAbove(a: int, g: int, step: nat)
    requires step > 0 && OnGrid(a, g, step)
    ensures a <= g
  {
  }

  lemma {:induction false} CoarseFirst(scores: seq<real>, idx: nat, fps: nat, thr: real)
    requires fps > 0
    ensures FirstSampledHit(scores, idx, fps, thr, CoarseFrom(scores, idx, fps, thr))
    decreases |scores| - idx
  {
    var c := CoarseFrom(scores, idx, fps, thr);
    if idx >= |scores| {
      forall g | OnGrid(idx, g, fps) && g < |scores| ensures false {
        OnGridAbove(idx, g, fps);
      }
    } else if scores[idx] >= thr {
      forall g | OnGrid(idx, g, fps) && g < |scores| && g < c[0] ensures false {
        OnGridAbove(idx, g, fps);
      }
    } else {
      CoarseFirst(scores, idx + fps, fps, thr);
      forall g | OnGrid(idx, g, fps) && g < |scores| && (c == [] || g < c[0]) ensures 0 <= g && scores[g] < thr {
        OnGridAbove(idx, g, fps);
      }
    }
  }

  lemma {:induction false} CoarseSuffix(scores: seq<real>, idx: nat, fps: nat, thr: real, i: nat)
    requires fps > 0
    requires i < |CoarseFrom(scores, idx, fps, thr)|
    ensures var c := CoarseFrom(scores, idx, fps, thr);
            c[i] >= idx && c[i + 1..] == CoarseFrom(scores, c[i] + CooldownSeconds * fps, fps, thr)
    decreases |scores| - idx
  {
    var c := CoarseFrom(scores, idx, fps, thr);
    if scores[idx] >= thr {
      if i > 0 {
        CoarseSuffix(scores, idx + CooldownSeconds * fps, fps, thr, i - 1);
        assert c[i + 1..] == c[1..][i..];
      }
    } else {
      CoarseSuffix(scores, idx + fps, fps, thr, i);
    }
  }

  /** The first pass, characterised: the first report is the first hit on the
      one-second grid from frame 0, and each later report is the first hit on
      the grid that restarts 120 seconds after the previous report; after the
      last report no readable frame of the restarted grid reaches the
      threshold. So reports are sound and at least the cooldown apart. */
  lemma CoarseCharacterized(scores: seq<real>, fps: nat, thr: real)
    requires fps > 0
    ensures var c := CoarseFrom(scores, 0, fps, thr);
            && FirstSampledHit(scores, 0, fps, thr, c)
            && (forall i :: 0 <= i < |c| ==>
                  FirstSampledHit(scores, c[i] + CooldownSeconds * fps, fps, thr, c[i + 1..]))
            && (forall i :: 0 <= i < |c| - 1 ==> c[i] + CooldownSeconds * fps <= c[i + 1])
  {
    var c := CoarseFrom(scores, 0, fps, thr);
    CoarseFirst(scores, 0, fps, thr);
    forall i | 0 <= i < |c|
      ensures FirstSampledHit(scores, c[i] + CooldownSeconds * fps, fps, thr, c[i + 1..])
      ensures i < |c| - 1 ==> c[i] + CooldownSeconds * fps <= c[i + 1]
    {
      CoarseSuffix(scores, 0, fps, thr, i);
      CoarseFirst(scores, c[i] + CooldownSeconds * fps, fps, thr);
      if i < |c| - 1 {
        assert c[i + 1] == c[i + 1..][0];
        OnGridAbove(c[i] + CooldownSeconds * fps, c[i + 1], fps);
      }
    }
  }

  // ---------------------------------------------------------------------
  // second pass (lines 112-141)

  /** Line 134: a frame replaces the best so far when it reaches the
      threshold and either nothing is kept yet (a negative best) or it
      scores strictly higher. */
  function Consider(best: (int, real), f: nat, s: real, thr: real): (int, real) {
    if s >= thr && (best.1 < 0.0 || s > best.1) then (f, s) else best
  }

  /** The (best_frame, best_score) pair after scanning the frames of w
      in order; unreadable frames contribute nothing. */
  function Pick(scores: seq<real>, w: seq<nat>, thr: real): (int, real) {
    if w == [] then (-1, -1.0)
    else
      var p := Pick(scores, w[..|w| - 1], thr);
      var f := w[|w| - 1];
      if f >= |scores| then p else Consider(p, f, scores[f], thr)
  }

  predicate Increasing(w: seq<nat>) {
    forall i, j :: 0 <= i < j < |w| ==> w[i] < w[j]
  }

  /** Stopping at the first failed read loses nothing: every later frame of
      an increasing window is unreadable too. */
  lemma {:induction false} PickStopsAtFailedRead(scores: seq<real>, w: seq<nat>, i: nat, thr: real)
    requires Increasing(w) && i < |w| && w[i] >= |scores|
    ensures Pick(scores, w, thr) == Pick(scores, w[..i], thr)
  {
    if |w| - 1 > i {
      var init := w[..|w| - 1];
      assert init[..i] == w[..i] && init[i] == w[i];
      PickStopsAtFailedRead(scores, init, i, thr);
    } else {
      assert w[..|w| - 1] == w[..i];
    }
  }

  /** Lines 117-136 for one window: the frames are read in order and the
      loop stops at the first failed read. */
  method RefineWindow(scores: seq<real>, startFrame: nat, endFrame: int, step: nat, thr: real)
    returns (bestFrame: int, bestScore: real)
    requires step > 0
    ensures (bestFrame, bestScore) == Pick(scores, Range(startFrame, endFrame, step), thr)
  {
    bestScore := -1.0;
    bestFrame := -1;
    var w := Range(startFrame, endFrame, step);
    var i := 0;
    while i < |w|
      invariant 0 <= i <= |w|
      invariant (bestFrame, bestScore) == Pick(scores, w[..i], thr)
    {
      var f := w[i];
      if f >= |scores| {
        PickStopsAtFailedRead(scores, w, i, thr);
        break;
      }
      assert w[..i + 1][..i] == w[..i] && w[..i + 1][i] == f;
      assert Pick(scores, w[..i + 1], thr) == Consider(Pick(scores, w[..i], thr), f, scores[f], thr);
      var maxVal := scores[f];
      if maxVal >= thr && (bestScore < 0.0 || maxVal > bestScore) {
        bestScore := maxVal;
        bestFrame := f;
      }
      i := i + 1;
    }
    if i == |w| {
      assert w[..i] == w;
    }
  }

  /** What a window yields: nothing exactly when no readable frame of it
      reaches the threshold; otherwise a readable frame of the window
      that reaches it, with its score. */
  lemma {:induction false} PickFacts(scores: seq<real>, w: seq<nat>, thr: real)
    ensures var p := Pick(scores, w, thr);
            && (p.0 == -1 <==> forall i :: 0 <= i < |w| && w[i] < |scores| ==> scores[w[i]] < thr)
            && (p.0 == -1 ==> p.1 == -1.0)
            && (p.0 != -1 ==> 0 <= p.0 < |scores| && p.0 in w && p.1 == scores[p.0] && p.1 >= thr)
  {
    if w != [] {
      var init := w[..|w| - 1];
      PickFacts(scores, init, thr);
      var p := Pick(scores, w, thr);
      forall i | 0 <= i < |init| ensures init[i] == w[i] {
      }
      if Pick(scores, init, thr).0 != -1 {
        assert Pick(scores, init, thr).0 in w;
      }
    }
  }

  /** With a non-negative threshold the pick is the first frame of the
      window with the highest readable score. */
  lemma {:induction false} PickFirstMax(scores: seq<real>, w: seq<nat>, thr: real)
    requires thr >= 0.0 && Increasing(w)
    ensures var p := Pick(scores, w, thr);
            p.0 != -1 ==> forall i :: 0 <= i < |w| && w[i] < |scores| ==>
                            scores[w[i]] <= p.1 && (w[i] < p.0 ==> scores[w[i]] < p.1)
  {
    if w != [] {
      var init := w[..|w| - 1];
      var last := w[|w| - 1];
      assert Increasing(init);
      PickFirstMax(scores, init, thr);
      PickFacts(scores, init, thr);
      PickFacts(scores, w, thr);
      var q := Pick(scores, init, thr);
      var p := Pick(scores, w, thr);
      if p.0 != -1 {
        forall i | 0 <= i < |w| && w[i] < |scores|
          ensures scores[w[i]] <= p.1 && (w[i] < p.0 ==> scores[w[i]] < p.1)
        {
          if i < |w| - 1 {
            assert w[i] == init[i];
            if q.0 != -1 {
              var k :| 0 <= k < |init| && init[k] == q.0;
              assert w[k] == q.0;
            }
          }
        }
      }
    }
  }

  /** Why the threshold must be non-negative for the first-max reading:
      while the kept score is negative any frame reaching the threshold
      replaces it, so a later, lower score can win. */
  lemma NegativeThresholdKeepsLater()
    ensures Pick([-0.2, -0.5], [0, 1], -1.0) == (1, -0.5)
  {
    assert [0, 1][..1] == [0] && [0][..0] == [];
  }

  /** Lines 112-141 on the list of coarse times. */
  function RefineAll(scores: seq<real>, coarse: seq<real>, fps: nat, thr: real): (refined: seq<real>)
    requires fps > 0
    ensures |refined| <= |coarse|
  {
    if coarse == [] then []
    else
      var w := Window(coarse[|coarse| - 1], fps);
      var p := Pick(scores, Range(w.0, w.1, fps), thr);
      RefineAll(scores, coarse[..|coarse| - 1], fps, thr) + (if p.0 >= 0 then [Seconds(p.0, fps)] else [])
  }

  /** One more coarse time adds its window's pick, if any. */
  lemma RefineAllSnoc(scores: seq<real>, coarse: seq<real>, i: nat, fps: nat, thr: real)
    requires fps > 0 && i < |coarse|
    ensures var w := Window(coarse[i], fps);
            var p := Pick(scores, Range(w.0, w.1, fps), thr);
            RefineAll(scores, coarse[..i + 1], fps, thr)
              == RefineAll(scores, coarse[..i], fps, thr) + (if p.0 >= 0 then [Seconds(p.0, fps)] else [])
  {
    assert coarse[..i + 1][..i] == coarse[..i] && coarse[..i + 1][i] == coarse[i];
  }

  /** Lines 62-143: both passes; the results file is the refined list. */
  method DetectCoarseAndRefined(scores: seq<real>, fps: nat, thr: real) returns (coarse: seq<real>, refined: seq<real>)
    requires fps > 0
    ensures coarse == Times(CoarseFrom(scores, 0, fps, thr), fps)
    ensures refined == RefineAll(scores, coarse, fps, thr)
  {
    coarse := CoarseScan(scores, fps, thr);
    refined := [];
    for i := 0 to |coarse|
      invariant refined == RefineAll(scores, coarse[..i], fps, thr)
    {
      var coarseTs := coarse[i];
      var window := Window(coarseTs, fps);
      var startFrame, endFrame := window.0, window.1;
      var step := fps;
      var bestFrame, bestScore := RefineWindow(scores, startFrame, endFrame, step, thr);
      RefineAllSnoc(scores, coarse, i, fps, thr);
      if bestFrame >= 0 {
        refined := refined + [Seconds(bestFrame, fps)];
      }
    }
    assert coarse[..|coarse|] == coarse;
  }

  /** Every refined time is a readable frame reaching the threshold, taken
      from the 180 seconds before some coarse match (and not before 0); each
      coarse match yields at most one refined time. */
  lemma {:induction false} RefinedWithinLookBack(scores: seq<real>, cs: seq<nat>, fps: nat, thr: real)
    requires fps > 0
    ensures var refined := RefineAll(scores, Times(cs, fps), fps, thr);
            && |refined| <= |cs|
            && forall n :: 0 <= n < |refined| ==>
                 exists i, f :: 0 <= i < |cs| && 0 <= f < |scores| && refined[n] == Seconds(f, fps) && scores[f] >= thr
                                && f < cs[i] && f + LookBackSeconds * fps >= cs[i]
  {
    if cs != [] {
      var init := cs[..|cs| - 1];
      var last := cs[|cs| - 1];
      assert Times(cs, fps)[..|cs| - 1] == Times(init, fps);
      RefinedWithinLookBack(scores, init, fps, thr);
      WindowOfFrame(last, fps);
      var w := Window(Seconds(last, fps), fps);
      var r := Range(w.0, w.1, fps);
      PickFacts(scores, r, thr);
      var prev := RefineAll(scores, Times(init, fps), fps, thr);
      var refined := RefineAll(scores, Times(cs, fps), fps, thr);
      forall n | 0 <= n < |refined|
        ensures exists i, f :: 0 <= i < |cs| && 0 <= f < |scores| && refined[n] == Seconds(f, fps) && scores[f] >= thr
                               && f < cs[i] && f + LookBackSeconds * fps >= cs[i]
      {
        if n < |prev| {
          assert refined[n] == prev[n];
          var i, f :| 0 <= i < |init| && 0 <= f < |scores| && prev[n] == Seconds(f, fps) && scores[f] >= thr
                      && f < init[i] && f + LookBackSeconds * fps >= init[i];
          assert cs[i] == init[i];
        } else {
          var p := Pick(scores, r, thr);
          assert p.0 in r;
          assert refined[n] == Seconds(p.0, fps);
          assert cs[|cs| - 1] == last;
        }
      }
    }
  }
}
