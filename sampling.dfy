/** Frame sampling shared by the video detectors: Python's range() over
    frame indices, frame-to-seconds conversion at an integer frame rate, and
    int() on a float. */
module Sampling {

  datatype Option<T> = None | Some(value: T)

  /** Python's range(start, end, step) for a positive step. */
  function Range(start: nat, end: int, step: nat): (r: seq<nat>)
    requires step > 0
    ensures r == [] <==> start >= end
    ensures forall i :: 0 <= i < |r| ==> start <= r[i] < end
    ensures forall i, j :: 0 <= i < j < |r| ==> r[i] < r[j]
    ensures r != [] ==> r[0] == start
    ensures forall i :: 0 <= i < |r| - 1 ==> r[i + 1] == r[i] + step
    decreases end - start
  {
    if start >= end then [] else [start] + Range(start + step, end, step)
  }

  /** Every frame start + k*step below end is in the range. */
  lemma {:induction false} RangeComplete(start: nat, end: int, step: nat, k: nat)
    requires step > 0 && start + k * step < end
    ensures start + k * step in Range(start, end, step)
    decreases k
  {
    if k > 0 {
      assert start + k * step == (start + step) + (k - 1) * step;
      RangeComplete(start + step, end, step, k - 1);
    }
  }

  function Seconds(f: int, fps: nat): real
    requires fps > 0
  {
    f as real / fps as real
  }

  /** Python's int() on a float: truncation toward zero. */
  function Trunc(x: real): int {
    if x >= 0.0 then x.Floor else -((-x).Floor)
  }

  /** int(t * fps): the frame a timestamp points at. */
  function FrameAt(t: real, fps: nat): int {
    Trunc(t * fps as real)
  }

  /** Converting a frame to seconds and back gives the frame again. */
  lemma FrameAtSeconds(f: int, fps: nat)
    requires fps > 0
    ensures FrameAt(Seconds(f, fps), fps) == f
  {
    assert Seconds(f, fps) * fps as real == f as real;
  }

  lemma SecondsMonotone(f: int, g: int, fps: nat)
    requires fps > 0 && f < g
    ensures Seconds(f, fps) < Seconds(g, fps)
  {
    assert Seconds(g, fps) - Seconds(f, fps) == (g - f) as real / fps as real;
  }
}
