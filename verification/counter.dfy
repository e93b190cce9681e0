/** The frame loop of `animateCounter` (script.js:9-34). Each animation frame
    adds a fixed increment to `current`; while `current < target` the frame
    writes `floor(current)` and asks for another frame, otherwise it writes
    the exact `target` and, for counters inside a speed meter, starts the
    jitter oscillator on it. Arithmetic is exact rational arithmetic on
    `real`, not IEEE doubles, and the 1000 ms start delay is not modelled. */
module Counter {
  import opened Wrappers
  import Jitter

  /** The per-frame increment `target / (duration / 16.67)` (script.js:11). */
  function Increment(target: int, duration: real): real
    requires duration > 0.0
  {
    target as real / (duration / 16.67)
  }

  /** The increment lets the loop stop: either it moves `current` upwards,
      or the very first frame already reaches the target. */
  predicate Admissible(step: real, target: int) {
    step > 0.0 || step >= target as real
  }

  /** The source's increment is admissible for every integer target once the
      duration exceeds one 16.67 ms frame, which the default 2000 ms does. */
  lemma IncrementAdmissible(target: int, duration: real)
    requires duration > 16.67
    ensures Admissible(Increment(target, duration), target)
  {
    var frames := duration / 16.67;
    assert frames > 1.0;
    var step := Increment(target, duration);
    assert step * frames == target as real;
    if target <= 0 {
      assert step <= 0.0;
      assert step * frames <= step;
    }
  }

  /** Number of frames still needed from `current`: the termination measure. */
  function FramesLeft(current: real, step: real, target: int): int {
    if step > 0.0 && current < target as real
    then ((target as real - current) / step).Floor
    else 0
  }

  lemma DivShift(a: real, s: real)
    requires s > 0.0
    ensures (a - s) / s == a / s - 1.0
  {
    calc {
      (a - s) / s;
      a / s - s / s;
      a / s - 1.0;
    }
  }

  /** One frame lowers the measure by one. */
  lemma FramesLeftStep(current: real, step: real, target: int)
    requires step > 0.0 && current + step < target as real
    ensures FramesLeft(current, step, target) == FramesLeft(current + step, step, target) + 1
    ensures FramesLeft(current + step, step, target) >= 0
  {
    var a := target as real - current;
    var q := a / step;
    var q' := (a - step) / step;
    DivShift(a, step);
    assert q' > 0.0 by { assert q' * step > 0.0; }
  }

  /** The value of `current` once `n` frames have each added `step` to it. */
  function At(n: nat, step: real): real
    decreases n
  {
    if n == 0 then 0.0 else At(n - 1, step) + step
  }

  /** With a non-negative increment `current` never decreases. */
  lemma {:induction false} AtMonotone(m: nat, n: nat, step: real)
    requires step >= 0.0 && m <= n
    ensures 0.0 <= At(m, step) <= At(n, step)
    decreases n
  {
    if m < n {
      AtMonotone(m, n - 1, step);
    } else if m > 0 {
      AtMonotone(m - 1, m - 1, step);
    }
  }

  /** One write of the counter's text: a frame still in progress writes
      `floor(current)`, the final frame writes the exact target. */
  datatype Write = Progress(current: real) | Final(target: int)

  /** The integer text a write puts in the element. */
  function Text(w: Write): int {
    match w
    case Progress(current) => current.Floor
    case Final(target) => target
  }

  /** The writes made by the frame that starts from `current` and by all the
      frames it schedules in turn. */
  function Frames(current: real, step: real, target: int): (w: seq<Write>)
    requires step > 0.0 || current + step >= target as real
    ensures |w| >= 1 && w[|w| - 1] == Final(target)
    decreases FramesLeft(current, step, target) + 1
  {
    var next := current + step;
    if next < target as real then
      FramesLeftStep(current, step, target);
      [Progress(next)] + Frames(next, step, target)
    else
      [Final(target)]
  }

  /** What one animation leaves behind: the writes, in order, and the jitter
      oscillator it started, if any. */
  datatype Animation = Animation(writes: seq<Write>, jitter: Option<Jitter.Oscillator>)

  /** Write `i` of the frames that start once `k` frames have run, unless it
      is the last, is `current` after frame `k + i + 1`, still below the
      target. */
  lemma {:induction false} FrameWrite(k: nat, step: real, target: int, i: nat)
    requires step > 0.0 || At(k, step) + step >= target as real
    requires i < |Frames(At(k, step), step, target)| - 1
    ensures At(k + i + 1, step) < target as real
    ensures Frames(At(k, step), step, target)[i] == Progress(At(k + i + 1, step))
    decreases i
  {
    var next := At(k, step) + step;
    assert At(k + 1, step) == next;
    if i > 0 {
      FrameWrite(k + 1, step, target, i - 1);
      assert (k + 1) + (i - 1) + 1 == k + i + 1;
    }
  }

  /** The frames that start once `k` frames have run stop at the first frame
      whose value reaches the target. */
  lemma {:induction false} FramesStop(k: nat, step: real, target: int)
    requires step > 0.0 || At(k, step) + step >= target as real
    ensures At(k + |Frames(At(k, step), step, target)|, step) >= target as real
    decreases FramesLeft(At(k, step), step, target)
  {
    var next := At(k, step) + step;
    assert At(k + 1, step) == next;
    if next < target as real {
      FramesLeftStep(At(k, step), step, target);
      FramesStop(k + 1, step, target);
      assert |Frames(At(k, step), step, target)| == 1 + |Frames(next, step, target)|;
    }
  }

  /** The closed form from the start of the animation, `current = 0`. */
  lemma FramesFromZero(step: real, target: int)
    requires Admissible(step, target)
    ensures forall i :: 0 <= i < |Frames(0.0, step, target)| - 1 ==>
      Frames(0.0, step, target)[i] == Progress(At(i + 1, step))
      && Frames(0.0, step, target)[i].current < target as real
    ensures At(|Frames(0.0, step, target)|, step) >= target as real
  {
    assert At(0, step) == 0.0;
    var w := Frames(0.0, step, target);
    forall i | 0 <= i < |w| - 1
      ensures w[i] == Progress(At(i + 1, step)) && w[i].current < target as real
    {
      FrameWrite(0, step, target, i);
      assert 0 + i + 1 == i + 1;
    }
    FramesStop(0, step, target);
    assert 0 + |w| == |w|;
  }

  /** `animateCounter` on a counter element: frames from 0 with the given
      increment, then the jitter hand-off for speed-meter counters.
      Every write but the last is progress at a `current` still below the
      target, the loop stops at the first frame that reaches the target,
      its last write is exactly the target, and jitter starts, on the
      target, exactly when the counter sits inside a speed meter. */
  function Animate(target: int, step: real, inSpeedMeter: bool): (a: Animation)
    requires Admissible(step, target)
    ensures |a.writes| >= 1 && a.writes[|a.writes| - 1] == Final(target)
    ensures forall i :: 0 <= i < |a.writes| - 1 ==>
      a.writes[i] == Progress(At(i + 1, step)) && a.writes[i].current < target as real
    ensures At(|a.writes|, step) >= target as real
    ensures a.jitter.Some? <==> inSpeedMeter
    ensures a.jitter.Some? ==> a.jitter.value == Jitter.Start(target)
  {
    FramesFromZero(step, target);
    Animation(Frames(0.0, step, target),
              if inSpeedMeter then Some(Jitter.Start(target)) else None)
  }

  /** A counter with a non-negative target never shows a text outside
      `[0, target]` and never counts down: no write overshoots the target,
      and the last text is the target itself. */
  lemma TextsBounded(target: int, step: real, inSpeedMeter: bool)
    requires target >= 0 && Admissible(step, target)
    ensures var w := Animate(target, step, inSpeedMeter).writes;
      && Text(w[|w| - 1]) == target
      && (forall i :: 0 <= i < |w| ==> 0 <= Text(w[i]) <= target)
      && (forall i, j :: 0 <= i <= j < |w| ==> Text(w[i]) <= Text(w[j]))
  {
    var w := Animate(target, step, inSpeedMeter).writes;
    forall i | 0 <= i < |w|
      ensures 0 <= Text(w[i]) <= target
    {
      if i < |w| - 1 {
        AtMonotone(0, i + 1, step);
        assert w[i] == Progress(At(i + 1, step));
      }
    }
    forall i, j | 0 <= i <= j < |w|
      ensures Text(w[i]) <= Text(w[j])
    {
      if j < |w| - 1 {
        AtMonotone(i + 1, j + 1, step);
        assert w[i] == Progress(At(i + 1, step));
        assert w[j] == Progress(At(j + 1, step));
      } else if i < |w| - 1 {
        assert w[i] == Progress(At(i + 1, step));
      }
    }
  }
}
