/** The debounce that gates the scene-list rebuild: the rebuild runs when the
    name count differs from the handle count or when `Counter` has reached
    `CoolDown`; `Counter` grows by the frame time on every frame with a manager
    and is never reset, so once the cooldown is reached the gate never closes. */
module Refresh {

  /** The window's `CoolDown` field, in whole ticks. */
  const CoolDown: nat := 4

  /** The rebuild condition in `DrawSearchSection`. */
  predicate GateOpen(nameCount: nat, sceneCount: nat, counter: nat) {
    nameCount != sceneCount || counter >= CoolDown
  }

  /** `Counter` after a run of frames, each adding its `Time.deltaTime` in `DrawSearchSection`. */
  function CounterAfter(counter: nat, ticks: seq<nat>): nat
    decreases |ticks|
  {
    if |ticks| == 0 then counter else CounterAfter(counter + ticks[0], ticks[1..])
  }

  /** Running more frames never lowers the counter. */
  lemma {:induction false} CounterNeverDecreases(counter: nat, ticks: seq<nat>)
    ensures CounterAfter(counter, ticks) >= counter
    decreases |ticks|
  {
    if |ticks| > 0 {
      CounterNeverDecreases(counter + ticks[0], ticks[1..]);
    }
  }

  /** Frames compose: running `a` then `b` is running `a + b`. */
  lemma {:induction false} CounterAfterAppend(counter: nat, a: seq<nat>, b: seq<nat>)
    ensures CounterAfter(counter, a + b) == CounterAfter(CounterAfter(counter, a), b)
    decreases |a|
  {
    if |a| == 0 {
      assert a + b == b;
    } else {
      CounterAfterAppend(counter + a[0], a[1..], b);
      assert (a + b)[1..] == a[1..] + b;
    }
  }

  /** Once the counter has reached the cooldown, the gate is open on every later
      frame, whatever the counts. */
  lemma GateStaysOpen(counter: nat, ticks: seq<nat>, nameCount: nat, sceneCount: nat)
    requires counter >= CoolDown
    ensures GateOpen(nameCount, sceneCount, CounterAfter(counter, ticks))
  {
    CounterNeverDecreases(counter, ticks);
  }

  /** With equal counts, the gate is closed exactly while fewer than `CoolDown`
      ticks have accumulated: with one tick per frame from 0 it opens on frame 5. */
  lemma OneTickPerFrame(n: nat, frames: nat)
    ensures GateOpen(n, n, CounterAfter(0, seq(frames, _ => 1))) <==> frames >= CoolDown
  {
    CounterOnes(0, frames);
  }

  lemma {:induction false} CounterOnes(counter: nat, frames: nat)
    ensures CounterAfter(counter, seq(frames, _ => 1)) == counter + frames
    decreases frames
  {
    if frames > 0 {
      var s: seq<nat> := seq(frames, _ => 1);
      assert s[1..] == seq(frames - 1, _ => 1);
      CounterOnes(counter + 1, frames - 1);
    }
  }
}
