/**
 * `SpinnerText`: a four-frame text spinner that moves to the next frame once every
 * `skipFrames` calls of `nextFrame`.
 */
module Spinner {
  /** The frames, in the order the spinner shows them. */
  const Frames: seq<string> := ["◐", "◓", "◑", "◒"]

  /** `Math.max`. */
  function Max(a: int, b: int): int
  {
    if a < b then b else a
  }

  /**
   * One call of `nextFrame` on the counters `(index, callCount)`: the call is counted, and
   * when the count reaches `skipFrames` it restarts from zero and the frame advances. Counters
   * in range stay in range, and the count only drops back to zero when the frame moves on.
   */
  function Tick(index: nat, callCount: nat, skipFrames: nat): (r: (nat, nat))
    ensures index < |Frames| && 1 <= skipFrames && callCount < skipFrames ==> r.0 < |Frames| && r.1 < skipFrames
    ensures r.1 == 0 <==> callCount + 1 >= skipFrames
  {
    if callCount + 1 >= skipFrames then ((index + 1) % |Frames|, 0) else (index, callCount + 1)
  }

  /** `n` calls of `nextFrame`, one after another. */
  function Ticks(index: nat, callCount: nat, skipFrames: nat, n: nat): (r: (nat, nat))
    decreases n
  {
    if n == 0 then (index, callCount)
    else
      var next := Tick(index, callCount, skipFrames);
      Ticks(next.0, next.1, skipFrames, n - 1)
  }

  /** A positive multiple of `d` is at least `d`. */
  lemma {:induction false} MultipleAtLeast(k: nat, d: nat)
    requires 1 <= k
    ensures k * d >= d
    decreases k
  {
    if k > 1 {
      MultipleAtLeast(k - 1, d);
      MultipleStep(k, d);
    }
  }

  /** One round fewer. */
  lemma MultipleStep(k: nat, d: nat)
    requires 1 <= k
    ensures k * d == (k - 1) * d + d
  {
  }

  /** Advancing once and then `k - 1` times is advancing `k` times. */
  lemma AdvanceShift(index: nat, k: nat)
    requires index < |Frames| && 1 <= k
    ensures ((index + 1) % |Frames| + (k - 1)) % |Frames| == (index + k) % |Frames|
  {
    if index + 1 == |Frames| {
      assert (index + 1) % |Frames| == 0;
      assert index + k == (k - 1) + |Frames|;
    }
  }

  /**
   * After `n` calls, started from a call count below `skipFrames`, where the counted calls
   * `callCount + n` make `k` full rounds of `skipFrames` and `m` more: the frame has advanced
   * `k` times and the count is `m`.
   */
  lemma {:induction false} TicksRounds(index: nat, callCount: nat, skipFrames: nat, n: nat, k: nat, m: nat)
    requires index < |Frames| && callCount < skipFrames && m < skipFrames && callCount + n == k * skipFrames + m
    ensures Ticks(index, callCount, skipFrames, n) == ((index + k) % |Frames|, m)
    decreases n
  {
    if k >= 1 {
      MultipleAtLeast(k, skipFrames);
      MultipleStep(k, skipFrames);
    }
    if n == 0 {
      assert k == 0;
    } else if callCount + 1 >= skipFrames {
      assert k >= 1;
      AdvanceShift(index, k);
      TicksRounds((index + 1) % |Frames|, 0, skipFrames, n - 1, k - 1, m);
    } else {
      TicksRounds(index, callCount + 1, skipFrames, n - 1, k, m);
    }
  }

  /**
   * The frame changes on exactly every `skipFrames`-th call: a fresh spinner shows frame
   * `(n / skipFrames) % 4` after `n` calls.
   */
  lemma FrameAfterCalls(skipFrames: nat, n: nat)
    requires 1 <= skipFrames
    ensures Ticks(0, 0, skipFrames, n).0 == (n / skipFrames) % |Frames|
    ensures Ticks(0, 0, skipFrames, n).1 == n % skipFrames
  {
    TicksRounds(0, 0, skipFrames, n, n / skipFrames, n % skipFrames);
  }

  class SpinnerText {
    var index: nat
    var callCount: nat
    const skipFrames: nat

    /** The frame index names a frame and the call count is below `skipFrames`. */
    ghost predicate Valid()
      reads this
    {
      index < |Frames| && 1 <= skipFrames && callCount < skipFrames
    }

    /** `new SpinnerText(skipFrames)`: at least one call per frame, starting at the first frame. */
    constructor(skip: int)
      ensures Valid()
      ensures skipFrames == Max(1, skip) && index == 0 && callCount == 0
      ensures CurrentFrame() == Frames[0]
    {
      skipFrames := Max(1, skip);
      index, callCount := 0, 0;
    }

    /** `getCurrentFrame`: the frame the index names. */
    function CurrentFrame(): (frame: string)
      requires Valid()
      reads this
      ensures frame in Frames
    {
      Frames[index]
    }

    /** `nextFrame`: one tick of the counters, then the frame they name. */
    method NextFrame() returns (frame: string)
      requires Valid()
      modifies this
      ensures Valid()
      ensures (index, callCount) == Tick(old(index), old(callCount), skipFrames)
      ensures frame == CurrentFrame()
    {
      callCount := callCount + 1;
      if callCount >= skipFrames {
        callCount := 0;
        index := (index + 1) % |Frames|;
      }
      return Frames[index];
    }
  }
}
