/** The idle animation: every frame fades the whole strip and repaints one lane
    of every tenth cell, the lane advancing every 250 ms. The hue `c`, which the
    program computes from the time in floating point, is an input here. */
module Screensaver {
  import opened Numerics
  import opened LedString

  /** Fade factor applied to every cell each frame. */
  const FADE: Byte := 250
  /** The lanes are the residues of the cell index modulo LANES. */
  const LANES: nat := 10
  /** How long one lane stays lit, in milliseconds. */
  const WINDOW_MS: nat := 250
  const SATURATION: Byte := 255
  const VALUE: Byte := 150

  /** The lit lane at `time` milliseconds. */
  function Lane(time: U32): (n: nat)
    ensures n < LANES
  {
    (time / WINDOW_MS) % LANES
  }

  /** The colour the lit lane is painted with for hue `c`. */
  function LaneColor(ops: ColorOps, c: Byte): Color {
    ops.hsv(c, SATURATION, VALUE)
  }

  /** First pass: every cell faded by FADE. */
  function FadeAll(ops: ColorOps, s: Strip): Strip {
    // Naming the comprehension lets the verifier see it keeps the length bound of Strip.
    var r := seq(|s|, i requires 0 <= i < |s| => ops.nscale8(s[i], FADE));
    r
  }

  /** Second pass: every cell of lane `n` overwritten with `color`. */
  function PaintLane(s: Strip, n: nat, color: Color): Strip {
    var r := seq(|s|, i requires 0 <= i < |s| => if i % LANES == n then color else s[i]);
    r
  }

  /** The frame that follows `prior` at `time`, with the mode fixed at 0. */
  function Frame(ops: ColorOps, prior: Strip, time: U32, c: Byte): (r: Strip)
    ensures |r| == |prior|
    ensures forall i | 0 <= i < |r| && i % LANES == Lane(time) :: r[i] == LaneColor(ops, c)
    ensures forall i | 0 <= i < |r| && i % LANES != Lane(time) :: r[i] == ops.nscale8(prior[i], FADE)
  {
    PaintLane(FadeAll(ops, prior), Lane(time), LaneColor(ops, c))
  }

  /** The two in-place loops of the program, on a local copy of the strip. */
  method Tick(ops: ColorOps, strip: Strip, time: U32, c: Byte) returns (out: Strip)
    ensures out == Frame(ops, strip, time, c)
  {
    out := strip;
    var i := 0;
    while i < |out|
      invariant 0 <= i <= |out| == |strip|
      invariant forall j | 0 <= j < i :: out[j] == ops.nscale8(strip[j], FADE)
      invariant forall j | i <= j < |out| :: out[j] == strip[j]
    {
      out := out[i := ops.nscale8(out[i], FADE)];
      i := i + 1;
    }
    var n := (time / WINDOW_MS) % LANES;
    i := 0;
    while i < |out|
      invariant 0 <= i <= |out| == |strip|
      invariant forall j | 0 <= j < i && j % LANES == n :: out[j] == LaneColor(ops, c)
      invariant forall j | 0 <= j < |out| && (i <= j || j % LANES != n) :: out[j] == ops.nscale8(strip[j], FADE)
    {
      if i % LANES == n {
        out := out[i := ops.hsv(c, SATURATION, VALUE)];
      }
      i := i + 1;
    }
  }

  /** Every time inside the k-th 250 ms window lights lane k mod 10. */
  lemma LaneConstantInWindow(time: U32, k: nat)
    requires k * WINDOW_MS <= time < (k + 1) * WINDOW_MS
    ensures Lane(time) == k % LANES
  {
    assert time / WINDOW_MS == k;
  }

  /** Moving on by one window lights the next lane, wrapping after the tenth. */
  lemma LaneAdvances(time: U32)
    requires time + WINDOW_MS < TWO_32
    ensures Lane(time + WINDOW_MS) == (Lane(time) + 1) % LANES
  {
    assert (time + WINDOW_MS) / WINDOW_MS == time / WINDOW_MS + 1;
  }

  /** Two times in the same window with the same hue yield the same frame. */
  lemma FrameConstantInWindow(ops: ColorOps, prior: Strip, t1: U32, t2: U32, c: Byte)
    requires t1 / WINDOW_MS == t2 / WINDOW_MS
    ensures Frame(ops, prior, t1, c) == Frame(ops, prior, t2, c)
  {
  }

  /** All lit cells of one frame carry one colour. */
  lemma LaneCellsAgree(ops: ColorOps, prior: Strip, time: U32, c: Byte, i: nat, j: nat)
    requires i < |prior| && j < |prior|
    requires i % LANES == Lane(time) && j % LANES == Lane(time)
    ensures Frame(ops, prior, time, c)[i] == Frame(ops, prior, time, c)[j]
  {
  }

  /** The 144-cell strip of the simulator at t = 250 ms: exactly the cells with
      index 1 mod 10 are lit, every other cell is the prior one faded. */
  lemma LitCellsAt250(ops: ColorOps, prior: Strip, c: Byte)
    requires |prior| == 144
    ensures var r := Frame(ops, prior, 250, c);
            forall i | 0 <= i < 144 ::
              (i % 10 == 1 ==> r[i] == LaneColor(ops, c)) &&
              (i % 10 != 1 ==> r[i] == ops.nscale8(prior[i], FADE))
  {
    assert Lane(250) == 1;
  }
}
