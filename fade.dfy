/** Brightness scaling of the fade animation.

    Step `i` of an animation of `n` steps shows every byte of the baseline
    frame multiplied by i/n (fade-in) or 1 - i/n = (n-i)/n (fade-out) and
    truncated to a byte. The source computes the factor as a double; here it
    is exact rational arithmetic with integer floor. IEEE rounding of the
    factor and of the product lands one below the exact floor at 179 of the
    15,872 (step, byte, direction) combinations and never above it, which
    this model does not capture. */
module Fade {
  import opened Framebuffer

  /** The number of brightness steps; the animation shows FadeInSteps + 1 frames. */
  const FadeInSteps: nat := 30

  /** The numerator of the brightness factor i/n at step `i`. */
  function Level(i: nat, n: nat, fadeOut: bool): (l: nat)
    requires i <= n
    ensures l <= n
  {
    if fadeOut then n - i else i
  }

  /** One byte scaled by the factor of step `i`, truncated. */
  function Scale(v: byte, i: nat, n: nat, fadeOut: bool): (r: byte)
    requires 0 < n && i <= n
    ensures r as int * n <= v * Level(i, n, fadeOut) < (r as int + 1) * n
  {
    var l := Level(i, n, fadeOut);
    ScaleBound(v, l, n);
    FloorDiv(v * l, n);
    v * l / n
  }

  lemma FloorDiv(a: nat, n: nat)
    requires 0 < n
    ensures (a / n) * n <= a < (a / n + 1) * n
  {
    assert a == (a / n) * n + a % n;
    assert (a / n + 1) * n == (a / n) * n + n;
  }

  lemma ScaleBound(v: byte, l: nat, n: nat)
    requires 0 < n && l <= n
    ensures v * l / n <= v
  {
    MulMonotone(l, n, v);
    DivMonotone(v * l, v * n, n);
    DivModUnique(v * n, n, v, 0);
  }

  lemma DivMonotone(a: nat, b: nat, n: nat)
    requires 0 < n && a <= b
    ensures a / n <= b / n
  {
    if b / n < a / n {
      MulMonotone(b / n + 1, a / n, n);
    }
  }

  /** The frame of step `i`: every baseline byte scaled. */
  function Frame(base: seq<byte>, i: nat, n: nat, fadeOut: bool): (f: seq<byte>)
    requires 0 < n && i <= n
    ensures |f| == |base|
  {
    seq(|base|, p requires 0 <= p < |base| => Scale(base[p], i, n, fadeOut))
  }

  /** The first `count` frames of the animation, in the order they are shown:
      each pass of the loop appends the frame of its step. */
  function Frames(base: seq<byte>, n: nat, fadeOut: bool, count: nat): (fs: seq<seq<byte>>)
    requires 0 < n && count <= n + 1
    ensures |fs| == count
    ensures forall k :: 0 <= k < count ==> fs[k] == Frame(base, k, n, fadeOut)
  {
    if count == 0 then []
    else Frames(base, n, fadeOut, count - 1) + [Frame(base, count - 1, n, fadeOut)]
  }

  /** No step is brighter than the baseline. */
  lemma FrameAtMostBase(base: seq<byte>, i: nat, n: nat, fadeOut: bool, p: nat)
    requires 0 < n && i <= n && p < |base|
    ensures Frame(base, i, n, fadeOut)[p] <= base[p]
  {
    ScaleBound(base[p], Level(i, n, fadeOut), n);
  }

  /** A fade-in starts all dark and ends at the baseline; a fade-out the reverse. */
  lemma FadeEnds(base: seq<byte>, n: nat)
    requires 0 < n
    ensures Frame(base, 0, n, false) == seq(|base|, p => 0)
    ensures Frame(base, n, n, false) == base
    ensures Frame(base, 0, n, true) == base
    ensures Frame(base, n, n, true) == seq(|base|, p => 0)
  {
    forall p | 0 <= p < |base|
      ensures Frame(base, n, n, false)[p] == base[p] && Frame(base, 0, n, true)[p] == base[p]
    {
      DivModUnique(base[p] * n, n, base[p], 0);
    }
  }

  /** Scaling is monotone in the factor's numerator. */
  lemma ScaleMonotone(v: byte, l: nat, m: nat, n: nat)
    requires 0 < n && l <= m <= n
    ensures v * l / n <= v * m / n
  {
    MulMonotone(l, m, v);
    DivMonotone(v * l, v * m, n);
  }

  /** Fade-in brightness never decreases from one step to a later one and
      fade-out brightness never increases, byte by byte. */
  lemma FadeMonotone(base: seq<byte>, i: nat, j: nat, n: nat, p: nat)
    requires 0 < n && i <= j <= n && p < |base|
    ensures Frame(base, i, n, false)[p] <= Frame(base, j, n, false)[p]
    ensures Frame(base, j, n, true)[p] <= Frame(base, i, n, true)[p]
  {
    ScaleMonotone(base[p], i, j, n);
    ScaleMonotone(base[p], n - j, n - i, n);
  }

  /** Fade-out step i shows the same frame as fade-in step n - i, in exact
      arithmetic only: with the source's double factors, 1 - i/30 and
      (30 - i)/30 truncate differently at 173 (step, byte) pairs, such as
      step 23 of a fade-out turning byte 30 into 6 where step 7 of a fade-in
      gives 7. */
  lemma FadeOutMirrorsFadeIn(base: seq<byte>, i: nat, n: nat)
    requires 0 < n && i <= n
    ensures Frame(base, i, n, true) == Frame(base, n - i, n, false)
  {
  }
}
