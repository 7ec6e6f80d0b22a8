/** The splash program's global state and the routines that change it: the
    pixel write with its visibility gate, the compositing of the baseline
    frame, the fade loop that copies every frame into the device buffer, and
    the two signal handlers' effects on the flags.

    Asynchronous signal delivery is modelled at the points where it matters
    to the fade loop: `interruptAt` is the number of loop tests that pass
    before the termination handler runs (a value above FadeInSteps + 1 means
    it never runs during the fade). */
module Splash {
  import opened Framebuffer
  import opened Fade
  import opened Composite

  /** The program fades out when its first argument is "shutdown" and in otherwise. */
  function IsShutdown(args: seq<string>): (r: bool)
    ensures r ==> |args| >= 2
    ensures |args| >= 2 ==> (r <==> args[1] == "shutdown")
  {
    |args| > 1 && args[1] == "shutdown"
  }

  /** The number of frames the fade loop copies into the device buffer: none
      when the program is no longer running, FadeInSteps + 1 when no
      termination signal arrives, and otherwise one per loop test passed
      before the signal. */
  function FramesShown(running: bool, interruptAt: nat): (k: nat)
    ensures k <= FadeInSteps + 1
    ensures !running ==> k == 0
    ensures running && interruptAt > FadeInSteps ==> k == FadeInSteps + 1
    ensures running && interruptAt <= FadeInSteps ==> k == interruptAt
  {
    if !running then 0
    else if interruptAt <= FadeInSteps then interruptAt
    else FadeInSteps + 1
  }

  class State {
    /** The device description, read once at start-up. */
    const info: ScreenInfo
    /** The decoded image and its own width in pixels. */
    const image: seq<Rgb>
    const splashWidth: nat
    const screensize: nat
    /** The memory-mapped device buffer. */
    var fbp: array<byte>
    var vtVisible: bool
    var running: bool
    /** Every frame copied into the device buffer, in order. */
    ghost var Shown: seq<seq<byte>>

    ghost predicate Valid()
      reads this
    {
      && WellFormed(info, image, splashWidth)
      && screensize == ScreenSize(info)
      && fbp.Length == screensize
    }

    /** Start-up: the image is decoded, the device described and mapped; the
        console is visible and the program running. */
    constructor (info: ScreenInfo, image: seq<Rgb>, width: nat)
      requires WellFormed(info, image, width)
      ensures Valid() && fresh(fbp)
      ensures this.info == info && this.image == image && splashWidth == width
      ensures vtVisible && running && Shown == []
    {
      this.info := info;
      this.image := image;
      splashWidth := width;
      screensize := info.lineLength * info.yres;
      fbp := new byte[info.lineLength * info.yres];
      vtVisible := true;
      running := true;
      Shown := [];
    }

    /** Writes one pixel into `dst`. The wait for visibility is over at once:
        it could only end by a signal handler changing a flag. When the
        program is no longer running nothing is written. */
    method SetPixel(dst: array<byte>, x: nat, y: nat, c: Rgb)
      requires Valid() && (running ==> vtVisible)
      requires WriteFits(info, x, y, dst.Length)
      modifies dst
      ensures dst[..] == if running then PlacePixel(info, old(dst[..]), x, y, c) else old(dst[..])
      ensures dst[..] != old(dst[..]) ==> running && vtVisible
    {
      if !running {
        return;
      }
      var offset := PixelOffset(info, x, y);
      if info.bitsPerPixel == 32 {
        dst[offset] := c.b;
        dst[offset + 1] := c.g;
        dst[offset + 2] := c.r;
      } else if info.bitsPerPixel == 16 {
        var word := WordBytes(Pack16(info, c));
        dst[offset], dst[offset + 1] := word[0], word[1];
      }
    }

    /** Writes every pixel of the image, row by row, into the zero-filled
        buffer `bgr` at full brightness. */
    method ComposeBaseline(bgr: array<byte>)
      requires Valid() && (running ==> vtVisible)
      requires bgr.Length == screensize && forall p :: 0 <= p < bgr.Length ==> bgr[p] == 0
      modifies bgr
      ensures bgr[..] == if running then Baseline(info, image, splashWidth) else seq(screensize, p => 0)
    {
      ghost var zeros := seq(screensize, p => 0);
      PartialStart(info, image, splashWidth);
      var y := 0;
      while y < info.yres
        invariant 0 <= y <= info.yres
        invariant bgr[..] == if running then Partial(info, image, splashWidth, 0, y) else zeros
      {
        var x := 0;
        while x < info.xres
          invariant 0 <= x <= info.xres
          invariant bgr[..] == if running then Partial(info, image, splashWidth, x, y) else zeros
        {
          PartialStep(info, image, splashWidth, x, y);
          SetPixel(bgr, x, y, GetPixel(image, splashWidth, x, y));
          x := x + 1;
        }
        PartialRowEnd(info, image, splashWidth, y);
        y := y + 1;
      }
      PartialDone(info, image, splashWidth);
    }

    /** The fade loop: FadeInSteps + 1 steps while running; each scales the
        baseline `bgr` into `screenbuffer` and copies the whole of it into the
        device buffer. */
    method RunFade(bgr: array<byte>, screenbuffer: array<byte>, fadeOut: bool, interruptAt: nat)
      requires Valid()
      requires bgr.Length == screensize && screenbuffer.Length == screensize
      requires bgr != screenbuffer && bgr != fbp && screenbuffer != fbp
      modifies this`running, this`Shown, screenbuffer, fbp
      ensures Valid()
      ensures running == (old(running) && interruptAt > FadeInSteps + 1)
      ensures Shown == old(Shown) + Frames(bgr[..], FadeInSteps, fadeOut, FramesShown(old(running), interruptAt))
      ensures var k := FramesShown(old(running), interruptAt);
              if k > 0 then fbp[..] == screenbuffer[..] == Frame(bgr[..], k - 1, FadeInSteps, fadeOut)
              else fbp[..] == old(fbp[..]) && screenbuffer[..] == old(screenbuffer[..])
    {
      ghost var base := bgr[..];
      if interruptAt == 0 {
        Exit();
      }
      var i := 0;
      while i <= FadeInSteps && running
        invariant 0 <= i <= FadeInSteps + 1
        invariant running == (old(running) && i < interruptAt)
        invariant !old(running) ==> i == 0
        invariant old(running) ==> i <= interruptAt
        invariant Shown == old(Shown) + Frames(base, FadeInSteps, fadeOut, i)
        invariant if i > 0 then fbp[..] == screenbuffer[..] == Frame(base, i - 1, FadeInSteps, fadeOut)
                  else fbp[..] == old(fbp[..]) && screenbuffer[..] == old(screenbuffer[..])
      {
        var p := 0;
        while p < screensize
          modifies screenbuffer
          invariant 0 <= p <= screensize
          invariant forall q :: 0 <= q < p ==> screenbuffer[q] == Scale(bgr[q], i, FadeInSteps, fadeOut)
        {
          screenbuffer[p] := Scale(bgr[p], i, FadeInSteps, fadeOut);
          p := p + 1;
        }
        ghost var frame := Frame(base, i, FadeInSteps, fadeOut);
        assert screenbuffer[..] == frame;
        forall q | 0 <= q < screensize {
          fbp[q] := screenbuffer[q];
        }
        assert fbp[..] == screenbuffer[..] == frame;
        assert Frames(base, FadeInSteps, fadeOut, i + 1) == Frames(base, FadeInSteps, fadeOut, i) + [frame];
        Shown := Shown + [fbp[..]];
        i := i + 1;
        if i == interruptAt {
          Exit();
        }
      }
    }

    /** Allocates the two off-screen buffers, composes the baseline into the
        zero-filled one and runs the fade. */
    method AnimateFade(fadeOut: bool, interruptAt: nat)
      requires Valid() && (running ==> vtVisible)
      modifies this`running, this`Shown, fbp
      ensures Valid()
      ensures running == (old(running) && interruptAt > FadeInSteps + 1)
      ensures var base := if old(running) then Baseline(info, image, splashWidth) else seq(screensize, p => 0);
              var k := FramesShown(old(running), interruptAt);
              && Shown == old(Shown) + Frames(base, FadeInSteps, fadeOut, k)
              && (k > 0 ==> fbp[..] == Frame(base, k - 1, FadeInSteps, fadeOut))
              && (k == 0 ==> fbp[..] == old(fbp[..]))
    {
      var screenbuffer := new byte[screensize];
      var bgr := new byte[screensize];
      forall p | 0 <= p < screensize {
        bgr[p] := 0;
      }
      ComposeBaseline(bgr);
      RunFade(bgr, screenbuffer, fadeOut, interruptAt);
    }

    /** The program's main path once the device is mapped: clear the device
        buffer, then fade out if the first argument is "shutdown" and in
        otherwise. */
    method Run(args: seq<string>, interruptAt: nat)
      requires Valid() && (running ==> vtVisible)
      modifies this`running, this`Shown, fbp
      ensures Valid()
      ensures running == (old(running) && interruptAt > FadeInSteps + 1)
      ensures var fadeOut := IsShutdown(args);
              var base := if old(running) then Baseline(info, image, splashWidth) else seq(screensize, p => 0);
              var k := FramesShown(old(running), interruptAt);
              && Shown == old(Shown) + Frames(base, FadeInSteps, fadeOut, k)
              && fbp[..] == if k > 0 then Frame(base, k - 1, FadeInSteps, fadeOut) else seq(screensize, p => 0)
    {
      forall p | 0 <= p < screensize {
        fbp[p] := 0;
      }
      AnimateFade(IsShutdown(args), interruptAt);
    }

    /** The console-switch handler: a visible console becomes hidden and a
        hidden one visible. */
    method VtRequest()
      modifies this`vtVisible
      ensures vtVisible == !old(vtVisible)
    {
      if vtVisible {
        vtVisible := false;
      } else {
        vtVisible := true;
      }
    }

    /** The termination handler: the program stops running. */
    method Exit()
      modifies this`running
      ensures !running
    {
      running := false;
    }
  }
}
