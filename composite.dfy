/** The baseline frame: the device-native bytes of the whole source image at
    full brightness, as the compositing loop leaves them in a zero-filled
    buffer. `Baseline` is a reference definition byte by byte, through
    `Owner`; `Partial` is the buffer part-way through the row-major loop. */
module Composite {
  import opened Framebuffer
  import opened Fade

  /** The source image reaches every index the loop reads: pixel (x, y) is
      read at y * width + x, with `width` the image's own width, for x below
      xres and y below yres. */
  predicate ImageCovers(info: ScreenInfo, image: seq<Rgb>, width: nat)
  {
    info.xres == 0 || info.yres == 0 || (info.yres - 1) * width + info.xres <= |image|
  }

  /** What the source requires of the device and the image without checking it. */
  predicate WellFormed(info: ScreenInfo, image: seq<Rgb>, width: nat)
  {
    ChannelsValid(info) && FitsScreen(info) && SizeFitsInt(info) && ImageCovers(info, image, width)
  }

  /** Every source index the loop reads is inside the image. */
  lemma SourceIndexInBounds(info: ScreenInfo, image: seq<Rgb>, width: nat, x: nat, y: nat)
    requires ImageCovers(info, image, width)
    requires x < info.xres && y < info.yres
    ensures y * width + x < |image|
  {
    MulMonotone(y, info.yres - 1, width);
  }

  /** The source pixel at column x, row y of an image `width` pixels wide. */
  function GetPixel(image: seq<Rgb>, width: nat, x: nat, y: nat): Rgb
    requires y * width + x < |image|
  {
    image[y * width + x]
  }

  /** The byte a pixel write leaves at a position owned by `o`: byte k of the
      packed source pixel (x, y), or 0 for a position no write covers. */
  function OwnedByte(info: ScreenInfo, image: seq<Rgb>, width: nat, o: Option<Position>): byte
    requires ChannelsValid(info)
    requires o.Some? ==> o.value.k < BytesWritten(info) && o.value.y * width + o.value.x < |image|
  {
    match o
    case None => 0
    case Some(pos) => PixelBytes(info, GetPixel(image, width, pos.x, pos.y))[pos.k]
  }

  /** Byte `p` of the baseline: the byte of the pixel that owns it, or 0. */
  function BaselineByte(info: ScreenInfo, image: seq<Rgb>, width: nat, p: nat): byte
    requires WellFormed(info, image, width)
  {
    if Owner(info, p).Some? then
      var pos := Owner(info, p).value;
      OwnerPosition(info, p);
      SourceIndexInBounds(info, image, width, pos.x, pos.y);
      OwnedByte(info, image, width, Owner(info, p))
    else
      OwnedByte(info, image, width, None)
  }

  /** The whole baseline frame, screensize bytes. */
  function Baseline(info: ScreenInfo, image: seq<Rgb>, width: nat): (r: seq<byte>)
    requires WellFormed(info, image, width)
    ensures |r| == ScreenSize(info)
  {
    seq(ScreenSize(info), p requires 0 <= p < ScreenSize(info) => BaselineByte(info, image, width, p))
  }

  /** Every pixel position of the screen holds the packed source pixel. */
  lemma BaselineAtPixel(info: ScreenInfo, image: seq<Rgb>, width: nat, x: nat, y: nat, k: nat)
    requires WellFormed(info, image, width)
    requires x < info.xres && y < info.yres && k < BytesWritten(info)
    ensures BytePos(info, x, y, k) < ScreenSize(info) && y * width + x < |image|
    ensures Baseline(info, image, width)[BytePos(info, x, y, k)]
              == PixelBytes(info, GetPixel(image, width, x, y))[k]
  {
    PixelFits(info, x, y);
    OwnerAt(info, x, y, k);
    SourceIndexInBounds(info, image, width, x, y);
  }

  /** Every byte that no pixel write covers is 0: the stride padding, the
      fourth byte of each pixel at 32 bits, and the whole frame at any depth
      other than 16 or 32. */
  lemma BaselineElsewhereZero(info: ScreenInfo, image: seq<Rgb>, width: nat, p: nat)
    requires WellFormed(info, image, width) && p < ScreenSize(info)
    requires forall x: nat, y: nat, k: nat :: x < info.xres && y < info.yres && k < BytesWritten(info) ==>
               BytePos(info, x, y, k) != p
    ensures Baseline(info, image, width)[p] == 0
  {
    if Owner(info, p).Some? {
      OwnerPosition(info, p);
    }
  }

  /** Pixel `pos` comes before (x, y) in the row-major order of the loop. */
  predicate Before(pos: Position, x: nat, y: nat)
  {
    pos.y < y || (pos.y == y && pos.x < x)
  }

  /** The buffer once every pixel before (x, y) has been written. */
  ghost function Partial(info: ScreenInfo, image: seq<Rgb>, width: nat, x: nat, y: nat): (r: seq<byte>)
    requires WellFormed(info, image, width)
    ensures |r| == ScreenSize(info)
  {
    seq(ScreenSize(info), p requires 0 <= p < ScreenSize(info) =>
      match Owner(info, p)
      case Some(pos) => if Before(pos, x, y) then BaselineByte(info, image, width, p) else 0
      case None => 0)
  }

  /** Before the first pixel the buffer is all zero. */
  lemma PartialStart(info: ScreenInfo, image: seq<Rgb>, width: nat)
    requires WellFormed(info, image, width)
    ensures Partial(info, image, width, 0, 0) == seq(ScreenSize(info), p => 0)
  {
  }

  /** Writing pixel (x, y) moves the loop on by one pixel. */
  lemma PartialStep(info: ScreenInfo, image: seq<Rgb>, width: nat, x: nat, y: nat)
    requires WellFormed(info, image, width)
    requires x < info.xres && y < info.yres
    ensures WriteFits(info, x, y, ScreenSize(info)) && y * width + x < |image|
    ensures PlacePixel(info, Partial(info, image, width, x, y), x, y, GetPixel(image, width, x, y))
              == Partial(info, image, width, x + 1, y)
  {
    SourceIndexInBounds(info, image, width, x, y);
    var before := Partial(info, image, width, x, y);
    var after := Partial(info, image, width, x + 1, y);
    var c := GetPixel(image, width, x, y);
    var off, w := PixelOffset(info, x, y), BytesWritten(info);
    PixelFits(info, x, y);
    if w == 0 {
      assert before == after;
    } else {
      var placed := PlacePixel(info, before, x, y, c);
      forall p | 0 <= p < |before|
        ensures placed[p] == after[p]
      {
        if off <= p < off + w {
          OwnerAt(info, x, y, p - off);
        } else if Owner(info, p).Some? {
          OwnerPosition(info, p);
        }
      }
    }
  }

  /** The end of one row is the start of the next. */
  lemma PartialRowEnd(info: ScreenInfo, image: seq<Rgb>, width: nat, y: nat)
    requires WellFormed(info, image, width)
    ensures Partial(info, image, width, info.xres, y) == Partial(info, image, width, 0, y + 1)
  {
    forall p | 0 <= p < ScreenSize(info)
      ensures Partial(info, image, width, info.xres, y)[p] == Partial(info, image, width, 0, y + 1)[p]
    {
      if Owner(info, p).Some? {
        OwnerPosition(info, p);
      }
    }
  }

  /** After the last row the buffer is the baseline. */
  lemma PartialDone(info: ScreenInfo, image: seq<Rgb>, width: nat)
    requires WellFormed(info, image, width)
    ensures Partial(info, image, width, 0, info.yres) == Baseline(info, image, width)
  {
    forall p | 0 <= p < ScreenSize(info)
      ensures Partial(info, image, width, 0, info.yres)[p] == Baseline(info, image, width)[p]
    {
      if Owner(info, p).Some? {
        OwnerPosition(info, p);
      }
    }
  }

  // ---------------------------------------------------------------------------
  // Scaling the packed bytes against scaling the channels

  /** One source pixel with every channel scaled by the factor of step i. */
  function ScaleRgb(c: Rgb, i: nat, n: nat, fadeOut: bool): Rgb
    requires 0 < n && i <= n
  {
    Rgb(Scale(c.r, i, n, fadeOut), Scale(c.g, i, n, fadeOut), Scale(c.b, i, n, fadeOut))
  }

  /** The source image with every channel scaled by the factor of step i. */
  function ScaleImage(image: seq<Rgb>, i: nat, n: nat, fadeOut: bool): (r: seq<Rgb>)
    requires 0 < n && i <= n
    ensures |r| == |image|
  {
    seq(|image|, j requires 0 <= j < |image| => ScaleRgb(image[j], i, n, fadeOut))
  }

  /** At 32 bits, scaling byte k of a pixel's bytes gives byte k of the
      channel-scaled pixel. */
  lemma ScalePixel32(info: ScreenInfo, c: Rgb, i: nat, n: nat, fadeOut: bool, k: nat)
    requires ChannelsValid(info) && info.bitsPerPixel == 32
    requires 0 < n && i <= n && k < 3
    ensures Scale(PixelBytes(info, c)[k], i, n, fadeOut) == PixelBytes(info, ScaleRgb(c, i, n, fadeOut))[k]
  {
  }

  /** At 32 bits, the byte at a position owned by `o`, scaled, is the byte
      there of the channel-scaled image. */
  lemma ScaleCommutes32At(info: ScreenInfo, image: seq<Rgb>, width: nat, i: nat, n: nat, fadeOut: bool, o: Option<Position>)
    requires ChannelsValid(info) && info.bitsPerPixel == 32
    requires 0 < n && i <= n
    requires o.Some? ==> o.value.k < 3 && o.value.y * width + o.value.x < |image|
    ensures Scale(OwnedByte(info, image, width, o), i, n, fadeOut)
         == OwnedByte(info, ScaleImage(image, i, n, fadeOut), width, o)
  {
    if o.Some? {
      var j := o.value.y * width + o.value.x;
      assert ScaleImage(image, i, n, fadeOut)[j] == ScaleRgb(image[j], i, n, fadeOut);
      ScalePixel32(info, image[j], i, n, fadeOut, o.value.k);
    }
  }

  /** At 32 bits, scaling the bytes of the packed baseline gives exactly the
      baseline of the channel-scaled image: scale-then-pack and
      pack-then-scale agree at every step. */
  lemma ScaleCommutes32(info: ScreenInfo, image: seq<Rgb>, width: nat, i: nat, n: nat, fadeOut: bool)
    requires WellFormed(info, image, width) && info.bitsPerPixel == 32
    requires 0 < n && i <= n
    ensures WellFormed(info, ScaleImage(image, i, n, fadeOut), width)
    ensures Frame(Baseline(info, image, width), i, n, fadeOut)
         == Baseline(info, ScaleImage(image, i, n, fadeOut), width)
  {
    var scaled := ScaleImage(image, i, n, fadeOut);
    assert WellFormed(info, scaled, width);
    forall p | 0 <= p < ScreenSize(info)
      ensures Frame(Baseline(info, image, width), i, n, fadeOut)[p] == Baseline(info, scaled, width)[p]
    {
      if Owner(info, p).Some? {
        var pos := Owner(info, p).value;
        OwnerPosition(info, p);
        SourceIndexInBounds(info, image, width, pos.x, pos.y);
      }
      ScaleCommutes32At(info, image, width, i, n, fadeOut, Owner(info, p));
    }
  }

  /** At 16 bits the two do not agree: a white RGB565 pixel at step 15 of 30
      of a fade-in has bytes 0xFF, 0xFF scaled to 127, 127, the word 0x7F7F,
      whose blue field is still at full brightness, while the channel-scaled
      pixel (127, 127, 127) packs to 0x7BEF. */
  lemma ScaleDiffers16()
    ensures var info := ScreenInfo(1, 1, 16, 0, 0, Bitfield(11, 5), Bitfield(5, 6), Bitfield(0, 5), 2);
            var image := [Rgb(255, 255, 255)];
            && WellFormed(info, image, 1)
            && Frame(Baseline(info, image, 1), 15, 30, false)[0] == 127
            && Baseline(info, ScaleImage(image, 15, 30, false), 1)[0] == 0xEF
  {
    var info := ScreenInfo(1, 1, 16, 0, 0, Bitfield(11, 5), Bitfield(5, 6), Bitfield(0, 5), 2);
    var image := [Rgb(255, 255, 255)];
    Pack565White(info);
    assert Owner(info, 0) == Some(Position(0, 0, 0));
    assert Baseline(info, image, 1)[0] == 255;
    var scaled := ScaleImage(image, 15, 30, false);
    assert scaled[0] == ScaleRgb(Rgb(255, 255, 255), 15, 30, false) == Rgb(127, 127, 127);
    assert Pack16(info, Rgb(127, 127, 127)) == 0x7BEF;
  }

  /** The 32-bit screen and 2x2 red, green, blue, white image of the scenario below. */
  function ScenarioInfo(): ScreenInfo
  {
    ScreenInfo(2, 2, 32, 0, 0, Bitfield(16, 8), Bitfield(8, 8), Bitfield(0, 8), 8)
  }

  function ScenarioImage(): seq<Rgb>
  {
    [Rgb(255, 0, 0), Rgb(0, 255, 0), Rgb(0, 0, 255), Rgb(255, 255, 255)]
  }

  /** Byte q of the scenario's expected baseline: 255 at the red byte of
      pixel (0, 0), the green byte of (1, 0), the blue byte of (0, 1) and
      the three colour bytes of (1, 1); 0 everywhere else. */
  function ScenarioExpected(q: nat): byte
  {
    if q == 2 || q == 5 || q == 8 || 12 <= q <= 14 then 255 else 0
  }

  /** Byte q of the scenario's baseline, read through `Owner`. */
  lemma ScenarioByte(q: nat)
    requires q < 16
    ensures WellFormed(ScenarioInfo(), ScenarioImage(), 2)
    ensures |Baseline(ScenarioInfo(), ScenarioImage(), 2)| == 16
    ensures Baseline(ScenarioInfo(), ScenarioImage(), 2)[q] == ScenarioExpected(q)
  {
    var info, image := ScenarioInfo(), ScenarioImage();
    assert WellFormed(info, image, 2);
    assert Baseline(info, image, 2)[q] == BaselineByte(info, image, 2, q);
  }

  /** With the scenario's 2x2 image of red, green, blue and white on a 32-bit
      screen with an 8-byte stride, a four-step fade-in starts with all 16
      bytes black and ends with each pixel's bytes in blue, green, red order
      and every fourth byte 0. */
  lemma Scenario2x2(q: nat)
    requires q < 16
    ensures WellFormed(ScenarioInfo(), ScenarioImage(), 2)
    ensures var b := Baseline(ScenarioInfo(), ScenarioImage(), 2);
            && |Frame(b, 0, 4, false)| == |Frame(b, 4, 4, false)| == 16
            && Frame(b, 0, 4, false)[q] == 0
            && Frame(b, 4, 4, false)[q] == ScenarioExpected(q)
  {
    ScenarioByte(q);
    FadeEnds(Baseline(ScenarioInfo(), ScenarioImage(), 2), 4);
  }
}
