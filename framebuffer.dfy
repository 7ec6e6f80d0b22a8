/** Pixel placement and packing for a raw framebuffer device.

    The device description is the part of the kernel's variable and fixed
    screen information that the compositor reads. A pixel write stores the
    bytes `PixelBytes` at the byte offset `PixelOffset`; `Owner` inverts that
    placement and says which pixel, if any, a byte of the frame belongs to. */
module Framebuffer {

  type byte = x: int | 0 <= x < 256

  datatype Option<T> = None | Some(value: T)

  /** One decoded source pixel, 8 bits per channel. */
  datatype Rgb = Rgb(r: byte, g: byte, b: byte)

  /** Where one colour channel sits inside a packed pixel word. */
  datatype Bitfield = Bitfield(offset: nat, length: nat)

  /** The fields of the screen information that the compositor reads. */
  datatype ScreenInfo = ScreenInfo(
    xres: nat, yres: nat, bitsPerPixel: nat,
    xoffset: nat, yoffset: nat,
    red: Bitfield, green: Bitfield, blue: Bitfield,
    lineLength: nat)

  /** Byte `k` of the pixel at column `x`, row `y`. */
  datatype Position = Position(x: nat, y: nat, k: nat)

  /** The size of the mapping and of both off-screen buffers: one row stride per visible row. */
  function ScreenSize(info: ScreenInfo): nat
  {
    info.lineLength * info.yres
  }

  /** The distance in bytes between horizontally adjacent pixels (integer division of the depth). */
  function BytesPerPixel(info: ScreenInfo): nat
  {
    info.bitsPerPixel / 8
  }

  /** How many bytes one pixel write stores: three at 32 bits (no alpha byte), one word at 16, none otherwise. */
  function BytesWritten(info: ScreenInfo): (n: nat)
    ensures n <= BytesPerPixel(info)
    ensures n > 0 <==> info.bitsPerPixel == 32 || info.bitsPerPixel == 16
  {
    if info.bitsPerPixel == 32 then 3 else if info.bitsPerPixel == 16 then 2 else 0
  }

  /** The byte offset of pixel (x, y), measured from the panning origin with the row stride. */
  function PixelOffset(info: ScreenInfo, x: nat, y: nat): nat
  {
    (x + info.xoffset) * BytesPerPixel(info) + (y + info.yoffset) * info.lineLength
  }

  /** The offset of byte `k` of pixel (x, y). */
  function BytePos(info: ScreenInfo, x: nat, y: nat, k: nat): nat
  {
    PixelOffset(info, x, y) + k
  }

  /** Horizontally adjacent pixels lie one pixel width apart and vertically
      adjacent ones one row stride apart. */
  lemma PixelOffsetSteps(info: ScreenInfo, x: nat, y: nat)
    ensures PixelOffset(info, x + 1, y) == PixelOffset(info, x, y) + BytesPerPixel(info)
    ensures PixelOffset(info, x, y + 1) == PixelOffset(info, x, y) + info.lineLength
  {
    assert (x + 1 + info.xoffset) * BytesPerPixel(info) == (x + info.xoffset) * BytesPerPixel(info) + BytesPerPixel(info);
    assert (y + 1 + info.yoffset) * info.lineLength == (y + info.yoffset) * info.lineLength + info.lineLength;
  }

  // ---------------------------------------------------------------------------
  // Packing

  /** A channel can be shifted into place without undefined behaviour: its
      length leaves `8 - length` non-negative, and the shifted channel, below
      2^(offset + length), stays at most INT_MAX, since a left shift of a
      signed int past that bound is undefined in C. */
  predicate ValidBitfield(f: Bitfield)
  {
    f.length <= 8 && f.offset + f.length <= 31
  }

  /** The channel layout only matters, and so is only required, at 16 bits. */
  predicate ChannelsValid(info: ScreenInfo)
  {
    info.bitsPerPixel == 16 ==>
      ValidBitfield(info.red) && ValidBitfield(info.green) && ValidBitfield(info.blue)
  }

  /** The top `length` bits of the channel value, shifted to `offset`, computed in a 32-bit int. */
  function Field(v: byte, f: Bitfield): bv32
    requires ValidBitfield(f)
  {
    ((v as bv32) >> (8 - f.length)) << f.offset
  }

  /** The 16-bit word stored at 16 bits per pixel: the three channel fields
      or-ed together and truncated to 16 bits by the store. */
  function Pack16(info: ScreenInfo, c: Rgb): bv16
    requires ValidBitfield(info.red) && ValidBitfield(info.green) && ValidBitfield(info.blue)
  {
    ((Field(c.r, info.red) | Field(c.g, info.green) | Field(c.b, info.blue)) & 0xFFFF) as bv16
  }

  /** The two bytes of a 16-bit store, low byte first (the host is taken to be little-endian). */
  function WordBytes(w: bv16): (r: seq<byte>)
    ensures |r| == 2 && r[0] as int + 256 * (r[1] as int) == w as int
  {
    [(w as int) % 256, (w as int) / 256]
  }

  /** The bytes one pixel write stores, in address order. */
  function PixelBytes(info: ScreenInfo, c: Rgb): (r: seq<byte>)
    requires ChannelsValid(info)
    ensures |r| == BytesWritten(info)
  {
    if info.bitsPerPixel == 32 then [c.b, c.g, c.r]
    else if info.bitsPerPixel == 16 then WordBytes(Pack16(info, c))
    else []
  }

  /** `buf` with the bytes from `off` on replaced by `bytes`. */
  function Splice(buf: seq<byte>, off: nat, bytes: seq<byte>): (r: seq<byte>)
    requires off + |bytes| <= |buf|
    ensures |r| == |buf|
    ensures forall p :: 0 <= p < |buf| ==> r[p] == if off <= p < off + |bytes| then bytes[p - off] else buf[p]
  {
    buf[..off] + bytes + buf[off + |bytes|..]
  }

  /** The write of pixel (x, y) stays inside a buffer of `len` bytes. */
  predicate WriteFits(info: ScreenInfo, x: nat, y: nat, len: nat)
  {
    BytesWritten(info) == 0 || PixelOffset(info, x, y) + BytesWritten(info) <= len
  }

  /** The buffer after the pixel at (x, y) was written with colour `c`. */
  function PlacePixel(info: ScreenInfo, buf: seq<byte>, x: nat, y: nat, c: Rgb): (r: seq<byte>)
    requires ChannelsValid(info) && WriteFits(info, x, y, |buf|)
    ensures |r| == |buf|
    ensures forall p :: 0 <= p < |buf| && !(PixelOffset(info, x, y) <= p < PixelOffset(info, x, y) + BytesWritten(info))
              ==> r[p] == buf[p]
  {
    if BytesWritten(info) == 0 then buf
    else Splice(buf, PixelOffset(info, x, y), PixelBytes(info, c))
  }

  /** At 32 bits the write stores blue, green, red at offset, offset+1, offset+2
      and leaves every other byte, the fourth byte of the pixel included, as it was. */
  lemma Place32(info: ScreenInfo, buf: seq<byte>, x: nat, y: nat, c: Rgb)
    requires info.bitsPerPixel == 32
    requires PixelOffset(info, x, y) + 3 <= |buf|
    ensures var off := PixelOffset(info, x, y);
            var r := PlacePixel(info, buf, x, y, c);
            r[off] == c.b && r[off + 1] == c.g && r[off + 2] == c.r &&
            forall p :: 0 <= p < |buf| && !(off <= p < off + 3) ==> r[p] == buf[p]
  {
  }

  /** At 16 bits the write stores the packed word at offset, offset+1 and nothing else. */
  lemma Place16(info: ScreenInfo, buf: seq<byte>, x: nat, y: nat, c: Rgb)
    requires info.bitsPerPixel == 16 && ChannelsValid(info)
    requires PixelOffset(info, x, y) + 2 <= |buf|
    ensures var off := PixelOffset(info, x, y);
            var r := PlacePixel(info, buf, x, y, c);
            r[off] as int + 256 * (r[off + 1] as int) == Pack16(info, c) as int &&
            forall p :: 0 <= p < |buf| && !(off <= p < off + 2) ==> r[p] == buf[p]
  {
  }

  /** At any other depth the write stores nothing. */
  lemma PlaceOtherDepth(info: ScreenInfo, buf: seq<byte>, x: nat, y: nat, c: Rgb)
    requires info.bitsPerPixel != 32 && info.bitsPerPixel != 16
    ensures PlacePixel(info, buf, x, y, c) == buf
  {
  }

  /** The usual RGB565 layout packs full white into 0xFFFF. */
  lemma Pack565White(info: ScreenInfo)
    requires info.red == Bitfield(11, 5) && info.green == Bitfield(5, 6) && info.blue == Bitfield(0, 5)
    ensures Pack16(info, Rgb(255, 255, 255)) == 0xFFFF
  {
  }

  /** The channel field `f` read back out of a packed word. */
  function Unpack(w: bv16, f: Bitfield): bv16
    requires f.length <= 8 && f.offset <= 16
  {
    (w >> f.offset) & (((1 as bv16) << f.length) - 1)
  }

  /** The channel value that `u` stands for: its bits moved back to the top of a byte. */
  function Expand(u: bv16, f: Bitfield): bv16
    requires f.length <= 8
  {
    u << (8 - f.length)
  }

  /** With the RGB565 layout each channel read back from the packed word is
      exactly its top bits. */
  lemma Unpack565(info: ScreenInfo, c: Rgb)
    requires info.red == Bitfield(11, 5) && info.green == Bitfield(5, 6) && info.blue == Bitfield(0, 5)
    ensures Unpack(Pack16(info, c), info.red) == (c.r as bv16) >> 3
    ensures Unpack(Pack16(info, c), info.green) == (c.g as bv16) >> 2
    ensures Unpack(Pack16(info, c), info.blue) == (c.b as bv16) >> 3
  {
  }

  /** Keeping the top `8 - drop` bits of a channel loses at most 2^drop - 1. */
  lemma Quantize(v: byte, drop: nat)
    requires drop <= 8
    ensures var e := ((v as bv16) >> drop) << drop;
            e <= v as bv16 && (v as bv16) - e <= ((1 as bv16) << drop) - 1
  {
  }

  /** Packing is lossy by design: with the RGB565 layout the expanded channel
      read back from the word is below the original by at most 7, 3 and 7. */
  lemma RoundTrip565(info: ScreenInfo, c: Rgb)
    requires info.red == Bitfield(11, 5) && info.green == Bitfield(5, 6) && info.blue == Bitfield(0, 5)
    ensures var w := Pack16(info, c);
            && Expand(Unpack(w, info.red), info.red) <= c.r as bv16 <= Expand(Unpack(w, info.red), info.red) + 7
            && Expand(Unpack(w, info.green), info.green) <= c.g as bv16 <= Expand(Unpack(w, info.green), info.green) + 3
            && Expand(Unpack(w, info.blue), info.blue) <= c.b as bv16 <= Expand(Unpack(w, info.blue), info.blue) + 7
  {
    Unpack565(info, c);
    Quantize(c.r, 3);
    Quantize(c.g, 2);
    Quantize(c.b, 3);
  }

  // ---------------------------------------------------------------------------
  // Where the pixels of a full frame land

  /** Every pixel write of a full xres-by-yres frame stays inside the
      screensize bytes. Offsets grow with x and y, so it is enough that the
      last pixel fits. */
  predicate FitsScreen(info: ScreenInfo)
  {
    || BytesWritten(info) == 0 || info.xres == 0 || info.yres == 0
    || PixelOffset(info, info.xres - 1, info.yres - 1) + BytesWritten(info) <= ScreenSize(info)
  }

  lemma MulMonotone(a: nat, b: nat, c: nat)
    requires a <= b
    ensures a * c <= b * c
  {
    assert b * c == a * c + (b - a) * c;
  }

  lemma DivModUnique(n: nat, d: nat, q: nat, r: nat)
    requires 0 <= r < d && n == q * d + r
    ensures n / d == q && n % d == r
  {
    var q0, r0 := n / d, n % d;
    assert q0 * d + r0 == q * d + r;
    if q0 < q {
      MulMonotone(q0 + 1, q, d);
    } else if q < q0 {
      MulMonotone(q + 1, q0, d);
    }
  }

  /** Every pixel of the frame fits inside the screen. */
  lemma PixelFits(info: ScreenInfo, x: nat, y: nat)
    requires FitsScreen(info)
    requires x < info.xres && y < info.yres
    ensures WriteFits(info, x, y, ScreenSize(info))
  {
    MulMonotone(x + info.xoffset, info.xres - 1 + info.xoffset, BytesPerPixel(info));
    MulMonotone(y + info.yoffset, info.yres - 1 + info.yoffset, info.lineLength);
  }

  /** The source computes `line_length * yres` as a 32-bit unsigned product
      and each pixel offset as a signed 32-bit `int`; it assumes, without
      checking, that the frame is smaller than 2^31 bytes. */
  predicate SizeFitsInt(info: ScreenInfo)
  {
    ScreenSize(info) < 0x8000_0000
  }

  /** In a frame that fits and is below 2^31 bytes, every offset a pixel
      write uses, up to its last byte, is a non-negative 32-bit `int`. */
  lemma OffsetFitsInt(info: ScreenInfo, x: nat, y: nat)
    requires FitsScreen(info) && SizeFitsInt(info) && BytesWritten(info) > 0
    requires x < info.xres && y < info.yres
    ensures PixelOffset(info, x, y) + BytesWritten(info) - 1 < 0x8000_0000
  {
    PixelFits(info, x, y);
  }

  /** Because screensize is exactly line_length * yres, a frame that fits has
      no vertical panning offset and each row of pixels fits inside one row
      stride: with a non-zero yoffset the last row would be written past the
      end of the buffer. */
  lemma RowFits(info: ScreenInfo)
    requires FitsScreen(info) && BytesWritten(info) > 0 && info.xres > 0 && info.yres > 0
    ensures info.yoffset == 0
    ensures (info.xres - 1 + info.xoffset) * BytesPerPixel(info) + BytesWritten(info) <= info.lineLength
  {
    var ll := info.lineLength;
    assert (info.yres - 1 + info.yoffset) * ll == info.yres * ll - ll + info.yoffset * ll;
    if info.yoffset > 0 {
      MulMonotone(1, info.yoffset, ll);
    }
  }

  /** The pixel byte, if any, that byte `p` of the frame holds. */
  function Owner(info: ScreenInfo, p: nat): Option<Position>
  {
    var bpb, ll := BytesPerPixel(info), info.lineLength;
    if BytesWritten(info) == 0 || ll == 0 then None
    else
      var row, col := p / ll, p % ll;
      if row < info.yoffset || col < info.xoffset * bpb then None
      else
        var x, k := (col - info.xoffset * bpb) / bpb, (col - info.xoffset * bpb) % bpb;
        if row - info.yoffset < info.yres && x < info.xres && k < BytesWritten(info)
        then Some(Position(x, row - info.yoffset, k))
        else None
  }

  /** A byte that `Owner` assigns to a pixel is that pixel's byte. */
  lemma OwnerPosition(info: ScreenInfo, p: nat)
    requires Owner(info, p).Some?
    ensures var pos := Owner(info, p).value;
            pos.x < info.xres && pos.y < info.yres && pos.k < BytesWritten(info) &&
            p == BytePos(info, pos.x, pos.y, pos.k)
  {
    var bpb, ll := BytesPerPixel(info), info.lineLength;
    var row, col := p / ll, p % ll;
    var c := col - info.xoffset * bpb;
    var pos := Owner(info, p).value;
    assert p == row * ll + col;
    assert c == pos.x * bpb + pos.k;
    assert row == pos.y + info.yoffset;
    assert col == (pos.x + info.xoffset) * bpb + pos.k;
  }

  /** In a frame that fits, every byte a pixel write stores is assigned to that pixel. */
  lemma OwnerAt(info: ScreenInfo, x: nat, y: nat, k: nat)
    requires FitsScreen(info)
    requires x < info.xres && y < info.yres && k < BytesWritten(info)
    ensures Owner(info, BytePos(info, x, y, k)) == Some(Position(x, y, k))
  {
    var bpb, ll := BytesPerPixel(info), info.lineLength;
    var p := BytePos(info, x, y, k);
    var col := (x + info.xoffset) * bpb + k;
    assert info.yoffset == 0 && col < ll by {
      RowFits(info);
      MulMonotone(x + info.xoffset, info.xres - 1 + info.xoffset, bpb);
    }
    assert p / ll == y && p % ll == col by {
      assert p == y * ll + col;
      DivModUnique(p, ll, y, col);
    }
    assert col - info.xoffset * bpb == x * bpb + k;
    assert (x * bpb + k) / bpb == x && (x * bpb + k) % bpb == k by {
      DivModUnique(x * bpb + k, bpb, x, k);
    }
  }
}
