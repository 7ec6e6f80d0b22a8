# ssplash framebuffer compositing, modelled in Dafny

ssplash draws a boot or shutdown splash image straight into a Linux
framebuffer and fades it in or out. Its core is one sequence of steps:

1. It converts each decoded RGB pixel into device-native bytes at the pixel's
   byte offset. At 32 bits per pixel that is a fixed blue, green, red triple.
   At 16 bits it is one word packed from the device's channel offsets and
   lengths. At any other depth nothing is written.
2. It composes the whole image at full brightness into a zero-filled
   baseline buffer, `bgr`.
3. It runs `FADE_IN_STEPS + 1` = 31 fade steps. Each step scales every
   baseline byte into `screenbuffer` and copies that whole buffer into the
   mapped device memory, `fbp`.
4. Two flags gate the drawing. `vt_visible` is toggled by the console-switch
   handler. `running` is cleared by the termination handler.

The model has four modules:

- `Framebuffer` (framebuffer.dfy) describes the device and the pixel write.
  It holds the byte offset, the 16-bit packing, the bytes a write stores,
  and `Owner`, which maps any byte of the frame back to the pixel byte that
  lands there. It also proves the packing examples and the geometry lemmas.
- `Fade` (fade.dfy) defines the brightness scaling of one byte, one frame
  and the sequence of frames, with its monotonicity and end-point lemmas.
- `Composite` (composite.dfy) gives an independent definition of the baseline
  frame, byte by byte. It also defines the partial buffer of the row-major
  loop and compares byte scaling with channel scaling.
- `Splash` (splash.dfy) holds the class `State` with the program's global
  state. That is the device description, the image, the mapped buffer `fbp`
  and the two flags. Its methods mirror `ssplash_fb_set_pixel`, the two
  loops of `ssplash_animate_fade`, the main path after mapping, and the two
  handlers. Each method's contract ties the new buffer contents to the
  functions above. A ghost field `Shown` records every frame copied into
  `fbp`.

Three consequences of the code as written:

- The fade multiplies the bytes of the packed baseline, not the colour
  channels. At 32 bits this equals scaling the channels and then packing
  (`ScaleCommutes32`). At 16 bits it does not: a white RGB565 pixel at
  half brightness keeps its blue field at full value (`ScaleDiffers16`).
- The visibility gate sits only in the pixel write, and the pixel write only
  ever targets the private buffer `bgr`. The copy into `fbp` in the fade
  loop does not consult `vt_visible`. So in this code the gate does not keep
  device writes away from a hidden console.
- The code requires, without checking, that every pixel write stays inside a
  buffer of `line_length * yres` bytes. As `RowFits` shows, that forces
  `yoffset == 0` whenever anything is drawn. With vertical panning the last
  row would be written past the end of `bgr`.

The code also assumes, without checking, that `line_length * yres` is below
2^31, so that neither the 32-bit unsigned product nor the `int` pixel offset
wraps. The model states this as `SizeFitsInt`, part of `WellFormed`, and
`OffsetFitsInt` shows that every offset a write uses then fits. In the same way it assumes that each 16-bit channel layout keeps the
shifted channel within a signed `int` (`offset + length <= 31`), because a
left shift past INT_MAX is undefined in C (C11 section 6.5.7). The model
states this as `ValidBitfield`, which `ChannelsValid` requires at 16 bits.

The brightness factor is a `double` in the source. Here it is exact rational
arithmetic with integer floor.

## Model

| member | source | states |
|---|---|---|
| Framebuffer.BytesWritten | ssplash.c:68-78 | a pixel write stores a non-zero number of bytes exactly at depths 32 and 16, never more than the pixel's width |
| Framebuffer.WordBytes | ssplash.c:76-77 | the 16-bit store is two bytes whose little-endian value is the word |
| Framebuffer.PixelOffsetSteps | ssplash.c:65-66 | adjacent pixels in a row are bits_per_pixel / 8 bytes apart and adjacent rows line_length bytes apart |
| Framebuffer.OffsetFitsInt | ssplash.c:55-66 | in a frame that fits and is below 2^31 bytes, the offset of the last byte a write stores is below 2^31, so the `int` offset never wraps |
| Framebuffer.PlacePixel | ssplash.c:65-78 | a pixel write keeps the buffer length and leaves every byte outside its BytesWritten bytes at the offset unchanged |
| Framebuffer.PixelBytes | ssplash.c:68-78 | the bytes of one pixel write, as many as BytesWritten says |
| Framebuffer.Splice | ssplash.c:70-77 | writing bytes at an offset changes exactly those positions and keeps every other byte |
| Framebuffer.Place32 | ssplash.c:65-73 | at 32 bpp bytes offset, offset+1, offset+2 become b, g, r and every other byte, offset+3 included, is unchanged |
| Framebuffer.Place16 | ssplash.c:74-78 | at 16 bpp the word at offset becomes the packed value and no other byte changes |
| Framebuffer.PlaceOtherDepth | ssplash.c:68-78 | at any depth other than 16 or 32 the buffer is left unchanged |
| Framebuffer.Pack565White | ssplash.c:76-77 | with layout red 5/11, green 6/5, blue 5/0, white packs to 0xFFFF |
| Framebuffer.Unpack565 | ssplash.c:76-77 | with the RGB565 layout each channel read back from the word is exactly the channel's top bits |
| Framebuffer.Quantize | ssplash.c:76-77 | dropping the low `drop` bits of a channel loses at most 2^drop - 1 |
| Framebuffer.RoundTrip565 | ssplash.c:76-77 | packing then unpacking RGB565 recovers each channel within 7, 3 and 7 |
| Framebuffer.PixelFits | ssplash.c:65-66 | if the last pixel of the frame fits in screensize, every pixel write does |
| Framebuffer.RowFits | ssplash.c:320 | with screensize = line_length * yres, a frame that fits has yoffset 0 and each row inside one stride |
| Framebuffer.OwnerPosition | ssplash.c:65-66 | a byte that Owner assigns to pixel (x, y), byte k, lies at that pixel's offset plus k and inside the frame |
| Framebuffer.OwnerAt | ssplash.c:65-66 | in a frame that fits, byte k of pixel (x, y) is owned by exactly that pixel, so pixels never overlap |
| Fade.Level | ssplash.c:121-125 | the factor's numerator is at most N, so the factor lies between 0 and 1 in both directions |
| Fade.Scale | ssplash.c:121-128 | step i's byte is the floor of v·l/n, with l = i for fade-in and n - i for fade-out |
| Fade.Frame | ssplash.c:126-129 | every step's frame has exactly as many bytes as the baseline, the screensize bytes the copy at line 133 moves |
| Fade.Frames | ssplash.c:118-133 | the frames the loop shows in its first `count` passes: exactly `count` of them, the k-th being the scaled frame of step k |
| Fade.FrameAtMostBase | ssplash.c:128 | no frame byte exceeds its baseline byte |
| Fade.FadeEnds | ssplash.c:118-125 | fade-in step 0 is all zero and step N is the baseline; fade-out the reverse |
| Fade.ScaleMonotone | ssplash.c:128 | a scaled byte grows with the factor |
| Fade.FadeMonotone | ssplash.c:121-128 | fade-in bytes never decrease and fade-out bytes never increase as the step grows |
| Fade.FadeOutMirrorsFadeIn | ssplash.c:122-125 | in exact arithmetic, fade-out step i shows the fade-in frame of step N - i |
| Composite.SourceIndexInBounds | ssplash.c:48-51 | every index y * splash_width + x read by the loop is inside the image |
| Composite.Baseline | ssplash.c:94-114 | the reference baseline has screensize bytes, the size of `bgr`; BaselineAtPixel and BaselineElsewhereZero state its contents |
| Composite.BaselineAtPixel | ssplash.c:100-114 | after composition each pixel position holds the packed source pixel at index y * splash_width + x |
| Composite.BaselineElsewhereZero | ssplash.c:100-114 | every byte no pixel write covers stays 0, such as stride padding and the fourth byte at 32 bpp |
| Composite.PartialStep | ssplash.c:105-113 | writing pixel (x, y) advances the partially composed buffer by exactly one pixel |
| Composite.PartialRowEnd | ssplash.c:103-105 | finishing row y is the same as starting row y + 1 |
| Composite.PartialDone | ssplash.c:103-114 | after the last row the buffer equals the reference baseline |
| Composite.ScaleCommutes32 | ssplash.c:126-129 | at 32 bpp scaling the baseline's bytes equals composing the channel-scaled image |
| Composite.ScaleDiffers16 | ssplash.c:126-129 | at 16 bpp byte scaling differs from channel scaling: white at step 15 of 30 gives byte 127, channel scaling gives 0xEF |
| Composite.ScalePixel32 | ssplash.c:126-129 | at 32 bpp, scaling byte k of a pixel's stored bytes gives byte k of the channel-scaled pixel |
| Composite.ScenarioByte | ssplash.c:100-114 | composing a 2x2 red/green/blue/white image at 32 bpp with an 8-byte stride gives 255 exactly at bytes 2, 5, 8, 12, 13 and 14 of the 16, and 0 elsewhere |
| Composite.Scenario2x2 | ssplash.c:100-133 | for that image a four-step fade-in starts with every byte 0 and ends at those BGR bytes, every fourth byte 0 |
| Splash.IsShutdown | ssplash.c:266 | fade-out is chosen exactly when there is an argument after the program name and it is "shutdown" |
| Splash.FramesShown | ssplash.c:118 | the loop shows N + 1 frames when uninterrupted, one per passed test when a termination signal arrives, none when not running |
| Splash.State.constructor | ssplash.c:319-321 | screensize is line_length * yres, the mapping has that size, and the console starts visible and running |
| Splash.State.SetPixel | ssplash.c:53-79 | the destination becomes PlacePixel of the old contents when running and is unchanged otherwise; it changes only when running and visible |
| Splash.State.ComposeBaseline | ssplash.c:102-114 | the zero-filled buffer becomes the reference baseline, or stays zero when not running |
| Splash.State.RunFade | ssplash.c:116-135 | exactly FramesShown frames are appended to Shown, each the scaled baseline of its step; afterwards fbp equals screenbuffer equals the last frame |
| Splash.State.AnimateFade | ssplash.c:81-138 | the frames shown are the scaled reference baseline, and fbp ends as the last of them |
| Splash.State.Run | ssplash.c:328-329 | fbp is cleared and then holds the last frame of a fade whose direction is chosen by the shutdown argument; running stays set exactly when it was set and no termination signal arrived during the fade |
| Splash.State.VtRequest | ssplash.c:140-157 | the visibility flag is negated, so two requests restore it |
| Splash.State.Exit | ssplash.c:248-250 | the running flag is cleared |

## Left out

- Splash.State.SetPixel: requires `running ==> vtVisible`. The wait loop (ssplash.c:57-61) can only end when a signal handler changes a flag. So in a sequential program it either ends at once or never ends, and only the first case is modelled. The console-switch handler is never installed (ssplash.c:230 is commented out), so the hidden state does not arise in this program.
- Splash.State.RunFade: a termination signal is modelled only at the fade loop's tests, through the parameter `interruptAt`. A signal that arrives mid-frame, or during composition, is not modelled.
- Splash.State.Exit: models only `running = 0`. The handler's console restore, `munmap` and `close` (ssplash.c:252-257) are foreign calls. Because they run in the handler, a signal that arrives mid-frame would make the next copy write into unmapped memory. That cannot be expressed without modelling the mapping's lifetime.
- Splash.State.VtRequest: models only the flag; the `VT_RELDISP` acknowledgements are foreign calls.
- Fade.Scale: exact rational floor of `v * i / N` (or `v * (N - i) / N`). The source computes a `double` factor (ssplash.c:121-128), and IEEE rounding gives a value one lower than the exact floor at 179 of the 15,872 (step, byte, direction) combinations, never a higher one.
- Fade.FadeOutMirrorsFadeIn: holds in exact arithmetic only. With doubles, `1 - i/30` and `(30 - i)/30` truncate differently at 173 (step, byte) pairs.
- Framebuffer.RoundTrip565: the quantization bound is proved for the RGB565 layout only, not for every non-overlapping channel layout.
- Framebuffer.WordBytes: the 16-bit store is modelled as little-endian. Its atomicity is modelled as one simultaneous assignment of both bytes.
- The source's `int` offset and its unsigned arithmetic are unbounded integers here. Frames of 2^31 bytes or more, where the C arithmetic would wrap, are excluded by `SizeFitsInt` rather than modelled. At depths other than 16 and 32 the offset is computed but never used, and its overflow is not modelled.
- All ioctls (`FBIO_WAITFORVSYNC`, `VT_RELDISP`, `VT_GETMODE`, `VT_SETMODE`, `KDSETMODE`, `VT_ACTIVATE`, `VT_WAITACTIVE`, `VT_DISALLOCATE`, `FBIOGET_*SCREENINFO`), `open`, `close`, `mmap` and `munmap`. These are kernel calls. The device description is a constructor input, and the constructor allocates a fresh array of screensize bytes in place of the mapping.
- Signal installation (`signal`, `sigaction`), `ssplash_console_handle_switches`, `ssplash_console_ignore_switches`, `ssplash_console_switch` and `ssplash_console_clean`: console plumbing and asynchronous delivery.
- `usleep`, `gettimeofday` and `printf`: timing and logging with no effect on buffer contents.
- PNG decoding (`lodepng_decode24_file`) is an external library; the decoded image and its width are inputs.
- Allocation failure and exit codes (ssplash.c:87-99, 282-286, 298-326) carry no state logic. The allocation checks compare against -1 rather than NULL, and the second one re-tests `screenbuffer`.
- `free` of the buffers (ssplash.c:136-137, 331): Dafny memory is managed.
- The commented-out code (ssplash.c:220, 230, 268-275, 289).
