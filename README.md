# PinDMD2 frame encoder and monochrome tint, in Dafny

This project models two parts of the dmd-extensions driver for PinDMD2 dot-matrix displays.

The first part is the PinDMD2 output target, `LibDmd/Output/PinDmd2/PinDmd2.cs`:
- It owns a USB device handle and an availability flag.
- It owns a 2052-byte transmit buffer. The buffer is 4 sync bytes followed by four 512-byte bit-planes.
- `Render` checks the session and the image size. It then packs bits 4..7 of every pixel's 8-bit luminosity into the four planes, 8 pixels per byte, and sends the buffer in one bulk write.

The second part is the monochrome processor, `PinDmd/Processor/MonochromeProcessor.cs`:
- It reduces an image to grey.
- When its tint colour has a non-zero alpha, it scales the blue, green and red bytes of every Bgr32 pixel but the last by the tint's normalised channels. The scaling is a stride-4 loop over a copied pixel buffer, and its guard `k + 4 < Length` stops one pixel short (`ReachedIff`, `LastPixelKept`).

The files:
- `frame.dfy` (module `Frame`) defines the wire format as functions and proves the layout and bit-position facts about them. `GroupByte` is the plane byte of an 8-pixel group, `Payload` is the 2048 plane bytes and `WireFrame` is the whole buffer.
- `pindmd2.dfy` (module `PinDmd2Device`) has the session class `PinDmd2`, with its in-place encoder, and the `Registry` that stands for the static instance.
- `monochrome.dfy` (module `Monochrome`) has the shading loop, its specification `Shaded` and the `MonochromeProcessor` class.

The external USB library becomes inputs and outputs:
- The device that `UsbDevice.OpenUsbDevice` returns is an input, `found: Option<UsbHandle>`. `None` is the null reference.
- The transfer's success and `UsbDevice.LastErrorString` are inputs to `Render`.
- Every request the session makes of the library is returned, in order, as a `seq<UsbCall>`: set configuration, claim or release an interface, close, bulk write and exit.

The image carries its format's bits per pixel. The pixel's luminosity is given: `Image.lum(x, y)` is the byte that `ColorUtil.RgbToHsl` and the `(byte)(luminosity * 255d)` conversion produce.

In the processor, the two WPF format conversions are treated as library work:
- `Process` receives the image already converted to the processor's pixel format.
- It also receives that image converted to Bgr32.

Behaviour of the code worth noting:
- **Bit order.** Columns are sampled from `x+7` down to `x`, and column `x+j` lands in bit `j`. So `x` is bit 0 and `x+7` is bit 7 (`GroupByteBit`).
- **Narrow pixels.** `Render` sizes its one-pixel buffer at `(BitsPerPixel + 7) / 8` bytes, then reads its bytes 0..2 as blue, green and red. An image with fewer than three bytes per pixel, such as Gray8, throws an index-out-of-range exception on the first pixel. That happens before any byte of the buffer is written and before any USB call. The model returns `Fail(PixelTooNarrow(bytesPerPixel))` there (see `RenderGray8`).
- **Render after Dispose.** `Dispose` clears the handle but leaves `IsAvailable` set. So a `Render` after `Dispose` is not refused as "not available". It passes both checks, rewrites the buffer, and then dereferences the null handle when it opens the endpoint writer. The model returns `Fail(NullDevice)` there, after the buffer has been rewritten (see `RenderAfterDispose`).
- **Init claims only sometimes.** `Init` sets configuration 1 and claims interface 0 only when the handle is a whole device (`IUsbDevice`). It keeps a handle whose product string does not match. It never releases a handle it replaces.
- **Clamping.** The tint clamps only below 0, not above 255.

The sign of a tint factor is not restricted. This way the clamp below 0 is a real branch of the model.

## Model

| member | source | states |
|---|---|---|
| `PinDmd2Device.PinDmd2.constructor` | LibDmd/Output/PinDmd2/PinDmd2.cs:30-39 | The buffer is `Width*Height/2 + 4` bytes long, its bytes 0..3 are `81 C3 E7 00` and the rest are zero. The session starts unavailable, with no handle. |
| `Frame.FrameSizeIs2052` | LibDmd/Output/PinDmd2/PinDmd2.cs:33 | The buffer size is 2052. The header plus the four 512-byte planes (`Width*Height/8` each) fill it exactly. |
| `Frame.WireFrame` | LibDmd/Output/PinDmd2/PinDmd2.cs:33-38 | An encoded frame is 2052 bytes long and starts with the sync header, whatever the image. |
| `PinDmd2Device.ContainsIff` | LibDmd/Output/PinDmd2/PinDmd2.cs:52 | The ordinal substring test holds exactly when the fragment occurs at some position of the product string. |
| `PinDmd2Device.Accepts` | LibDmd/Output/PinDmd2/PinDmd2.cs:47-63 | A device is accepted exactly when one was found and its product string contains `pinDMD V2`. |
| `PinDmd2Device.PinDmd2.Init` | LibDmd/Output/PinDmd2/PinDmd2.cs:41-71 | Init keeps whatever handle was found. Availability is false with no device, false with a foreign product string and true otherwise. Configuration 1 and interface 0 are claimed only on an accepted whole device. The buffer is untouched. |
| `PinDmd2Device.Registry.GetInstance` | LibDmd/Output/PinDmd2/PinDmd2.cs:78-85 | A new instance is created only when none exists, and the same one is returned afterwards. Every call re-runs Init, with Init's outcome. The buffer of an existing instance is kept. |
| `PinDmd2Device.PinDmd2.Render` | LibDmd/Output/PinDmd2/PinDmd2.cs:91-158 | An unavailable session fails with `SourceNotAvailable`. An image that is not 128x32 fails with `DimensionMismatch`. An image with fewer than 3 bytes per pixel fails with `PixelTooNarrow`. These failures happen before the buffer changes and with no USB call. Otherwise the buffer becomes `WireFrame(img)`. The whole buffer is then bulk-written to endpoint 1 with a 2000 ms timeout, and a failed transfer reports the library's last error. With no handle, Render fails after encoding. |
| `PinDmd2Device.PinDmd2.Encode` | LibDmd/Output/PinDmd2/PinDmd2.cs:100-149 | The nested row/group loops leave the buffer equal to header + `Payload(img)`. Each group's four bytes are stored at `byteIdx + 512*p`. `byteIdx` is `4 + 16*y + x/8` throughout. |
| `PinDmd2Device.PackGroup` | LibDmd/Output/PinDmd2/PinDmd2.cs:107-142 | Sampling columns `x+7` down to `x`, with shift-left then OR of luminosity bits 4, 5, 6 and 7, yields the four plane bytes `GroupByte(img, x, y, p)`. |
| `PinDmd2Device.ProgressStep` | LibDmd/Output/PinDmd2/PinDmd2.cs:143-147 | Storing one group's four bytes 512 apart advances the buffer from n written groups per plane to n+1. Nothing else changes. |
| `PinDmd2Device.ProgressDone` | LibDmd/Output/PinDmd2/PinDmd2.cs:105-149 | After all 512 groups, the buffer is the untouched header followed by the payload. |
| `Frame.PayloadLayout` | LibDmd/Output/PinDmd2/PinDmd2.cs:103-148 | The plane-`p` byte of group `g` of row `y` sits at payload offset `16y + g + 512p` (buffer index `4 + 16y + g + 512p`). |
| `Frame.SlotsDistinct` | LibDmd/Output/PinDmd2/PinDmd2.cs:143-147 | Different (row, group, plane) triples write different bytes, so no payload byte is written twice. |
| `Frame.SlotCovers` | LibDmd/Output/PinDmd2/PinDmd2.cs:105-148 | Every one of the 2048 payload offsets is written by some (row, group, plane), so payload bytes 4..2051 are each written exactly once. |
| `Frame.PlaneBitIsBit` | LibDmd/Output/PinDmd2/PinDmd2.cs:130-141 | The tests `pixel & 16`, `& 32`, `& 64` and `& 128` pick out bit 4+p of the luminosity. |
| `Frame.AccBits` | LibDmd/Output/PinDmd2/PinDmd2.cs:111-142 | After columns `x+7 .. x+k` have been shifted in, bit `j` of the accumulator holds column `x+k+j`'s plane bit, and the higher bits are 0. |
| `Frame.GroupByteBit` | LibDmd/Output/PinDmd2/PinDmd2.cs:111-142 | Bit `j` of a group's plane-`p` byte is bit `4+p` of the luminosity at column `x+j`. The first column sampled (`x+7`) is bit 7 and the last (`x`) is bit 0. |
| `Frame.PayloadBit` | LibDmd/Output/PinDmd2/PinDmd2.cs:105-147 | Bit `j` of payload byte `16y + g + 512p` is bit `4+p` of pixel `(8g + j, y)`. |
| `Frame.SinglePixel` | LibDmd/Output/PinDmd2/PinDmd2.cs:105-147 | On a black image with one lit pixel `(cx, cy)`, the byte of that pixel's group in plane `p` is the pixel's plane bit moved to bit `cx % 8`. Every other byte is 0. |
| `Frame.LowNibbleIgnored` | LibDmd/Output/PinDmd2/PinDmd2.cs:130-141 | Images that agree on the top four luminosity bits of every pixel encode to the same payload. |
| `Frame.UniformImage` | LibDmd/Output/PinDmd2/PinDmd2.cs:130-147 | For an image of one luminosity `l`, every bit of every plane-`p` byte is bit `4+p` of `l`. |
| `Frame.BlankImage` | LibDmd/Output/PinDmd2/PinDmd2.cs:130-147 | An all-zero image yields 2048 zero payload bytes. |
| `Frame.FullImage` | LibDmd/Output/PinDmd2/PinDmd2.cs:130-147 | An all-255 image yields 2048 payload bytes of `0xFF`. |
| `PinDmd2Device.PinDmd2.Dispose` | LibDmd/Output/PinDmd2/PinDmd2.cs:160-173 | An open handle has its interface released (for a whole device) and is closed. The handle is then always cleared and the library is shut down. The availability flag and the buffer are untouched. |
| `PinDmd2Device.DisposeTwiceThenInit` | LibDmd/Output/PinDmd2/PinDmd2.cs:160-173 | A second Dispose only shuts the library down, and Init afterwards gives the usual availability. |
| `PinDmd2Device.RenderAfterDispose` | LibDmd/Output/PinDmd2/PinDmd2.cs:91-158 | After Init on a genuine device, then Dispose, Render still encodes the frame and then fails on the missing handle. |
| `PinDmd2Device.RenderGray8` | LibDmd/Output/PinDmd2/PinDmd2.cs:100-121 | On an accepted device, a 128x32 Gray8 image (one byte per pixel) fails with `PixelTooNarrow(1)`. No USB call is made, and the buffer is still the header followed by zeros. |
| `Monochrome.ShadeChannel` | PinDmd/Processor/MonochromeProcessor.cs:53-63 | A shaded channel is the floor of byte × factor, or 0 for a non-positive factor. It never exceeds the original byte, so it is always a byte. |
| `Monochrome.ColorShade` | PinDmd/Processor/MonochromeProcessor.cs:36-70 | The stride-4 in-place loop turns the copied Bgr32 buffer into `Shaded(pixels, color)`. The result has the same size and length. |
| `Monochrome.MonochromeProcessor.constructor` | PinDmd/Processor/MonochromeProcessor.cs:20-22 | A new processor is disabled, has an all-zero colour (alpha 0, so no tint) and converts to Gray8. |
| `Monochrome.MonochromeProcessor.Process` | PinDmd/Processor/MonochromeProcessor.cs:24-34 | With alpha 0 the converted grey image is returned unchanged. With alpha > 0 the result is the shaded Bgr32 image. |
| `Monochrome.ReachedIff` | PinDmd/Processor/MonochromeProcessor.cs:52 | In a buffer of whole pixels, the guard `k + 4 < Length` reaches exactly the colour bytes of every pixel but the last. |
| `Monochrome.PadByteKept` | PinDmd/Processor/MonochromeProcessor.cs:52-64 | Byte `k+3` of every pixel is never changed. |
| `Monochrome.LastPixelKept` | PinDmd/Processor/MonochromeProcessor.cs:52 | The last 4-byte pixel of the buffer is left as it was. |
| `Monochrome.ShadedByteBounds` | PinDmd/Processor/MonochromeProcessor.cs:57-63 | Every reached byte lies in 0..its original value, and is 0 when its factor is not positive. The clamp keeps it non-negative. |
| `Monochrome.UnitTintIsIdentity` | PinDmd/Processor/MonochromeProcessor.cs:53-63 | With all three factors equal to 1, the buffer is unchanged. |
| `Monochrome.UnitFactor` | PinDmd/Processor/MonochromeProcessor.cs:53-61 | A byte scaled by a factor of exactly 1 is cast back to itself. |
| `Monochrome.ZeroTintBlackens` | PinDmd/Processor/MonochromeProcessor.cs:53-63 | With all three factors equal to 0, every reached byte becomes 0 and every other byte is kept. |
| `Monochrome.ChannelLocal` | PinDmd/Processor/MonochromeProcessor.cs:53-55 | For buffers of the same length, a shaded byte depends only on its own original byte and its own channel's factor. |

## Left out

- USB I/O is not modelled:
  - Device lookup by vendor 0x0314 / product 0xe457 is not modelled; the lookup result is an input.
  - `SetConfiguration`, `ClaimInterface`, `ReleaseInterface`, `Close`, the endpoint write and `UsbDevice.Exit` are foreign calls. They appear only as entries of the returned call list.
  - The handle's own state after those calls is not tracked.
- Transfer outcome and error message: the write outcome and `UsbDevice.LastErrorString` are inputs. The exception thrown on a failed write is the `TransferFailed` outcome.
- `ColorUtil.RgbToHsl`: the colour-to-luminosity conversion and its double arithmetic are not modelled. The encoder takes the luminosity byte of each pixel as given, including the `CopyPixels` call that reads one pixel.
- WPF image machinery: `FormatConvertedBitmap` (to the processor's format and to Bgr32), `CopyPixels`, `WriteableBitmap` and `WritePixels` are library internals. Their results are inputs, or a plain copy of the bytes.
- Logging: the NLog calls are not modelled.
- `Monochrome.ColorShade`: requires every tint factor to be at most 1, because the C# `(byte)` cast of a value above 255 is outside the model. `Monochrome.MonochromeProcessor.Process` has the same requirement when alpha > 0.
- `Monochrome.ShadeChannel`: uses exact real multiplication and `Floor`, not single-precision float products. A result that float rounding puts across an integer boundary is not captured.
- `Enabled`: the processor's `Enabled` flag is a field only. It is read by callers outside this model.
- The static singleton field: it is the `Registry` object, passed explicitly, not a global.
- Concurrency: not modelled. The driver is single-threaded, and Render calls are serialised by their callers.
