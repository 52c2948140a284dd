# Sharp memory LCD driver, modelled in Dafny

This project models the CircuitPython driver for Sharp memory LCDs
(`adafruit_sharpmemorydisplay`). The driver keeps the whole picture in a
frame buffer of `width // 8` bytes per line, one bit per pixel with the
leftmost pixel in the most significant bit. It refreshes the panel over SPI
with a fixed byte protocol:

- a command byte carrying the write flag and the VCOM polarity;
- for every line, the line's 1-based address with its bits reversed, then
  the line's bytes, then a zero;
- one closing byte.

The VCOM polarity flips on every refresh. An `image` call copies a 1-bit
image into the buffer, taking the display's rotation into account.

The model has five modules:

- `Rows` (`rows.dfy`): offsets of equal rows laid end to end
  (`Span(count, size)` is `count * size`).
- `ReverseBit` (`reverse_bit.dfy`): `reverse_bit`, as a loop method proved
  against a mirror function on the low eight bits of an unbounded integer.
- `WireProtocol` (`wire_protocol.dfy`): the byte sequence of one refresh,
  `Frame`, and its layout.
- `PixelLayout` (`pixel_layout.dfy`): where a pixel lives in the buffer and
  how rotation moves it. This is the part of `adafruit_framebuf` the driver
  relies on.
- `SharpMemory` (`sharp_memory_display.dfy`): the `SharpMemoryDisplay`
  class. It has the buffer and the one-byte scratch buffer as arrays, and
  the VCOM flag and rotation as fields. Its constructor, `Show`, `Pixel` and
  `Image` update them in place.

The SPI bus is a ghost trace, `sent`, of every byte written so far. `Show`
is proved to append exactly `Frame(buffer, width // 8, height, vcom)` for
the VCOM value it started with, and to flip VCOM. Lemmas about `Frame` give:

- its length;
- its first byte;
- its closing bytes;
- the position of every line's block.

`Image` is proved to do one of two things:

- reject the image, with the same error and the same checks in the same
  order as the driver, leaving the buffer untouched;
- leave every panel pixel on exactly when the image pixel the rotation maps
  onto it is truthy. `DrawnImageUnique`, which rests on
  `PixelsDetermineBuffer`, shows that only one buffer does so: the result
  does not depend on what the buffer held before.

The adafruit_framebuf library is not part of this model. What the model
assumes about its `pixel` method and its MHMSB format is written out in the
doc comment of `PixelLayout`:

- the rotation transforms;
- off-panel points are ignored;
- the byte and bit of each pixel.

In these places the model follows the code as written:

- With `height == 0` the closing byte is not a zero, contrary to the comment
  on line 104. The scratch byte still holds the command byte, so the command
  byte goes out twice (`FinalByte`, `FrameEnds`).
- The buffer is sent as stored. Despite the comment on lines 73-74, nothing
  in the buffer is bit-flipped; only line addresses are reversed.
- The command byte is sent unreversed; its flags (lines 43-44) are already in
  the panel's bit order.
- Any width is accepted at construction, as the class docstring (line 60)
  says; the drawing operations need whole bytes per line (see "## Left out").
- Drawing outside the panel is silently ignored, as framebuf does.
- A line address is `reverse_bit(line + 1)`, which keeps only the low eight
  bits. Line 255 of a taller panel is therefore addressed as line 0
  (`LineAddressReadsBack`).

## Model

All source paths are in `adafruit_sharpmemorydisplay.py`.

| member | source | states |
|---|---|---|
| ReverseBit.ReverseBit | adafruit_sharpmemorydisplay.py:48-56 | the loop returns the low byte of `num` mirrored: a value in 0..255 whose bit i is bit 7-i of `num`, for any integer including negative ones |
| ReverseBit.MirrorBit | adafruit_sharpmemorydisplay.py:51-56 | after k rounds of shift-and-add, bit i of the result is bit k-1-i of the argument |
| ReverseBit.ReversedBit | adafruit_sharpmemorydisplay.py:48-56 | bit i of `reverse_bit(num)` is bit 7-i of `num` |
| ReverseBit.Involution | adafruit_sharpmemorydisplay.py:49-50 | "and vice versa": reversing a byte twice gives the byte back |
| ReverseBit.HighBitsIgnored | adafruit_sharpmemorydisplay.py:52-55 | only the low eight bits of the argument affect the result |
| ReverseBit.KnownValues | adafruit_sharpmemorydisplay.py:48-56 | 0 maps to 0, 1 to 0x80 and 0x80 to 1 |
| WireProtocol.CommandByte | adafruit_sharpmemorydisplay.py:89-91 | the command byte always has the write flag 0x80, has the VCOM flag 0x40 exactly when VCOM is set, and has no other bit |
| WireProtocol.LineAddressReadsBack | adafruit_sharpmemorydisplay.py:98 | read least-significant bit first, a line's address byte is its 1-based number modulo 256 |
| WireProtocol.LinesLength | adafruit_sharpmemorydisplay.py:97-103 | every line takes `width // 8 + 2` bytes on the wire |
| WireProtocol.LinesBlock | adafruit_sharpmemorydisplay.py:97-103 | line r is the r-th block of `width // 8 + 2` bytes of the line part: lines go out whole and in increasing order |
| WireProtocol.FrameEnds | adafruit_sharpmemorydisplay.py:89-104 | a refresh is `2 + height * (width // 8 + 2)` bytes long and starts with the command byte; with lines it ends with two zeros, without lines it is the command byte twice |
| WireProtocol.FrameLine | adafruit_sharpmemorydisplay.py:95-103 | bytes `1 + r*n` to `1 + (r+1)*n` of a refresh are line r's address, its buffer bytes from `r * (width // 8)`, and a zero |
| WireProtocol.OneLineFrame | adafruit_sharpmemorydisplay.py:81-104 | the exact bytes a one-line, one-byte panel sends for either VCOM state |
| PixelLayout.ByteIndexIsStride | adafruit_sharpmemorydisplay.py:76 | the MHMSB byte `(y * width + x) // 8` is byte `x // 8` of row y |
| PixelLayout.ByteIndexInRange | adafruit_sharpmemorydisplay.py:75-76 | every panel pixel's byte lies within the `(width // 8) * height`-byte buffer |
| PixelLayout.PixelsApart | adafruit_sharpmemorydisplay.py:75-76 | no two panel pixels share a bit of the buffer |
| PixelLayout.SetPixelEffect | adafruit_sharpmemorydisplay.py:142 | setting a panel pixel turns that pixel on and leaves every other pixel as it was |
| PixelLayout.DrawPixelEffect | adafruit_sharpmemorydisplay.py:142 | `pixel(x, y, 1)` turns on exactly the panel pixel that shows logical point (x, y) under the rotation, if there is one, and no other |
| PixelLayout.PixelsDetermineBuffer | adafruit_sharpmemorydisplay.py:75-76 | two buffers of the display's size showing the same pixels are equal |
| PixelLayout.RotationRoundTrip | adafruit_sharpmemorydisplay.py:137-142 | the rotation transform and its inverse undo each other both ways |
| PixelLayout.RotationInPanel | adafruit_sharpmemorydisplay.py:110-113 | a logical point lands on the panel exactly when it lies within the rotated size |
| PixelLayout.LogicalInRange | adafruit_sharpmemorydisplay.py:110-113 | every panel pixel shows a point within the rotated size |
| PixelLayout.BlankBuffer | adafruit_sharpmemorydisplay.py:133-135 | a zeroed buffer shows no pixel |
| SharpMemory.ImageStatus | adafruit_sharpmemorydisplay.py:110-124 | an image is rejected for its mode exactly when the mode is not "1", and accepted exactly when the mode is "1" and its size equals the display's size with width and height swapped for rotations 1 and 3; a size error carries that expected size |
| SharpMemory.SharpMemoryDisplay.constructor | adafruit_sharpmemorydisplay.py:65-79 | a new display has a zeroed buffer of `(width // 8) * height` bytes, VCOM set, rotation 0 and nothing sent |
| SharpMemory.SharpMemoryDisplay.Show | adafruit_sharpmemorydisplay.py:81-104 | a refresh appends exactly `Frame` of the current buffer and VCOM to the bus, flips VCOM, leaves the scratch byte holding the frame's closing byte, and leaves buffer, size and rotation alone |
| SharpMemory.SharpMemoryDisplay.SendCommand | adafruit_sharpmemorydisplay.py:88-93 | sends the command byte for the current VCOM, then flips VCOM |
| SharpMemory.SharpMemoryDisplay.SendLines | adafruit_sharpmemorydisplay.py:95-103 | sends every line in order, `slice_from` staying at `line * (width // 8)`; the scratch byte is then 0, or unchanged when there is no line |
| SharpMemory.SharpMemoryDisplay.SendLine | adafruit_sharpmemorydisplay.py:98-103 | sends one line: its reversed address, its `width // 8` bytes, a zero |
| SharpMemory.SharpMemoryDisplay.Pixel | adafruit_sharpmemorydisplay.py:142 | `pixel(x, y, 1)` on the display's buffer sets the bit `DrawPixel` names and nothing else |
| SharpMemory.SharpMemoryDisplay.ClearBuffer | adafruit_sharpmemorydisplay.py:133-135 | every byte of the buffer is zero afterwards |
| SharpMemory.SharpMemoryDisplay.DrawColumn | adafruit_sharpmemorydisplay.py:138-142 | after column x, exactly the lit image points drawn so far in column-major order are on |
| SharpMemory.DrawnImageUnique | adafruit_sharpmemorydisplay.py:133-142 | two buffers that each show the same image under the same rotation are equal, so clearing and drawing leaves a result independent of the old contents |
| SharpMemory.SharpMemoryDisplay.Image | adafruit_sharpmemorydisplay.py:106-142 | returns the outcome of the mode and size checks; a rejected image leaves the buffer unchanged; an accepted one leaves each panel pixel on exactly when the image pixel mapped onto it is truthy |

## Left out

- SPI device, chip-select pin, baud rate and the `with` block (lines 65-69 and 86): a refresh's bytes go to the ghost trace `sent`, and bus timing and chip-select are not modelled.
- Bus failures: a write cannot fail in the model. In the driver an exception mid-refresh would leave VCOM already flipped.
- The numpy path of `image` (lines 126-129) is not modelled; only the per-pixel path is. That path differs from the per-pixel one in two ways the model does not capture:
  - It binds `self.buffer` to a new bytearray, while framebuf's `buf` keeps the old one. Later `pixel` calls then draw into an array that `show` no longer sends.
  - `numpy.packbits(numpy.asarray(img), axis=1)` ignores `rotation`. For rotation 1 or 3 it packs the image in a transposed layout, and for rotation 2 it leaves the image unturned.
- The adafruit_framebuf library is not part of this model. Its `pixel`, its MHMSB format and its rotation transform are written as definitions in `PixelLayout`. Its other drawing primitives and its rotation setter (which accepts only 0 to 3) are not modelled, so `rotation` is any integer and values other than 1, 2 and 3 act as no rotation.
- PIL images are replaced by `SourceImage`: a mode, a size and a pixel function, with "truthy" meaning non-zero.
- The `RGB` branch of the drawing loop (lines 139-140): it cannot be taken after the mode check, and the model leaves it out.
- `_SHARPMEM_BIT_CLEAR` (line 45) is never used by the driver.
- `__version__` and `__repo__` (lines 40-41) are metadata.
- SharpMemory.SharpMemoryDisplay.Pixel, SharpMemory.SharpMemoryDisplay.Image and SharpMemory.SharpMemoryDisplay.DrawColumn require `width % 8 == 0`, which the driver does not check. For other widths, framebuf's MHMSB indexing (byte `(y * width + x) // 8` with a buffer of `(width // 8) * height` bytes) can map pixels of different rows onto the same bit, silently. For example, with width 12 and height 2, pixels (8, 0) and (0, 1) share bit 0x80 of byte 1. It raises `IndexError` only for pixels whose byte lies past the buffer's end, such as (4, 1). Neither behaviour is modelled.
- Width and height are natural numbers; negative widths or heights are not modelled. `bytearray` raises only when `(width // 8) * height` is negative (for example width 8, height -1). Other negative sizes, such as (-8, -2) or (4, -3), construct without error.
