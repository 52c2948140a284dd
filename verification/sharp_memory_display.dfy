/** The `SharpMemoryDisplay` driver: a frame buffer of whole bytes per line,
    the VCOM polarity that must alternate from one refresh to the next, and
    the bytes each refresh puts on the SPI bus.

    The bus itself is not modelled: every `spi.write` appends its bytes to
    the ghost trace `sent`, and the chip-select, the baud rate and the
    `with` block that brackets a refresh are left out. */
module SharpMemory {
  import opened ReverseBit
  import opened Rows
  import opened WireProtocol
  import opened PixelLayout

  /** What `image` uses of a PIL image: its mode, its size and the value of
      each pixel as the loaded pixel access object returns it. */
  datatype SourceImage = SourceImage(mode: string, width: nat, height: nat, pixel: (int, int) -> int)

  /** A pixel `image` draws: one whose value is truthy. */
  predicate Lit(img: SourceImage, p: (int, int))
  {
    img.pixel(p.0, p.1) != 0
  }

  /** How `image` ends: it draws the image, or raises `ValueError` for a
      mode other than "1", or for a size other than the display's, which the
      message gives as the width and height expected. */
  datatype Status = Done | ModeNotOne | SizeMismatch(expectedWidth: nat, expectedHeight: nat)

  /** The checks `image` makes before it writes anything. The mode is
      checked first, so an image that is wrong in both ways is reported for
      its mode; the size expected is the display's as seen under the current
      rotation. */
  function ImageStatus(rotation: int, w: nat, h: nat, mode: string, imWidth: nat, imHeight: nat): (s: Status)
    ensures s == ModeNotOne <==> mode != "1"
    ensures s == Done <==> mode == "1" && (imWidth, imHeight) == LogicalSize(rotation, w, h)
    ensures s.SizeMismatch? ==> (s.expectedWidth, s.expectedHeight) == LogicalSize(rotation, w, h)
  {
    var (lw, lh) := LogicalSize(rotation, w, h);
    if mode != "1" then ModeNotOne
    else if imWidth != lw || imHeight != lh then SizeMismatch(lw, lh)
    else Done
  }

  /** Panel pixel (px, py) once `image` has drawn every logical point before
      (x, y) in its column-by-column order: on exactly when it shows a lit
      point that has been drawn. */
  ghost predicate Painted(img: SourceImage, rotation: int, w: nat, h: nat, px: int, py: int, x: int, y: int)
  {
    var (lx, ly) := Logical(rotation, w, h, px, py);
    InPanel(w, h, px, py) && (lx < x || (lx == x && ly < y)) && Lit(img, (lx, ly))
  }

  /** `buf` shows image `img` as `image` draws it under `rotation`: every
      panel pixel is on exactly when the image point mapped onto it is lit. */
  ghost predicate ShowsImage(buf: seq<bv8>, img: SourceImage, rotation: int, w: nat, h: nat)
  {
    forall px, py :: PixelOn(buf, w, h, px, py)
      == (InPanel(w, h, px, py) && Lit(img, Logical(rotation, w, h, px, py)))
  }

  /** There is one buffer that shows a given image, so what an accepted
      `image` leaves does not depend on what the buffer held before. */
  lemma DrawnImageUnique(a: seq<bv8>, b: seq<bv8>, img: SourceImage, rotation: int, w: nat, h: nat)
    requires w % 8 == 0 && |a| == Span(h, w / 8) && |b| == |a|
    requires ShowsImage(a, img, rotation, w, h) && ShowsImage(b, img, rotation, w, h)
    ensures a == b
  {
    PixelsDetermineBuffer(a, b, w, h);
  }

  lemma SentStep(start: seq<bv8>, before: seq<bv8>, buf: seq<bv8>, rowBytes: nat, address: nat -> bv8, line: nat, after: seq<bv8>)
    requires Span(line + 1, rowBytes) <= |buf|
    requires before == start + Lines(buf, rowBytes, address, line)
    requires after == before + LineFrame(buf, rowBytes, address, line)
    ensures after == start + Lines(buf, rowBytes, address, line + 1)
  {
    SpanMono(line, line + 1, rowBytes);
    var lines, next := Lines(buf, rowBytes, address, line), LineFrame(buf, rowBytes, address, line);
    assert Lines(buf, rowBytes, address, line + 1) == lines + next;
    AppendAssoc(start, lines, next);
  }

  lemma AppendAssoc(a: seq<bv8>, b: seq<bv8>, c: seq<bv8>)
    ensures (a + b) + c == a + (b + c)
  {
  }

  /** The closing byte completes the frame. */
  lemma FrameAppended(start: seq<bv8>, buf: seq<bv8>, rowBytes: nat, height: nat, vcom: bool, after: seq<bv8>)
    requires Span(height, rowBytes) <= |buf|
    requires after == start + [CommandByte(vcom)] + Lines(buf, rowBytes, LineAddress, height) + [FinalByte(vcom, height)]
    ensures after == start + Frame(buf, rowBytes, height, vcom)
  {
    var lines := Lines(buf, rowBytes, LineAddress, height);
    AppendAssoc(start, [CommandByte(vcom)], lines);
    AppendAssoc(start, [CommandByte(vcom)] + lines, [FinalByte(vcom, height)]);
  }

  class SharpMemoryDisplay {
    /** Panel width and height in pixels. */
    const width: nat
    const height: nat
    /** `self.buffer`: `width // 8` bytes per line, the framebuf's `buf`. */
    const buffer: array<bv8>
    /** `self._buf`: the one-byte scratch buffer every small write goes through. */
    const scratch: array<bv8>
    /** `self._vcom`: the VCOM polarity the next refresh sends. */
    var vcom: bool
    /** The framebuf's `rotation`. */
    var rotation: int
    /** Every byte written to the bus so far. */
    ghost var sent: seq<bv8>

    ghost predicate Valid()
    {
      buffer.Length == Span(height, width / 8) && scratch.Length == 1 && buffer != scratch
    }

    /** A display with a zeroed buffer of `(width // 8) * height` bytes and
        VCOM set. */
    constructor (width: nat, height: nat)
      ensures Valid()
      ensures this.width == width && this.height == height
      ensures buffer.Length == (width / 8) * height
      ensures forall i :: 0 <= i < buffer.Length ==> buffer[i] == 0
      ensures vcom && rotation == 0 && sent == []
      ensures fresh(buffer) && fresh(scratch)
    {
      this.width := width;
      this.height := height;
      scratch := new bv8[1](_ => 0);
      SpanIsProduct(height, width / 8);
      buffer := new bv8[(width / 8) * height](_ => 0);
      vcom := true;
      rotation := 0;
      sent := [];
    }

    /** `show`: one refresh. It sends `Frame` for the buffer as it stands and
        the VCOM polarity it had, flips the polarity, and changes nothing
        but the scratch byte besides. */
    method Show()
      requires Valid()
      modifies this`vcom, this`sent, scratch
      ensures vcom == !old(vcom)
      ensures sent == old(sent) + Frame(buffer[..], width / 8, height, old(vcom))
      ensures scratch[0] == FinalByte(old(vcom), height)
    {
      SendCommand();
      SendLines();
      sent := sent + [scratch[0]]; // the closing byte
      FrameAppended(old(sent), buffer[..], width / 8, height, old(vcom), sent);
    }

    /** The line loop of `show`: every line in order, `slice_from` advancing
        by `width // 8` bytes a line. The scratch byte is left holding the
        last line's zero, or what it held before when there are no lines. */
    method SendLines()
      requires Valid()
      modifies this`sent, scratch
      ensures sent == old(sent) + Lines(buffer[..], width / 8, LineAddress, height)
      ensures scratch[0] == if height == 0 then old(scratch[0]) else 0
    {
      var sliceFrom := 0;
      var lineLen := width / 8;
      for line := 0 to height
        invariant sliceFrom == Span(line, lineLen) <= buffer.Length
        invariant sliceFrom == line * lineLen
        invariant scratch[0] == if line == 0 then old(scratch[0]) else 0
        invariant sent == old(sent) + Lines(buffer[..], lineLen, LineAddress, line)
      {
        SpanMono(line + 1, height, lineLen);
        SpanIsProduct(line + 1, lineLen);
        ghost var before := sent;
        SendLine(line, sliceFrom);
        SentStep(old(sent), before, buffer[..], lineLen, LineAddress, line, sent);
        sliceFrom := sliceFrom + lineLen;
      }
    }

    /** The opening of `show`: the command byte with the current VCOM
        polarity, which then flips. */
    method SendCommand()
      requires Valid()
      modifies this`vcom, this`sent, scratch
      ensures vcom == !old(vcom)
      ensures scratch[0] == CommandByte(old(vcom))
      ensures sent == old(sent) + [CommandByte(old(vcom))]
    {
      // toggle the VCOM bit
      scratch[0] := WriteCmd;
      if vcom {
        scratch[0] := scratch[0] | VcomBit;
      }
      vcom := !vcom;
      sent := sent + [scratch[0]];
    }

    /** One pass of the line loop of `show`: the address of line `line`,
        its `width // 8` bytes starting at `sliceFrom`, and a zero. */
    method SendLine(line: nat, sliceFrom: nat)
      requires Valid() && sliceFrom == Span(line, width / 8) && Span(line + 1, width / 8) <= buffer.Length
      modifies this`sent, scratch
      ensures scratch[0] == 0
      ensures sent == old(sent) + LineFrame(buffer[..], width / 8, LineAddress, line)
    {
      var lineLen := width / 8;
      var address := ReverseBit.ReverseBit(line + 1);
      scratch[0] := AsByte(address);
      sent := sent + [scratch[0]];
      sent := sent + buffer[sliceFrom .. sliceFrom + lineLen];
      scratch[0] := 0;
      sent := sent + [scratch[0]];
    }

    /** The framebuf's `pixel(x, y, 1)` on this display's buffer. */
    method Pixel(x: int, y: int)
      requires Valid() && width % 8 == 0
      modifies buffer
      ensures buffer[..] == DrawPixel(old(buffer[..]), width, height, rotation, x, y)
    {
      var (px, py) := Physical(rotation, width, height, x, y);
      if 0 <= px < width && 0 <= py < height {
        ByteIndexInRange(width, height, px, py);
        ByteIndexIsStride(width, px, py);
        var index := (py * width + px) / 8;
        var mask := Mask(px);
        buffer[index] := (buffer[index] & !mask) | mask;
      }
    }

    /** The clearing loop of `image`: every byte of the buffer set to 0. */
    method ClearBuffer()
      modifies buffer
      ensures forall i :: 0 <= i < buffer.Length ==> buffer[i] == 0
    {
      for i := 0 to buffer.Length
        invariant forall j :: 0 <= j < i ==> buffer[j] == 0
      {
        buffer[i] := 0;
      }
    }

    /** The inner loop of `image`: column x of the image, top to bottom,
        drawing each lit pixel. */
    method DrawColumn(img: SourceImage, x: int, h: nat)
      requires Valid() && width % 8 == 0
      requires forall px, py :: PixelOn(buffer[..], width, height, px, py)
                 == Painted(img, rotation, width, height, px, py, x, 0)
      modifies buffer
      ensures forall px, py :: PixelOn(buffer[..], width, height, px, py)
                == Painted(img, rotation, width, height, px, py, x, h)
    {
      for y := 0 to h
        invariant forall px, py :: PixelOn(buffer[..], width, height, px, py)
                    == Painted(img, rotation, width, height, px, py, x, y)
      {
        if Lit(img, (x, y)) {
          ghost var before := buffer[..];
          Pixel(x, y);
          forall px, py
            ensures PixelOn(buffer[..], width, height, px, py) == Painted(img, rotation, width, height, px, py, x, y + 1)
          {
            DrawPixelEffect(before, width, height, rotation, x, y, px, py);
          }
        }
      }
    }

    /** `image`: check the image against the display as the rotation
        presents it, then clear the buffer and draw every lit pixel. A
        rejected image leaves the buffer as it was; an accepted one leaves
        every panel pixel showing the image pixel the rotation maps onto it. */
    method Image(img: SourceImage) returns (status: Status)
      requires Valid() && width % 8 == 0
      modifies buffer
      ensures status == ImageStatus(rotation, width, height, img.mode, img.width, img.height)
      ensures status != Done ==> buffer[..] == old(buffer[..])
      ensures status == Done ==> ShowsImage(buffer[..], img, rotation, width, height)
    {
      // the effective width and height, taking rotation into account
      var w, h := width, height;
      if rotation == 1 || rotation == 3 {
        w, h := height, width;
      }
      if img.mode != "1" {
        return ModeNotOne;
      }
      if img.width != w || img.height != h {
        return SizeMismatch(w, h);
      }

      ClearBuffer();
      forall px, py
        ensures PixelOn(buffer[..], width, height, px, py) == Painted(img, rotation, width, height, px, py, 0, 0)
      {
        BlankBuffer(buffer[..], width, height, px, py);
        if InPanel(width, height, px, py) {
          LogicalInRange(rotation, width, height, px, py);
        }
      }

      // draw the lit pixels, column by column
      for x := 0 to w
        invariant forall px, py :: PixelOn(buffer[..], width, height, px, py)
                    == Painted(img, rotation, width, height, px, py, x, 0)
      {
        DrawColumn(img, x, h);
        forall px, py
          ensures Painted(img, rotation, width, height, px, py, x, h) == Painted(img, rotation, width, height, px, py, x + 1, 0)
        {
          if InPanel(width, height, px, py) {
            LogicalInRange(rotation, width, height, px, py);
          }
        }
      }
      forall px, py
        ensures Painted(img, rotation, width, height, px, py, w, 0)
             == (InPanel(width, height, px, py) && Lit(img, Logical(rotation, width, height, px, py)))
      {
        if InPanel(width, height, px, py) {
          LogicalInRange(rotation, width, height, px, py);
        }
      }
      status := Done;
    }
  }
}
