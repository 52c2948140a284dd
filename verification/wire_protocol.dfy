/** The bytes one refresh of a Sharp memory LCD puts on the SPI bus.

    A refresh is a command byte carrying the write flag and the current VCOM
    polarity, then for every line its bit-reversed 1-based address, the
    line's bytes as stored in the frame buffer and a zero terminator, and
    then one more byte. That last byte is whatever the driver's one-byte
    scratch buffer holds at that point: the zero of the last line's
    terminator, or, for a panel of height 0, the command byte again. */
module WireProtocol {
  import opened ReverseBit
  import opened Rows

  /** Write-command flag of the command byte. */
  const WriteCmd: bv8 := 0x80
  /** VCOM polarity flag of the command byte. */
  const VcomBit: bv8 := 0x40

  /** The command byte: always the write flag, the VCOM flag exactly when
      `vcom` holds, and no other bit. */
  function CommandByte(vcom: bool): (b: bv8)
    ensures b & WriteCmd == WriteCmd
    ensures (b & VcomBit == VcomBit) == vcom
    ensures b & !(WriteCmd | VcomBit) == 0
  {
    if vcom then WriteCmd | VcomBit else WriteCmd
  }

  /** The address byte of 0-based line `line`: `reverse_bit(line + 1)`. */
  function LineAddress(line: nat): bv8
  {
    AsByte(Reversed(line + 1))
  }

  /** Read least-significant bit first, as the panel reads it, the address
      byte of line `line` is the 1-based line number modulo 256: lines 255,
      511, ... of a taller panel would all be addressed as line 0. */
  lemma LineAddressReadsBack(line: nat)
    ensures Reversed(LineAddress(line) as int) == (line + 1) % 256
  {
    HighBitsIgnored(line + 1);
    Involution((line + 1) % 256);
  }

  /** The byte holding a value below 256, as `bytearray` stores it. */
  function AsByte(x: int): (b: bv8)
    requires 0 <= x < 256
    ensures b as int == x
  {
    x as bv8
  }

  /** One line on the wire: its address, its bytes as stored, a zero. The
      layout lemmas below hold whatever the addresses are, so they take the
      addressing as a parameter; a refresh uses `LineAddress`. */
  function LineFrame(buf: seq<bv8>, rowBytes: nat, address: nat -> bv8, line: nat): seq<bv8>
    requires Span(line + 1, rowBytes) <= |buf|
  {
    [address(line)] + buf[Span(line, rowBytes) .. Span(line + 1, rowBytes)] + [0]
  }

  /** Lines 0 .. count-1 as they go on the wire, one after the other. */
  function Lines(buf: seq<bv8>, rowBytes: nat, address: nat -> bv8, count: nat): seq<bv8>
    requires Span(count, rowBytes) <= |buf|
  {
    if count == 0 then []
    else Lines(buf, rowBytes, address, count - 1) + LineFrame(buf, rowBytes, address, count - 1)
  }

  /** The byte the scratch buffer holds when the line loop is over. */
  function FinalByte(vcom: bool, height: nat): bv8
  {
    if height == 0 then CommandByte(vcom) else 0
  }

  /** Everything one refresh writes, for the buffer of a panel with
      `rowBytes` bytes (`width // 8`) per line and `height` lines, and the
      VCOM state before the refresh. */
  function Frame(buf: seq<bv8>, rowBytes: nat, height: nat, vcom: bool): seq<bv8>
    requires Span(height, rowBytes) <= |buf|
  {
    [CommandByte(vcom)] + Lines(buf, rowBytes, LineAddress, height) + [FinalByte(vcom, height)]
  }

  lemma LineFrameLength(buf: seq<bv8>, rowBytes: nat, address: nat -> bv8, line: nat)
    requires Span(line + 1, rowBytes) <= |buf|
    ensures |LineFrame(buf, rowBytes, address, line)| == rowBytes + 2
  {
  }

  /** Every line takes its bytes plus two on the wire. */
  lemma {:induction false} LinesLength(buf: seq<bv8>, rowBytes: nat, address: nat -> bv8, count: nat)
    requires Span(count, rowBytes) <= |buf|
    ensures |Lines(buf, rowBytes, address, count)| == Span(count, rowBytes + 2)
  {
    if count > 0 {
      SpanMono(count - 1, count, rowBytes);
      LinesLength(buf, rowBytes, address, count - 1);
      LineFrameLength(buf, rowBytes, address, count - 1);
    }
  }

  /** Line r sits at offset `r * (rowBytes + 2)` of the lines: lines go out
      in increasing order, each whole. */
  lemma {:induction false} LinesBlock(buf: seq<bv8>, rowBytes: nat, address: nat -> bv8, count: nat, r: nat)
    requires Span(count, rowBytes) <= |buf|
    requires r < count
    ensures Span(r + 1, rowBytes) <= |buf|
    ensures Span(r + 1, rowBytes + 2) <= |Lines(buf, rowBytes, address, count)|
    ensures Lines(buf, rowBytes, address, count)[Span(r, rowBytes + 2) .. Span(r + 1, rowBytes + 2)]
            == LineFrame(buf, rowBytes, address, r)
  {
    var n := rowBytes + 2;
    SpanMono(r + 1, count, rowBytes);
    SpanMono(count - 1, count, rowBytes);
    var init := Lines(buf, rowBytes, address, count - 1);
    var last := LineFrame(buf, rowBytes, address, count - 1);
    assert Lines(buf, rowBytes, address, count) == init + last;
    LinesLength(buf, rowBytes, address, count - 1);
    LineFrameLength(buf, rowBytes, address, count - 1);
    if r < count - 1 {
      LinesBlock(buf, rowBytes, address, count - 1, r);
      SliceLeft(init, last, Span(r, n), Span(r + 1, n));
    } else {
      SliceRight(init, last);
    }
  }

  lemma SliceLeft(a: seq<bv8>, b: seq<bv8>, lo: nat, hi: nat)
    requires lo <= hi <= |a|
    ensures (a + b)[lo..hi] == a[lo..hi]
  {
  }

  lemma SliceRight(a: seq<bv8>, b: seq<bv8>)
    ensures (a + b)[|a|..|a| + |b|] == b
  {
  }

  lemma SliceInner(first: bv8, middle: seq<bv8>, last: bv8, lo: nat, hi: nat)
    requires lo <= hi <= |middle|
    ensures ([first] + middle + [last])[1 + lo .. 1 + hi] == middle[lo..hi]
  {
  }

  /** The ends of a refresh, with `n = rowBytes + 2` bytes per line: the
      command byte first and one closing byte, for `2 + height * n` bytes in
      all (Span(height, n) is height * n). The frame ends with two zeros when
      there is a line, and repeats the command byte when there is none. */
  lemma FrameEnds(buf: seq<bv8>, rowBytes: nat, height: nat, vcom: bool)
    requires Span(height, rowBytes) <= |buf|
    ensures var f := Frame(buf, rowBytes, height, vcom);
      && |f| == 2 + Span(height, rowBytes + 2)
      && f[0] == CommandByte(vcom)
      && (height == 0 ==> f == [CommandByte(vcom), CommandByte(vcom)])
      && (height > 0 ==> f[|f| - 2] == 0 && f[|f| - 1] == 0)
  {
    LinesLength(buf, rowBytes, LineAddress, height);
    if height > 0 {
      LinesEndWithZero(buf, rowBytes, LineAddress, height);
    }
  }

  /** Every line, and so the last, ends with its zero. */
  lemma LinesEndWithZero(buf: seq<bv8>, rowBytes: nat, address: nat -> bv8, count: nat)
    requires Span(count, rowBytes) <= |buf| && count > 0
    ensures var lines := Lines(buf, rowBytes, address, count);
      |lines| > 0 && lines[|lines| - 1] == 0
  {
    SpanMono(count - 1, count, rowBytes);
    var last := LineFrame(buf, rowBytes, address, count - 1);
    assert last[|last| - 1] == 0;
  }

  /** Line r of a refresh fills the block of `rowBytes + 2` bytes that starts
      at `1 + r * (rowBytes + 2)`: lines go out in increasing order. */
  lemma FrameLine(buf: seq<bv8>, rowBytes: nat, height: nat, vcom: bool, r: nat)
    requires Span(height, rowBytes) <= |buf|
    requires r < height
    ensures Span(r + 1, rowBytes) <= |buf|
    ensures var f, n := Frame(buf, rowBytes, height, vcom), rowBytes + 2;
      && 1 + Span(r + 1, n) < |f|
      && f[1 + Span(r, n) .. 1 + Span(r + 1, n)] == LineFrame(buf, rowBytes, LineAddress, r)
  {
    var n := rowBytes + 2;
    LinesBlock(buf, rowBytes, LineAddress, height, r);
    SliceInner(CommandByte(vcom), Lines(buf, rowBytes, LineAddress, height), FinalByte(vcom, height), Span(r, n), Span(r + 1, n));
  }

  /** A one-line, one-byte panel with its first pixel lit: five bytes. */
  lemma OneLineFrame()
    ensures Frame([0x80], 1, 1, true) == [0xC0, 0x80, 0x80, 0x00, 0x00]
    ensures Frame([0x80], 1, 1, false) == [0x80, 0x80, 0x80, 0x00, 0x00]
  {
    KnownValues();
    assert LineAddress(0) == 0x80;
    assert LineFrame([0x80], 1, LineAddress, 0) == [0x80, 0x80, 0x00];
    assert Lines([0x80], 1, LineAddress, 1) == Lines([0x80], 1, LineAddress, 0) + LineFrame([0x80], 1, LineAddress, 0);
  }
}
