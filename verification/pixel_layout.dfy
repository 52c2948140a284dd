/** Where a pixel lives in the frame buffer, and how rotation moves it.

    The driver draws through `adafruit_framebuf.FrameBuffer.pixel` with the
    MHMSB format; that library is not part of this model, so its behaviour
    is written out here as an assumption about it:
      - rotation 1 sends logical (x, y) to (width-1-y, x), rotation 2 to
        (width-1-x, height-1-y), rotation 3 to (y, height-1-x), and any other
        rotation value leaves the point where it is;
      - a point outside the panel is ignored;
      - pixel (x, y) is bit `7 - x % 8` of byte `(y * width + x) // 8`, rows
        stored one after the other, leftmost pixel in the most significant
        bit;
      - setting a pixel to 1 is `b = (b & ~mask) | mask` on that byte.
    Width and height are the panel's own (unrotated) dimensions throughout. */
module PixelLayout {
  import opened Rows

  /** (px, py) lies on a panel of width w and height h. */
  predicate InPanel(w: int, h: int, px: int, py: int)
  {
    0 <= px < w && 0 <= py < h
  }

  /** The byte holding pixel (px, py): byte `px / 8` of row `py`, a row
      being `w / 8` bytes. For a width that is a multiple of 8 this is
      MHMSB's `(y * stride + x) // 8` with the stride equal to the width
      (ByteIndexIsStride). */
  function ByteIndex(w: nat, px: nat, py: nat): nat
  {
    Span(py, w / 8) + px / 8
  }

  /** The bit of its byte that holds a pixel in column px, `1 << (7 - px % 8)`:
      the leftmost pixel of a byte is its most significant bit. */
  function Mask(px: nat): bv8
  {
    [0x80, 0x40, 0x20, 0x10, 0x08, 0x04, 0x02, 0x01][px % 8]
  }

  /** Whether pixel (px, py) is set in `buf`; a point off the panel, or one
      the buffer is too short for, is never set. */
  predicate PixelOn(buf: seq<bv8>, w: nat, h: nat, px: int, py: int)
  {
    InPanel(w, h, px, py) && ByteIndex(w, px, py) < |buf|
    && buf[ByteIndex(w, px, py)] & Mask(px) != 0
  }

  /** `set_pixel(x, y, 1)` of the MHMSB format. */
  function SetPixel(buf: seq<bv8>, w: nat, px: nat, py: nat): (r: seq<bv8>)
    requires ByteIndex(w, px, py) < |buf|
    ensures |r| == |buf|
  {
    var i := ByteIndex(w, px, py);
    buf[i := (buf[i] & !Mask(px)) | Mask(px)]
  }

  /** MHMSB computes the byte as `(y * stride + x) // 8`; with whole bytes
      per row that is ByteIndex. */
  lemma ByteIndexIsStride(w: nat, px: nat, py: nat)
    requires w % 8 == 0
    ensures (py * w + px) / 8 == ByteIndex(w, px, py)
  {
    SpanIsProduct(py, w);
    SpanScale(py, w / 8);
    assert 8 * (w / 8) == w;
    assert py * w + px == 8 * (Span(py, w / 8) + px / 8) + px % 8;
  }

  /** Every pixel of the panel has its byte inside a buffer of
      `(w / 8) * h` bytes. */
  lemma ByteIndexInRange(w: nat, h: nat, px: nat, py: nat)
    requires w % 8 == 0 && InPanel(w, h, px, py)
    ensures px / 8 < w / 8
    ensures ByteIndex(w, px, py) < Span(h, w / 8)
  {
    SpanMono(py + 1, h, w / 8);
  }

  /** Two pixels of the panel share a byte and a bit only when they are the
      same pixel. */
  lemma PixelsApart(w: nat, h: nat, px: nat, py: nat, qx: nat, qy: nat)
    requires w % 8 == 0 && InPanel(w, h, px, py) && InPanel(w, h, qx, qy)
    requires ByteIndex(w, px, py) == ByteIndex(w, qx, qy)
    requires px % 8 == qx % 8
    ensures px == qx && py == qy
  {
    ByteIndexInRange(w, h, px, py);
    ByteIndexInRange(w, h, qx, qy);
    SpanUnique(py, px / 8, qy, qx / 8, w / 8);
  }

  /** Setting pixel p turns p on and leaves every other pixel as it was. */
  lemma SetPixelEffect(buf: seq<bv8>, w: nat, h: nat, px: nat, py: nat, qx: int, qy: int)
    requires w % 8 == 0 && InPanel(w, h, px, py) && |buf| == Span(h, w / 8)
    ensures (ByteIndexInRange(w, h, px, py);
      PixelOn(SetPixel(buf, w, px, py), w, h, qx, qy)
      == (PixelOn(buf, w, h, qx, qy) || (qx == px && qy == py)))
  {
    ByteIndexInRange(w, h, px, py);
    if !InPanel(w, h, qx, qy) {
    } else if qx == px && qy == py {
      SetPixelSelf(buf, w, h, px, py);
    } else {
      SetPixelOther(buf, w, h, px, py, qx, qy);
    }
  }

  lemma SetPixelSelf(buf: seq<bv8>, w: nat, h: nat, px: nat, py: nat)
    requires w % 8 == 0 && InPanel(w, h, px, py) && |buf| == Span(h, w / 8)
    ensures (ByteIndexInRange(w, h, px, py); PixelOn(SetPixel(buf, w, px, py), w, h, px, py))
  {
    ByteIndexInRange(w, h, px, py);
    MaskSet(buf[ByteIndex(w, px, py)], px);
  }

  lemma SetPixelOther(buf: seq<bv8>, w: nat, h: nat, px: nat, py: nat, qx: nat, qy: nat)
    requires w % 8 == 0 && InPanel(w, h, px, py) && InPanel(w, h, qx, qy) && |buf| == Span(h, w / 8)
    requires qx != px || qy != py
    ensures (ByteIndexInRange(w, h, px, py);
      PixelOn(SetPixel(buf, w, px, py), w, h, qx, qy) == PixelOn(buf, w, h, qx, qy))
  {
    ByteIndexInRange(w, h, px, py);
    ByteIndexInRange(w, h, qx, qy);
    var i, j := ByteIndex(w, px, py), ByteIndex(w, qx, qy);
    if i == j {
      if qx % 8 == px % 8 {
        PixelsApart(w, h, px, py, qx, qy);
      }
      MaskOther(buf[i], px, qx);
    }
  }

  /** Setting the bit of column k sets it. */
  lemma MaskSet(b: bv8, k: nat)
    ensures ((b & !Mask(k)) | Mask(k)) & Mask(k) != 0
  {
  }

  /** Setting the bit of column k leaves the bit of another column l. */
  lemma MaskOther(b: bv8, k: nat, l: nat)
    requires k % 8 != l % 8
    ensures ((b & !Mask(k)) | Mask(k)) & Mask(l) == b & Mask(l)
  {
  }

  /** A byte is known once each of its eight bits is. */
  lemma ByteFromBits(x: bv8, y: bv8)
    requires forall k: nat :: k < 8 ==> (x & Mask(k) != 0) == (y & Mask(k) != 0)
    ensures x == y
  {
    assert (x & Mask(0) != 0) == (y & Mask(0) != 0);
    assert (x & Mask(1) != 0) == (y & Mask(1) != 0);
    assert (x & Mask(2) != 0) == (y & Mask(2) != 0);
    assert (x & Mask(3) != 0) == (y & Mask(3) != 0);
    assert (x & Mask(4) != 0) == (y & Mask(4) != 0);
    assert (x & Mask(5) != 0) == (y & Mask(5) != 0);
    assert (x & Mask(6) != 0) == (y & Mask(6) != 0);
    assert (x & Mask(7) != 0) == (y & Mask(7) != 0);
  }

  /** With whole bytes per row every bit of the buffer is a pixel, so two
      buffers showing the same pixels are the same buffer. */
  lemma PixelsDetermineBuffer(a: seq<bv8>, b: seq<bv8>, w: nat, h: nat)
    requires w % 8 == 0 && |a| == Span(h, w / 8) && |b| == |a|
    requires forall px, py :: PixelOn(a, w, h, px, py) == PixelOn(b, w, h, px, py)
    ensures a == b
  {
    forall i | 0 <= i < |a|
      ensures a[i] == b[i]
    {
      var row, col := SpanSplit(i, h, w / 8);
      ByteAgrees(a, b, w, h, row, col);
    }
  }

  lemma ByteAgrees(a: seq<bv8>, b: seq<bv8>, w: nat, h: nat, row: nat, col: nat)
    requires w % 8 == 0 && |a| == Span(h, w / 8) && |b| == |a|
    requires row < h && col < w / 8
    requires forall px, py :: PixelOn(a, w, h, px, py) == PixelOn(b, w, h, px, py)
    ensures Span(row, w / 8) + col < |a|
    ensures a[Span(row, w / 8) + col] == b[Span(row, w / 8) + col]
  {
    var i := Span(row, w / 8) + col;
    PixelOfBit(a, w, h, row, col, 0);
    forall k: nat | k < 8
      ensures (a[i] & Mask(k) != 0) == (b[i] & Mask(k) != 0)
    {
      PixelOfBit(a, w, h, row, col, k);
      PixelOfBit(b, w, h, row, col, k);
    }
    ByteFromBits(a[i], b[i]);
  }

  /** Bit k of byte `col` of row `row` is pixel (8 * col + k, row). */
  lemma PixelOfBit(buf: seq<bv8>, w: nat, h: nat, row: nat, col: nat, k: nat)
    requires w % 8 == 0 && |buf| == Span(h, w / 8)
    requires row < h && col < w / 8 && k < 8
    ensures Span(row, w / 8) + col < |buf|
    ensures PixelOn(buf, w, h, 8 * col + k, row) == (buf[Span(row, w / 8) + col] & Mask(k) != 0)
  {
    var px := 8 * col + k;
    assert px / 8 == col && px % 8 == k;
    ByteIndexInRange(w, h, px, row);
  }

  /** A zeroed buffer shows no pixel. */
  lemma BlankBuffer(buf: seq<bv8>, w: nat, h: nat, px: int, py: int)
    requires forall i :: 0 <= i < |buf| ==> buf[i] == 0
    ensures !PixelOn(buf, w, h, px, py)
  {
  }

  /** The size the panel has for a drawing client under `rotation`: width
      and height trade places for a quarter turn either way. */
  function LogicalSize(rotation: int, w: nat, h: nat): (size: (nat, nat))
    ensures size.0 * size.1 == w * h
    ensures rotation == 1 || rotation == 3 ==> size == (h, w)
    ensures rotation != 1 && rotation != 3 ==> size == (w, h)
  {
    if rotation in {1, 3} then (h, w) else (w, h)
  }

  /** framebuf's `pixel` coordinate transform: where logical (x, y) lands
      on the panel. */
  function Physical(rotation: int, w: int, h: int, x: int, y: int): (int, int)
  {
    if rotation == 1 then (w - 1 - y, x)
    else if rotation == 2 then (w - 1 - x, h - 1 - y)
    else if rotation == 3 then (y, h - 1 - x)
    else (x, y)
  }

  /** The logical point that lands on panel pixel (px, py). */
  function Logical(rotation: int, w: int, h: int, px: int, py: int): (int, int)
  {
    if rotation == 1 then (py, w - 1 - px)
    else if rotation == 2 then (w - 1 - px, h - 1 - py)
    else if rotation == 3 then (h - 1 - py, px)
    else (px, py)
  }

  /** Logical and Physical undo each other: the transform is one to one. */
  lemma RotationRoundTrip(rotation: int, w: int, h: int, x: int, y: int)
    ensures var (px, py) := Physical(rotation, w, h, x, y);
      Logical(rotation, w, h, px, py) == (x, y)
    ensures var (lx, ly) := Logical(rotation, w, h, x, y);
      Physical(rotation, w, h, lx, ly) == (x, y)
  {
  }

  /** A logical point is on the panel exactly when it is inside the logical
      size. */
  lemma RotationInPanel(rotation: int, w: nat, h: nat, x: int, y: int)
    ensures var (px, py) := Physical(rotation, w, h, x, y);
      InPanel(w, h, px, py) == InPanel(LogicalSize(rotation, w, h).0, LogicalSize(rotation, w, h).1, x, y)
  {
  }

  /** Every panel pixel shows a point inside the logical size. */
  lemma LogicalInRange(rotation: int, w: nat, h: nat, px: int, py: int)
    requires InPanel(w, h, px, py)
    ensures var (lx, ly) := Logical(rotation, w, h, px, py);
      InPanel(LogicalSize(rotation, w, h).0, LogicalSize(rotation, w, h).1, lx, ly)
  {
  }

  /** framebuf's `pixel(x, y, 1)`: transform, ignore points off the panel,
      set the bit. */
  function DrawPixel(buf: seq<bv8>, w: nat, h: nat, rotation: int, x: int, y: int): (r: seq<bv8>)
    requires w % 8 == 0 && |buf| == Span(h, w / 8)
    ensures |r| == |buf|
  {
    var (px, py) := Physical(rotation, w, h, x, y);
    if InPanel(w, h, px, py) then
      ByteIndexInRange(w, h, px, py);
      SetPixel(buf, w, px, py)
    else
      buf
  }

  /** Drawing logical (x, y) lights the one panel pixel that shows (x, y),
      if there is one, and changes no other pixel. */
  lemma DrawPixelEffect(buf: seq<bv8>, w: nat, h: nat, rotation: int, x: int, y: int, qx: int, qy: int)
    requires w % 8 == 0 && |buf| == Span(h, w / 8)
    ensures PixelOn(DrawPixel(buf, w, h, rotation, x, y), w, h, qx, qy)
      == (PixelOn(buf, w, h, qx, qy)
          || (InPanel(w, h, qx, qy) && Logical(rotation, w, h, qx, qy) == (x, y)))
  {
    RotationRoundTrip(rotation, w, h, x, y);
    RotationRoundTrip(rotation, w, h, qx, qy);
    var (px, py) := Physical(rotation, w, h, x, y);
    if InPanel(w, h, px, py) {
      SetPixelEffect(buf, w, h, px, py, qx, qy);
    }
  }
}
