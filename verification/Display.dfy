/** The SSD1306 frame buffer: one byte holds eight rows of one column, least significant bit on top. */
module Display {
  import opened Bits
  import opened Machine

  const WIDTH := 128
  const HEIGHT := 64
  const BLACK := 0
  const WHITE := 1
  const INVERSE := 2

  type Frame = f: seq<bv8> | |f| == WIDTH * HEIGHT / 8 witness seq(1024, _ => 0)

  predicate OnScreen(x: int, y: int) {
    0 <= x < WIDTH && 0 <= y < HEIGHT
  }

  /** Is the pixel at physical column `x`, row `y` lit? */
  predicate Lit(f: Frame, x: int, y: int)
    requires OnScreen(x, y)
  {
    Bit(f[x + (y / 8) * WIDTH], y % 8)
  }

  /** What drawing in a colour does to the bits of a byte selected by `mask`. */
  function Paint(b: bv8, mask: bv8, color: int): bv8 {
    if color == WHITE then b | mask
    else if color == BLACK then b & !mask
    else if color == INVERSE then b ^ mask
    else b
  }

  /** What drawing does to one pixel, if it is drawn. */
  predicate Painted(lit: bool, drawn: bool, color: int) {
    if !drawn then lit
    else if color == WHITE then true
    else if color == BLACK then false
    else if color == INVERSE then !lit
    else lit
  }

  lemma PaintBits(b: bv8, mask: bv8, color: int, j: int)
    requires 0 <= j < 8
    ensures Bit(Paint(b, mask, color), j) == Painted(Bit(b, j), Bit(mask, j), color)
  {
    hide Bit;
    MaskedBits(b, mask, j);
  }

  /** A frame is determined by its pixels. */
  lemma SameFrame(f: Frame, g: Frame)
    requires forall x, y :: OnScreen(x, y) ==> Lit(f, x, y) == Lit(g, x, y)
    ensures f == g
  {
    hide Bit;
    forall k | 0 <= k < |f| ensures f[k] == g[k] {
      var x, row := k % WIDTH, k / WIDTH;
      forall j | 0 <= j < 8 ensures Bit(f[k], j) == Bit(g[k], j) {
        assert OnScreen(x, 8 * row + j) && Lit(f, x, 8 * row + j) == Lit(g, x, 8 * row + j);
      }
      SameBits(f[k], g[k]);
    }
  }

  // ---------- pixel by pixel ----------

  /** The screen as the current rotation presents it. */
  function Width(rotation: int): int {
    if rotation % 2 == 0 then WIDTH else HEIGHT
  }

  function Height(rotation: int): int {
    if rotation % 2 == 0 then HEIGHT else WIDTH
  }

  /** Where a logical pixel lies physically. */
  function Physical(rotation: int, x: int, y: int): (int, int) {
    match rotation
    case 1 => (WIDTH - y - 1, x)
    case 2 => (WIDTH - x - 1, HEIGHT - y - 1)
    case 3 => (y, HEIGHT - x - 1)
    case _ => (x, y)
  }

  /** One physical pixel drawn. */
  function WithPixel(f: Frame, px: int, py: int, color: int): Frame
    requires OnScreen(px, py)
  {
    var k := px + (py / 8) * WIDTH;
    f[k := Paint(f[k], Mask(py % 8), color)]
  }

  /** `drawPixel` on a frame. */
  function AfterPixel(f: Frame, rotation: int, x: int, y: int, color: int): Frame
    requires 0 <= rotation < 4
  {
    if x < 0 || x >= Width(rotation) || y < 0 || y >= Height(rotation) then f else
      var (px, py) := Physical(rotation, x, y);
      WithPixel(f, px, py, color)
  }

  lemma AfterPixelIs(f: Frame, rotation: int, x: int, y: int, color: int)
    requires 0 <= rotation < 4
    ensures if x < 0 || x >= Width(rotation) || y < 0 || y >= Height(rotation) then
              AfterPixel(f, rotation, x, y, color) == f
            else
              var (px, py) := Physical(rotation, x, y);
              OnScreen(px, py) && AfterPixel(f, rotation, x, y, color) == WithPixel(f, px, py, color)
    ensures var (px, py) := Physical(rotation, x, y);
            OnScreen(px, py) <==> 0 <= x < Width(rotation) && 0 <= y < Height(rotation)
  {
    hide WithPixel;
  }

  /** `w` pixels to the right of (x, y), drawn one at a time. */
  function SlowHLine(f: Frame, rotation: int, x: int, y: int, w: int, color: int): Frame
    requires 0 <= rotation < 4
    decreases if w > 0 then w else 0
  {
    if w <= 0 then f
    else AfterPixel(SlowHLine(f, rotation, x, y, w - 1, color), rotation, x + w - 1, y, color)
  }

  /** `h` pixels down from (x, y), drawn one at a time. */
  function SlowVLine(f: Frame, rotation: int, x: int, y: int, h: int, color: int): Frame
    requires 0 <= rotation < 4
    decreases if h > 0 then h else 0
  {
    if h <= 0 then f
    else AfterPixel(SlowVLine(f, rotation, x, y, h - 1, color), rotation, x, y + h - 1, color)
  }

  /** A rectangle of physical pixels; empty when a side is not positive. */
  datatype Box = Box(x: int, y: int, w: int, h: int) {
    predicate Contains(px: int, py: int) {
      x <= px < x + w && y <= py < y + h
    }
  }

  /** Frame `g` is frame `f` with exactly the pixels in `box` painted. */
  ghost predicate PaintedBox(f: Frame, g: Frame, box: Box, color: int) {
    forall px, py :: OnScreen(px, py) ==> Lit(g, px, py) == Painted(Lit(f, px, py), box.Contains(px, py), color)
  }

  /** Painting one byte under a mask paints the rows of that column its bits stand for. */
  lemma PaintByte(f: Frame, x: int, row: int, mask: bv8, color: int, px: int, py: int)
    requires 0 <= x < WIDTH && 0 <= row < 8 && OnScreen(px, py)
    ensures var k := x + row * WIDTH;
            Lit(f[k := Paint(f[k], mask, color)], px, py) ==
            Painted(Lit(f, px, py), px == x && py / 8 == row && Bit(mask, py % 8), color)
  {
    hide Bit, Paint;
    var k := x + row * WIDTH;
    if px == x && py / 8 == row {
      PaintBits(f[k], mask, color, py % 8);
    }
  }

  lemma DrawPixelPaints(f: Frame, rotation: int, x: int, y: int, color: int)
    requires 0 <= rotation < 4
    ensures var (px, py) := Physical(rotation, x, y);
            PaintedBox(f, AfterPixel(f, rotation, x, y, color), Box(px, py, 1, 1), color)
  {
    AfterPixelIs(f, rotation, x, y, color);
    hide Bit, Mask, Paint, AfterPixel, Physical;
    var (px, py) := Physical(rotation, x, y);
    var g := AfterPixel(f, rotation, x, y, color);
    forall qx, qy | OnScreen(qx, qy)
      ensures Lit(g, qx, qy) == Painted(Lit(f, qx, qy), Box(px, py, 1, 1).Contains(qx, qy), color)
    {
      if OnScreen(px, py) {
        PaintByte(f, px, py / 8, Mask(py % 8), color, qx, qy);
        MaskBits(py % 8, qy % 8);
      }
    }
  }

  /** The physical box a logical horizontal line covers. */
  function BoxOfHLine(rotation: int, x: int, y: int, w: int): Box {
    match rotation
    case 1 => Box(WIDTH - y - 1, x, 1, w)
    case 2 => Box(WIDTH - x - w, HEIGHT - y - 1, w, 1)
    case 3 => Box(y, HEIGHT - x - w, 1, w)
    case _ => Box(x, y, w, 1)
  }

  function BoxOfVLine(rotation: int, x: int, y: int, h: int): Box {
    match rotation
    case 1 => Box(WIDTH - y - h, x, h, 1)
    case 2 => Box(WIDTH - x - 1, HEIGHT - y - h, 1, h)
    case 3 => Box(y, HEIGHT - x - 1, h, 1)
    case _ => Box(x, y, 1, h)
  }

  /** Drawing a line pixel by pixel paints its box and nothing else, whatever lies off the screen. */
  lemma {:induction false} SlowHLinePaints(f: Frame, rotation: int, x: int, y: int, w: int, color: int)
    requires 0 <= rotation < 4
    ensures PaintedBox(f, SlowHLine(f, rotation, x, y, w, color), BoxOfHLine(rotation, x, y, w), color)
    decreases if w > 0 then w else 0
  {
    hide Lit, AfterPixel;
    if w > 0 {
      SlowHLinePaints(f, rotation, x, y, w - 1, color);
      DrawPixelPaints(SlowHLine(f, rotation, x, y, w - 1, color), rotation, x + w - 1, y, color);
    }
  }

  lemma {:induction false} SlowVLinePaints(f: Frame, rotation: int, x: int, y: int, h: int, color: int)
    requires 0 <= rotation < 4
    ensures PaintedBox(f, SlowVLine(f, rotation, x, y, h, color), BoxOfVLine(rotation, x, y, h), color)
    decreases if h > 0 then h else 0
  {
    hide Lit, AfterPixel;
    if h > 0 {
      SlowVLinePaints(f, rotation, x, y, h - 1, color);
      DrawPixelPaints(SlowVLine(f, rotation, x, y, h - 1, color), rotation, x, y + h - 1, color);
    }
  }

  lemma SameBox(f: Frame, g: Frame, g': Frame, box: Box, color: int)
    requires PaintedBox(f, g, box, color) && PaintedBox(f, g', box, color)
    ensures g == g'
  {
    hide Lit;
    SameFrame(g, g');
  }

  // ---------- byte masks ----------

  const PREMASK: seq<bv8> := [0x00, 0x80, 0xC0, 0xE0, 0xF0, 0xF8, 0xFC, 0xFE]
  const POSTMASK: seq<bv8> := [0x00, 0x01, 0x03, 0x07, 0x0F, 0x1F, 0x3F, 0x7F]

  /** The mask of the first partial byte: rows from 8 - mod on, cut short if only `h` rows are drawn. */
  function FirstMask(mod: int, h: int): bv8
    requires 0 <= mod < 8 && 0 <= h
  {
    if h < mod then PREMASK[mod] & (0xFF >> (mod - h)) else PREMASK[mod]
  }

  lemma FirstMaskBits(mod: int, h: int, j: int)
    requires 0 < mod < 8 && 0 <= h && 0 <= j < 8
    ensures Bit(FirstMask(mod, h), j) <==> 8 - mod <= j < 8 - mod + h
  {
    PremaskBits(mod, j);
    if h < mod {
      ShiftBits(mod - h, j);
      AndBits(PREMASK[mod], 0xFF >> (mod - h), j);
    }
  }

  lemma PremaskBits(mod: int, j: int)
    requires 0 <= mod < 8 && 0 <= j < 8
    ensures Bit(PREMASK[mod], j) <==> 8 - mod <= j
    ensures Bit(POSTMASK[mod], j) <==> j < mod
  {
  }

  lemma ShiftBits(n: int, j: int)
    requires 0 <= n < 8 && 0 <= j < 8
    ensures Bit(0xFF >> n, j) <==> j < 8 - n
  {
  }

  /** A whole byte can be stored instead of masked. */
  lemma WholeByte(b: bv8, j: int)
    requires 0 <= j < 8
    ensures Paint(b, 0xFF, WHITE) == 0xFF && Paint(b, 0xFF, BLACK) == 0 && Paint(b, 0xFF, INVERSE) == !b
    ensures Bit(0xFF, j)
  {
  }

  /** Storing masked bytes down a column: rows `top` to `lo` are painted, and this byte adds rows to `hi`. */
  lemma PaintNextByte(f: Frame, g: Frame, x: int, row: int, top: int, lo: int, hi: int, mask: bv8, color: int)
    requires 0 <= x < WIDTH && 0 <= row < 8 && top <= lo && 8 * row <= lo <= hi <= 8 * row + 8
    requires PaintedBox(f, g, Box(x, top, 1, lo - top), color)
    requires forall j :: 0 <= j < 8 ==> (Bit(mask, j) <==> lo <= 8 * row + j < hi)
    ensures PaintedBox(f, g[x + row * WIDTH := Paint(g[x + row * WIDTH], mask, color)], Box(x, top, 1, hi - top), color)
  {
    hide Bit, Paint, Lit;
    var g' := g[x + row * WIDTH := Paint(g[x + row * WIDTH], mask, color)];
    forall px, py | OnScreen(px, py)
      ensures Lit(g', px, py) == Painted(Lit(f, px, py), Box(x, top, 1, hi - top).Contains(px, py), color)
    {
      PaintByte(g, x, row, mask, color, px, py);
    }
  }

  /** Storing one masked byte after another along a row. */
  lemma PaintNextColumn(f: Frame, g: Frame, x: int, y: int, w: nat, color: int)
    requires 0 <= x && x + w < WIDTH && 0 <= y < HEIGHT
    requires PaintedBox(f, g, Box(x, y, w, 1), color)
    ensures var k := x + w + (y / 8) * WIDTH;
            PaintedBox(f, g[k := Paint(g[k], Mask(y % 8), color)], Box(x, y, w + 1, 1), color)
  {
    hide Bit, Paint, Lit, Mask;
    var k := x + w + (y / 8) * WIDTH;
    var g' := g[k := Paint(g[k], Mask(y % 8), color)];
    forall px, py | OnScreen(px, py)
      ensures Lit(g', px, py) == Painted(Lit(f, px, py), Box(x, y, w + 1, 1).Contains(px, py), color)
    {
      PaintByte(g, x + w, y / 8, Mask(y % 8), color, px, py);
      MaskBits(y % 8, py % 8);
    }
  }

  /** The arithmetic of a line call stays within 16 bits. */
  predicate HLineFits(rotation: int, x: int16, y: int16, w: int16) {
    match rotation
    case 1 => Int16(WIDTH - y - 1) && Int16(x + w)
    case 2 => Int16(WIDTH - x) && Int16(HEIGHT - y - 1) && Int16(w - 1) && Int16(WIDTH - x - w)
    case 3 => Int16(HEIGHT - x) && Int16(w - 1) && Int16(HEIGHT - x - w)
    case _ => Int16(x + w)
  }

  predicate VLineFits(rotation: int, x: int16, y: int16, h: int16) {
    match rotation
    case 1 => Int16(WIDTH - y) && Int16(h - 1) && Int16(WIDTH - y - h)
    case 2 => Int16(WIDTH - x - 1) && Int16(HEIGHT - y) && Int16(h - 1) && Int16(HEIGHT - y - h)
    case 3 => Int16(HEIGHT - x - 1) && Int16(y + h)
    case _ => Int16(y + h)
  }

  predicate IsColor(color: int) {
    color == BLACK || color == WHITE || color == INVERSE
  }

  class Screen {
    const buffer: array<bv8>
    var rotation: int

    ghost predicate Valid()
      reads this
    {
      buffer.Length == WIDTH * HEIGHT / 8 && 0 <= rotation < 4
    }

    /** Sets a single pixel. */
    method DrawPixel(x: int16, y: int16, color: int)
      requires Valid()
      modifies buffer
      ensures buffer[..] == AfterPixel(old(buffer[..]), rotation, x, y, color)
    {
      AfterPixelIs(buffer[..], rotation, x, y, color);
      hide WithPixel, AfterPixel;
      if x < 0 || x >= Width(rotation) || y < 0 || y >= Height(rotation) {
        return;
      }
      var px: int16, py: int16 := x, y;
      match rotation {
        case 1 =>
          px, py := py, px;
          px := WIDTH - px - 1;
        case 2 =>
          px := WIDTH - px - 1;
          py := HEIGHT - py - 1;
        case 3 =>
          px, py := py, px;
          py := HEIGHT - py - 1;
        case _ =>
      }
      SetPixel(px, py, color);
    }

    /** One physical pixel, through the colour switch. */
    method SetPixel(px: int16, py: int16, color: int)
      requires Valid() && 0 <= px < WIDTH && 0 <= py < HEIGHT
      modifies buffer
      ensures buffer[..] == WithPixel(old(buffer[..]), px, py, color)
    {
      hide Paint, Mask;
      var k := px + (py / 8) * WIDTH;
      ApplyMask(k, Mask(py % 8), color);
    }

    /** The colour switch every drawing routine ends in: or, and-not or xor a mask into one byte. */
    method ApplyMask(k: nat, mask: bv8, color: int)
      requires Valid() && k < buffer.Length
      modifies buffer
      ensures buffer[..] == old(buffer[..])[k := Paint(old(buffer[k]), mask, color)]
    {
      if color == WHITE {
        buffer[k] := buffer[k] | mask;
      } else if color == BLACK {
        buffer[k] := buffer[k] & !mask;
      } else if color == INVERSE {
        buffer[k] := buffer[k] ^ mask;
      }
    }

    /** A horizontal line, drawn along bytes; it leaves the frame as drawing each pixel would. */
    method DrawFastHLine(x: int16, y: int16, w: int16, color: int)
      requires Valid() && IsColor(color) && HLineFits(rotation, x, y, w)
      modifies buffer
      ensures buffer[..] == SlowHLine(old(buffer[..]), rotation, x, y, w, color)
    {
      ghost var before := buffer[..];
      var bSwap := false;
      var px: int16, py: int16 := x, y;
      match rotation {
        case 1 =>
          bSwap := true;
          px, py := py, px;
          px := WIDTH - px - 1;
        case 2 =>
          px := WIDTH - px - 1;
          py := HEIGHT - py - 1;
          px := px - (w - 1);
        case 3 =>
          bSwap := true;
          px, py := py, px;
          py := HEIGHT - py - 1;
          py := py - (w - 1);
        case _ =>
      }
      if bSwap {
        DrawFastVLineInternal(px, py, w, color);
      } else {
        DrawFastHLineInternal(px, py, w, color);
      }
      SlowHLinePaints(before, rotation, x, y, w, color);
      SameBox(before, buffer[..], SlowHLine(before, rotation, x, y, w, color), BoxOfHLine(rotation, x, y, w), color);
    }

    /** A vertical line, drawn eight rows at a time; it leaves the frame as drawing each pixel would. */
    method DrawFastVLine(x: int16, y: int16, h: int16, color: int)
      requires Valid() && IsColor(color) && VLineFits(rotation, x, y, h)
      modifies buffer
      ensures buffer[..] == SlowVLine(old(buffer[..]), rotation, x, y, h, color)
    {
      ghost var before := buffer[..];
      var bSwap := false;
      var px: int16, py: int16 := x, y;
      match rotation {
        case 1 =>
          bSwap := true;
          px, py := py, px;
          px := WIDTH - px - 1;
          px := px - (h - 1);
        case 2 =>
          px := WIDTH - px - 1;
          py := HEIGHT - py - 1;
          py := py - (h - 1);
        case 3 =>
          bSwap := true;
          px, py := py, px;
          py := HEIGHT - py - 1;
        case _ =>
      }
      if bSwap {
        DrawFastHLineInternal(px, py, h, color);
      } else {
        DrawFastVLineInternal(px, py, h, color);
      }
      SlowVLinePaints(before, rotation, x, y, h, color);
      SameBox(before, buffer[..], SlowVLine(before, rotation, x, y, h, color), BoxOfVLine(rotation, x, y, h), color);
    }

    method DrawFastHLineInternal(x: int16, y: int16, w: int16, color: int)
      requires Valid() && IsColor(color) && Int16(x + w)
      modifies buffer
      ensures PaintedBox(old(buffer[..]), buffer[..], Box(x, y, w, 1), color)
    {
      hide Bit, Lit, Mask, Paint;
      if y < 0 || y >= HEIGHT {
        return;
      }
      var px, pw := x, w;
      if px < 0 {
        pw := pw + px;
        px := 0;
      }
      if px + pw > WIDTH {
        pw := WIDTH - px;
      }
      if pw <= 0 {
        return;
      }
      var pBuf := (y / 8) * WIDTH + px;
      var mask := Mask(y % 8);
      var n := 0;
      while n < pw
        invariant 0 <= n <= pw
        invariant PaintedBox(old(buffer[..]), buffer[..], Box(px, y, n, 1), color)
      {
        PaintNextColumn(old(buffer[..]), buffer[..], px, y, n, color);
        ApplyMask(pBuf + n, mask, color);
        n := n + 1;
      }
    }

    method DrawFastVLineInternal(x: int16, y: int16, h: int16, color: int)
      requires Valid() && IsColor(color) && Int16(y + h)
      modifies buffer
      ensures PaintedBox(old(buffer[..]), buffer[..], Box(x, y, 1, h), color)
    {
      hide Bit, Lit, Mask, Paint;
      if x < 0 || x >= WIDTH {
        return;
      }
      var py, ph := y, h;
      if py < 0 {
        ph := ph + py;
        py := 0;
      }
      if py + ph > HEIGHT {
        ph := HEIGHT - py;
      }
      if ph <= 0 {
        return;
      }
      var left: byte := ph;
      var row := py / 8;
      ghost var done := py;
      var mod := py % 8;
      if mod != 0 {
        mod := 8 - mod;
        StoreFirst(old(buffer[..]), x, py, left, mod, color);
        if left < mod {
          return;
        }
        left := left - mod;
        row := row + 1;
        done := py + mod;
      }
      while left >= 8
        invariant done == 8 * row && done + left == py + ph
        invariant PaintedBox(old(buffer[..]), buffer[..], Box(x, py, 1, done - py), color)
      {
        StoreByte(old(buffer[..]), x, row, py, color);
        left := left - 8;
        row := row + 1;
        done := done + 8;
      }
      if left != 0 {
        StoreLast(old(buffer[..]), x, row, py, left, color);
      }
    }

    /** The first partial byte: rows from `y` to the end of its byte, or `h` rows if that is fewer. */
    method StoreFirst(ghost f: Frame, x: int, y: int, h: int, mod: int, color: int)
      requires Valid() && IsColor(color) && OnScreen(x, y) && 0 < h && 0 < mod == 8 - y % 8 < 8
      requires f == buffer[..]
      modifies buffer
      ensures PaintedBox(f, buffer[..], Box(x, y, 1, Min(h, mod)), color)
    {
      hide Bit, Lit, Mask, Paint;
      var mask := PREMASK[mod];
      if h < mod {
        mask := mask & (0xFF >> (mod - h));
      }
      assert mask == FirstMask(mod, h);
      forall j | 0 <= j < 8 ensures Bit(mask, j) <==> y <= 8 * (y / 8) + j < y + Min(h, mod) {
        FirstMaskBits(mod, h, j);
      }
      PaintNextByte(f, buffer[..], x, y / 8, y, y, y + Min(h, mod), mask, color);
      ApplyMask(x + (y / 8) * WIDTH, mask, color);
    }

    /** The last partial byte: its `h` topmost rows. */
    method StoreLast(ghost f: Frame, x: int, row: int, ghost top: int, h: int, color: int)
      requires Valid() && IsColor(color) && 0 <= x < WIDTH && 0 <= row < 8 && top <= 8 * row && 0 < h < 8
      requires PaintedBox(f, buffer[..], Box(x, top, 1, 8 * row - top), color)
      modifies buffer
      ensures PaintedBox(f, buffer[..], Box(x, top, 1, 8 * row + h - top), color)
    {
      hide Bit, Lit, Mask, Paint;
      var mod := h % 8;
      forall j | 0 <= j < 8 ensures Bit(POSTMASK[mod], j) <==> j < h { PremaskBits(mod, j); }
      PaintNextByte(f, buffer[..], x, row, top, 8 * row, 8 * row + h, POSTMASK[mod], color);
      ApplyMask(x + row * WIDTH, POSTMASK[mod], color);
    }

    /** A whole byte: inverted, or overwritten with the colour. */
    method StoreByte(ghost f: Frame, x: int, row: int, ghost top: int, color: int)
      requires Valid() && IsColor(color) && 0 <= x < WIDTH && 0 <= row < 8 && top <= 8 * row
      requires PaintedBox(f, buffer[..], Box(x, top, 1, 8 * row - top), color)
      modifies buffer
      ensures PaintedBox(f, buffer[..], Box(x, top, 1, 8 * row + 8 - top), color)
    {
      hide Bit, Lit, Mask, Paint;
      var k := x + row * WIDTH;
      forall j | 0 <= j < 8 ensures Bit(0xFF, j) { WholeByte(buffer[k], j); }
      WholeByte(buffer[k], 0);
      PaintNextByte(f, buffer[..], x, row, top, 8 * row, 8 * row + 8, 0xFF, color);
      buffer[k] := if color == INVERSE then !buffer[k] else if color == WHITE then 255 else 0;
    }
  }

  // ---------- lines on the logical screen ----------

  /** In any rotation, a horizontal line changes exactly the on-screen pixels of its row from x to x + w - 1. */
  lemma HLinePixels(f: Frame, rotation: int, x: int, y: int, w: int, color: int, lx: int, ly: int)
    requires 0 <= rotation < 4 && 0 <= lx < Width(rotation) && 0 <= ly < Height(rotation)
    ensures var (px, py) := Physical(rotation, lx, ly);
            var g := SlowHLine(f, rotation, x, y, w, color);
            OnScreen(px, py) && Lit(g, px, py) == Painted(Lit(f, px, py), ly == y && x <= lx < x + w, color)
  {
    SlowHLinePaints(f, rotation, x, y, w, color);
    hide Lit, SlowHLine;
  }

  /** And a vertical one those of its column from y to y + h - 1. */
  lemma VLinePixels(f: Frame, rotation: int, x: int, y: int, h: int, color: int, lx: int, ly: int)
    requires 0 <= rotation < 4 && 0 <= lx < Width(rotation) && 0 <= ly < Height(rotation)
    ensures var (px, py) := Physical(rotation, lx, ly);
            var g := SlowVLine(f, rotation, x, y, h, color);
            OnScreen(px, py) && Lit(g, px, py) == Painted(Lit(f, px, py), lx == x && y <= ly < y + h, color)
  {
    SlowVLinePaints(f, rotation, x, y, h, color);
    hide Lit, SlowVLine;
  }

  // ---------- pixels in numbers ----------

  /** A pixel is one bit of one byte: 128 columns to a row of bytes, eight rows in a byte, the topmost in bit 0. */
  lemma PixelInNumbers(f: Frame, px: int, py: int, color: int, bit: bv8)
    requires 0 <= px < 128 && 0 <= py < 64 && bit == (1 as bv8) << (py % 8)
    ensures var k := px + 128 * (py / 8);
            OnScreen(px, py) && k < |f| && WithPixel(f, px, py, color) == f[k := Paint(f[k], bit, color)]
  {
    MaskIsShift(py % 8);
    hide Mask, Paint;
  }

  /** Colour 1 sets bits, 0 clears them, 2 inverts them; any other does nothing. */
  lemma ColoursInNumbers(b: bv8, bits: bv8, color: int)
    ensures Paint(b, bits, 1) == b | bits && Paint(b, bits, 0) == b & !bits && Paint(b, bits, 2) == b ^ bits
    ensures color !in {0, 1, 2} ==> Paint(b, bits, color) == b
  {
  }

  /** Reading it back: the pixel is lit if that bit is set. */
  lemma LitInNumbers(f: Frame, px: int, py: int)
    requires 0 <= px < 128 && 0 <= py < 64
    ensures Lit(f, px, py) <==> f[px + 128 * (py / 8)] & ((1 as bv8) << (py % 8)) != 0
  {
    MaskIsShift(py % 8);
    hide Mask;
  }

  /** The logical origin, and one step right and one down, in each rotation: a quarter turn further each time. */
  lemma RotationsTurn(x: int, y: int)
    ensures Physical(0, 0, 0) == (0, 0) && Physical(1, 0, 0) == (127, 0)
    ensures Physical(2, 0, 0) == (127, 63) && Physical(3, 0, 0) == (0, 63)
    ensures forall r :: 0 <= r < 4 ==>
              var (px, py) := Physical(r, x, y);
              && Physical(r, x + 1, y) == (if r == 0 then (px + 1, py) else if r == 1 then (px, py + 1)
                                           else if r == 2 then (px - 1, py) else (px, py - 1))
              && Physical(r, x, y + 1) == if r == 0 then (px, py + 1) else if r == 1 then (px - 1, py)
                                          else if r == 2 then (px, py - 1) else (px + 1, py)
  {
  }

  /** The screen is 128 wide and 64 high, or the other way round when turned by one quarter or three. */
  lemma ScreenInNumbers(rotation: int, x: int, y: int)
    requires 0 <= rotation < 4
    ensures var (px, py) := Physical(rotation, x, y);
            (0 <= px < 128 && 0 <= py < 64) <==>
            if rotation == 0 || rotation == 2 then 0 <= x < 128 && 0 <= y < 64 else 0 <= x < 64 && 0 <= y < 128
  {
  }
}
