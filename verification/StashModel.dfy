/**
  The state behind the Stash class and what each of its operations does to it, on values:
  the 56 scratch pages of the Ethernet chip, the write buffer `w` (bufs[0]), the read buffer
  `r` (bufs[1]), the set of free pages, and the handle a Stash object carries.
 */
module StashModel {
  import opened Machine

  const PAGES := 56
  const NO_PAGE: byte := 255
  const HEADER_SIZE := 3
  const TAIL := 62
  const NEXT := 63

  type Page = s: seq<byte> | |s| == 64 witness seq(64, _ => 0)
  function Blank(): Page {
    seq(64, _ => 0)
  }

  type Chip = c: seq<Page> | |c| == PAGES witness seq<Page>(PAGES, _ => Blank())

  datatype Buf = Buf(bytes: Page, bnum: byte)
  datatype Mem = Mem(free: set<int>, chip: Chip, w: Buf, r: Buf)
  datatype Handle = Handle(count: byte, first: byte, last: byte, curr: byte, offs: byte)

  // ---------- page store and buffers ----------

  function CopyOut(chip: Chip, page: byte, data: Page): Chip {
    if page < PAGES then chip[page := data] else chip
  }

  function CopyIn(chip: Chip, page: byte, data: Page): Page {
    if page < PAGES then chip[page] else data
  }

  function PeekIn(chip: Chip, page: byte, off: byte): byte
    requires off < 64
  {
    if page < PAGES then chip[page][off] else 0
  }

  /** Switch the write buffer to page `blk`, writing the old page back. */
  function Load0(m: Mem, blk: byte): Mem {
    if blk == m.w.bnum then m else
      var chip := CopyOut(m.chip, m.w.bnum, m.w.bytes);
      var r := if blk == m.r.bnum then m.r.(bnum := NO_PAGE) else m.r;
      Mem(m.free, chip, Buf(CopyIn(chip, blk, m.w.bytes), blk), r)
  }

  /** Switch the read buffer to page `blk`. */
  function Load1(m: Mem, blk: byte): Mem {
    if blk == m.r.bnum then m
    else if blk == m.w.bnum then m.(r := m.w)
    else m.(r := Buf(CopyIn(m.chip, blk, m.r.bytes), blk))
  }

  function FetchByte(m: Mem, blk: byte, off: byte): byte
    requires off < 64
  {
    if blk == m.w.bnum then m.w.bytes[off]
    else if blk == m.r.bnum then m.r.bytes[off]
    else PeekIn(m.chip, blk, off)
  }

  function Write(m: Mem, off: int, v: byte): Mem
    requires 0 <= off < 64
  {
    m.(w := m.w.(bytes := m.w.bytes[off := v]))
  }

  /** The page store a client relies on: the chip with the write buffer laid over it. */
  function Logical(m: Mem): Chip {
    CopyOut(m.chip, m.w.bnum, m.w.bytes)
  }

  // ---------- allocation ----------

  /** The least free page not below `p`, or 0 when there is none. */
  function LeastFrom(free: set<int>, p: nat): (r: byte)
    ensures r != 0 ==> r in free && r >= p && forall q :: p <= q < r ==> q !in free
    ensures r == 0 && 0 !in free ==> forall q :: p <= q < 256 ==> q !in free
    decreases free, 256 - p
  {
    if p >= 256 then 0 else if p in free then p else LeastFrom(free, p + 1)
  }

  function Alloc(m: Mem): (Mem, byte) {
    var b := LeastFrom(m.free, 0);
    (m.(free := m.free - {b}), b)
  }

  /** The pages `initMap(n)` frees. */
  function FirstPages(n: nat): (free: set<int>)
    ensures forall p :: p in free <==> 1 <= p < n
  {
    if n <= 1 then {} else FirstPages(n - 1) + {n - 1}
  }

  // ---------- stash operations ----------

  function Open(m: Mem, blk: byte): (Mem, Handle) {
    var m1 := Load1(m, blk);
    (m1, Handle(m1.r.bytes[0], m1.r.bytes[1], m1.r.bytes[2], blk, HEADER_SIZE))
  }

  function Create(m: Mem): (Mem, Handle) {
    var (m1, blk) := Alloc(m);
    var m2 := Load0(m1, blk);
    var m3 := Write(Write(Write(m2, 0, 0), 2, blk), 1, blk);
    Open(Write(Write(m3, TAIL, HEADER_SIZE), NEXT, 0), blk)
  }

  function Save(m: Mem, h: Handle): Mem {
    var m1 := Load0(m, h.first);
    var m2 := Write(Write(Write(m1, 0, h.count), 1, h.first), 2, h.last);
    if m2.r.bnum == h.first then Load1(m2, 0) else m2
  }

  function Put(m: Mem, h: Handle, c: byte): (Mem, Handle)
    requires Load0(m, h.last).w.bytes[TAIL] < 64
  {
    var m1 := Load0(m, h.last);
    var t := m1.w.bytes[TAIL];
    var m2 := Write(m1, t, c);
    if t + 1 <= TAIL then
      (Write(m2, TAIL, t + 1), h)
    else
      Extend(m2, h)
  }

  /** Links a new last page to the full page in the write buffer. */
  function Extend(m: Mem, h: Handle): (Mem, Handle) {
    var (m1, q) := Alloc(m);
    var m2 := Load0(Write(m1, NEXT, q), q);
    (Write(Write(m2, NEXT, 0), TAIL, 0), h.(count := (h.count + 1) % 256, last := q))
  }

  function Get(m: Mem, h: Handle): (Mem, Handle, byte)
    requires h.offs < 64
  {
    var m1 := Load1(m, h.curr);
    if h.curr == h.last && h.offs >= m1.r.bytes[TAIL] then
      (m1, h, 0)
    else
      var b := m1.r.bytes[h.offs];
      if h.offs + 1 >= NEXT && h.curr != h.last then
        (m1, h.(curr := m1.r.bytes[NEXT], offs := 0), b)
      else
        (m1, h.(offs := h.offs + 1), b)
  }

  function Size(m: Mem, h: Handle): word {
    (63 * h.count + FetchByte(m, h.last, TAIL) - HEADER_SIZE) % 0x1_0000
  }

  /** Freeing the pages of a chain, which is what following `next` on the chip amounts to. */
  function Release(m: Mem, pages: seq<int>): Mem {
    m.(free := m.free + PageSet(pages))
  }

  function PageSet(pages: seq<int>): set<int> {
    set p | p in pages
  }
}
