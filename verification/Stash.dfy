/**
  The Stash class on its real storage: the chip's memory, the bitmap of free pages and the two page
  buffers, all rewritten in place. Every method is tied to the value-level operation it performs.
 */
module Stash {
  import opened Bits
  import opened Machine
  import M = StashModel
  import Streams = StashStreams
  import Safety = StashSafety

  const SCRATCH_START := 0x1200
  const SCRATCH_LIMIT := 0x2000
  const SCRATCH_PAGE_SIZE := 64

  /** The scratch pages within the chip's memory. */
  ghost function PagesOf(memory: seq<byte>): M.Chip
    requires |memory| == SCRATCH_LIMIT
  {
    seq<M.Page>(M.PAGES, p requires 0 <= p < M.PAGES => PageOf(memory, p))
  }

  ghost function PageOf(memory: seq<byte>, p: int): M.Page
    requires |memory| == SCRATCH_LIMIT && 0 <= p < M.PAGES
  {
    memory[SCRATCH_START + 64 * p..SCRATCH_START + 64 * p + 64]
  }

  /** The pages whose bit is set in the bitmap. */
  ghost function FreePages(bits: seq<bv8>): set<int>
    requires |bits| == 32
  {
    set p | 0 <= p < 256 && Bit(bits[p / 8], p % 8)
  }

  /** The storage all stashes share: the class's static members and the chip behind them. */
  class Store {
    const chip: array<byte>
    const freeMap: array<bv8>
    const buf0: array<byte>
    const buf1: array<byte>
    var bnum0: byte
    var bnum1: byte

    ghost function Footprint(): set<object> {
      {this, chip, freeMap, buf0, buf1}
    }

    ghost predicate Valid() {
      && chip.Length == SCRATCH_LIMIT && freeMap.Length == 32
      && buf0.Length == 64 && buf1.Length == 64
      && chip != buf0 && chip != buf1 && buf0 != buf1
    }

    ghost function View(): M.Mem
      requires Valid()
      reads Footprint()
    {
      M.Mem(FreePages(freeMap[..]), PagesOf(chip[..]), M.Buf(buf0[..], bnum0), M.Buf(buf1[..], bnum1))
    }

    /** The chip's memory below the scratch pages, which holds packets. */
    ghost function Elsewhere(): seq<byte>
      requires Valid()
      reads chip
    {
      chip[..0x1200]
    }

    /** Static storage at start-up: an empty bitmap and two zeroed buffers, then `initMap(56)`. */
    constructor ()
      ensures Valid() && fresh(Footprint())
      ensures View().free == M.FirstPages(M.PAGES)
      ensures View().w == M.Buf(M.Blank(), 0) == View().r
    {
      chip := new byte[SCRATCH_LIMIT];
      freeMap := new bv8[32](_ => 0);
      buf0 := new byte[64](_ => 0);
      buf1 := new byte[64](_ => 0);
      bnum0, bnum1 := 0, 0;
      new;
      StartUp();
    }

    /** What the library does at start-up with zeroed storage: `initMap(56)`. */
    method StartUp()
      requires Valid() && Zeroed() && bnum0 == bnum1 == 0
      modifies freeMap
      ensures View().free == M.FirstPages(M.PAGES) && forall p :: p in View().free <==> 1 <= p <= 55
      ensures View().w == M.Buf(M.Blank(), 0) == View().r
    {
      hide FreePages, PagesOf, M.FirstPages, M.Blank;
      AllZero(buf0[..]);
      AllZero(buf1[..]);
      NoFreePages(freeMap[..]);
      InitMap(M.PAGES);
    }

    ghost predicate Zeroed()
      requires Valid()
      reads Footprint()
    {
      && (forall i :: 0 <= i < 32 ==> freeMap[i] == 0)
      && (forall i :: 0 <= i < 64 ==> buf0[i] == 0 && buf1[i] == 0)
    }

    method CopyOut(page: byte, data: array<byte>)
      requires Valid() && data.Length == 64 && data != chip
      modifies chip
      ensures PagesOf(chip[..]) == M.CopyOut(old(PagesOf(chip[..])), page, data[..])
      ensures forall i :: 0 <= i < chip.Length ==>
                var at := 0x1200 + 64 * page;
                chip[i] == if page < 56 && at <= i < at + 64 then data[i - at] else old(chip[i])
    {
      var destPos := SCRATCH_START + page * 64;
      if destPos < SCRATCH_START || destPos > SCRATCH_LIMIT - SCRATCH_PAGE_SIZE {
        return;
      }
      for i := 0 to SCRATCH_PAGE_SIZE
        invariant forall j :: 0 <= j < chip.Length ==>
                    chip[j] == if destPos <= j < destPos + i then data[j - destPos] else old(chip[j])
      {
        chip[destPos + i] := data[i];
      }
      forall p | 0 <= p < M.PAGES
        ensures PageOf(chip[..], p) == if p == page then data[..] else PageOf(old(chip[..]), p)
      {
      }
    }

    method CopyIn(page: byte, data: array<byte>)
      requires Valid() && data.Length == 64 && data != chip
      modifies data
      ensures data[..] == M.CopyIn(PagesOf(chip[..]), page, old(data[..]))
      ensures page < 56 ==> data[..] == chip[0x1200 + 64 * page..0x1240 + 64 * page]
      ensures page >= 56 ==> data[..] == old(data[..])
    {
      var destPos := SCRATCH_START + page * 64;
      if destPos < SCRATCH_START || destPos > SCRATCH_LIMIT - SCRATCH_PAGE_SIZE {
        return;
      }
      for i := 0 to SCRATCH_PAGE_SIZE
        invariant data[..i] == chip[destPos..destPos + i]
      {
        data[i] := chip[destPos + i];
      }
      assert data[..] == PageOf(chip[..], page);
    }

    method PeekIn(page: byte, off: byte) returns (result: byte)
      requires Valid() && off < 64
      ensures result == M.PeekIn(PagesOf(chip[..]), page, off)
      ensures result == if page < 56 then chip[0x1200 + 64 * page + off] else 0
    {
      result := 0;
      var destPos := SCRATCH_START + page * 64 + off;
      if SCRATCH_START <= destPos && destPos < SCRATCH_LIMIT {
        result := chip[destPos];
        assert result == PageOf(chip[..], page)[off];
      }
    }

    method AllocBlock() returns (block: byte)
      requires Valid()
      modifies freeMap
      ensures (View(), block) == M.Alloc(old(View()))
    {
      hide Bit, Mask, Has, OneBit, FreePages;
      ghost var before := FreePages(freeMap[..]);
      for i := 0 to 32
        invariant freeMap[..] == old(freeMap[..])
        invariant forall p :: 0 <= p < 8 * i ==> p !in before
      {
        if freeMap[i] != 0 {
          for j := 0 to 8
            invariant freeMap[..] == old(freeMap[..])
            invariant forall p :: 0 <= p < 8 * i + j ==> p !in before
          {
            BitIsPage(freeMap[..], i, j);
            if Bit(freeMap[i], j) {
              freeMap[i] := freeMap[i] & !Mask(j);
              BitCleared(old(freeMap[..]), 8 * i + j);
              LeastIs(before, 8 * i + j);
              return 8 * i + j;
            }
          }
        } else {
          forall p | 8 * i <= p < 8 * i + 8 ensures p !in before {
            ZeroByte(p - 8 * i);
            BitIsPage(freeMap[..], i, p - 8 * i);
          }
        }
      }
      NoneFree(before, 0);
      assert before - {0} == before;
      return 0;
    }

    method FreeBlock(block: byte)
      requires Valid()
      modifies freeMap
      ensures View() == old(View()).(free := old(View()).free + {block as int})
    {
      freeMap[block / 8] := freeMap[block / 8] | Mask(block % 8);
      BitWasSet(old(freeMap[..]), block);
    }

    method InitMap(last: byte)
      requires Valid() && last >= 1
      modifies freeMap
      ensures View() == old(View()).(free := old(View()).free + M.FirstPages(last))
    {
      var p := last - 1;
      while p > 0
        invariant 0 <= p < last
        invariant View() == old(View()).(free := old(View()).free + (M.FirstPages(last) - M.FirstPages(p + 1)))
      {
        FreeBlock(p);
        p := p - 1;
      }
    }

    method Load(idx: byte, blk: byte)
      requires Valid() && idx < 2
      modifies chip, buf0, buf1, `bnum0, `bnum1
      ensures View() == if idx == 0 then M.Load0(old(View()), blk) else M.Load1(old(View()), blk)
      ensures Elsewhere() == old(Elsewhere())
      ensures idx == 0 && blk != old(bnum0) && blk == old(bnum1) ==> bnum1 == 255
    {
      if idx == 0 {
        if blk != bnum0 {
          CopyOut(bnum0, buf0);
          if blk == bnum1 {
            bnum1 := M.NO_PAGE;
          }
          bnum0 := blk;
          CopyIn(bnum0, buf0);
        }
      } else if blk != bnum1 {
        if blk == bnum0 {
          forall i | 0 <= i < 64 {
            buf1[i] := buf0[i];
          }
          bnum1 := bnum0;
          assert buf1[..] == buf0[..] && buf0[..] == old(buf0[..]) && chip[..] == old(chip[..]);
          return;
        }
        bnum1 := blk;
        CopyIn(bnum1, buf1);
      }
    }

    method FetchByte(blk: byte, off: byte) returns (b: byte)
      requires Valid() && off < 64
      ensures b == M.FetchByte(View(), blk, off)
    {
      if blk == bnum0 {
        b := buf0[off];
      } else if blk == bnum1 {
        b := buf1[off];
      } else {
        b := PeekIn(blk, off);
      }
    }

    method SetByte(off: byte, v: byte)
      requires Valid() && off < 64
      modifies buf0
      ensures View() == M.Write(old(View()), off, v)
    {
      buf0[off] := v;
    }
  }

  /** A Stash object: the header of its stream and a reading position. */
  class Stash {
    const store: Store
    var count: byte
    var first: byte
    var last: byte
    var curr: byte
    var offs: byte

    ghost function State(): M.Handle
      reads this
    {
      M.Handle(count, first, last, curr, offs)
    }

    constructor (store: Store)
      ensures this.store == store && first == 0 && curr == 0
    {
      this.store := store;
      first, curr := 0, 0;
      count, last, offs := 0, 0, 0;
    }

    method Create() returns (fd: byte)
      requires store.Valid()
      modifies this, store.Footprint()
      ensures (store.View(), State()) == M.Create(old(store.View()))
      ensures store.Elsewhere() == old(store.Elsewhere())
      ensures fd == State().curr
    {
      var blk := store.AllocBlock();
      store.Load(0, blk);
      store.SetByte(0, 0);
      store.SetByte(2, blk);
      store.SetByte(1, blk);
      store.SetByte(M.TAIL, M.HEADER_SIZE);
      store.SetByte(M.NEXT, 0);
      fd := Open(blk);
    }

    method Open(blk: byte) returns (fd: byte)
      requires store.Valid()
      modifies this, store.Footprint()
      ensures (store.View(), State()) == M.Open(old(store.View()), blk)
      ensures store.Elsewhere() == old(store.Elsewhere())
      ensures fd == blk
    {
      curr := blk;
      offs := M.HEADER_SIZE;
      store.Load(1, curr);
      count, first, last := store.buf1[0], store.buf1[1], store.buf1[2];
      return curr;
    }

    method Save()
      requires store.Valid()
      modifies store.Footprint()
      ensures store.View() == M.Save(old(store.View()), State())
      ensures store.Elsewhere() == old(store.Elsewhere())
    {
      store.Load(0, first);
      store.SetByte(0, count);
      store.SetByte(1, first);
      store.SetByte(2, last);
      if store.bnum1 == first {
        store.Load(1, 0);
      }
    }

    /** Frees the pages the chip links from `first`; `pages` names them. */
    method Release(ghost pages: seq<Safety.PageNo>)
      requires store.Valid()
      requires Streams.LinkedOnChip(store.View().chip, pages) && first == pages[0]
      modifies `first, store.freeMap
      ensures store.View() == M.Release(old(store.View()), pages)
      ensures first == 0
    {
      ghost var i := 0;
      hide FreePages, PagesOf, M.PageSet;
      ReleaseNone(store.View());
      while first > 0
        invariant 0 <= i <= |pages|
        invariant first == if i < |pages| then pages[i] else 0
        invariant store.View() == M.Release(old(store.View()), pages[..i])
        decreases |pages| - i
      {
        store.FreeBlock(first);
        first := store.PeekIn(first, M.NEXT);
        ReleaseOneMore(old(store.View()), pages, i);
        i := i + 1;
      }
      assert pages[..i] == pages;
    }

    method Put(c: byte)
      requires store.Valid()
      requires M.Load0(store.View(), last).w.bytes[M.TAIL] < 64
      modifies this, store.Footprint()
      ensures (store.View(), State()) == M.Put(old(store.View()), old(State()), c)
      ensures store.Elsewhere() == old(store.Elsewhere())
    {
      hide M.Load0, M.Extend, M.Write, FreePages, PagesOf;
      store.Load(0, last);
      var t := store.buf0[M.TAIL];
      store.SetByte(t, c);
      t := t + 1;
      if t <= M.TAIL {
        store.SetByte(M.TAIL, t);
      } else {
        Extend();
      }
    }

    /** The second half of put: a new page behind the full one in the write buffer. */
    method Extend()
      requires store.Valid()
      modifies this, store.Footprint()
      ensures (store.View(), State()) == M.Extend(old(store.View()), old(State()))
      ensures store.Elsewhere() == old(store.Elsewhere())
    {
      hide M.Load0, M.Alloc, M.Write, FreePages, PagesOf;
      var next := store.AllocBlock();
      store.SetByte(M.NEXT, next);
      last := next;
      store.Load(0, last);
      store.SetByte(M.NEXT, 0);
      store.SetByte(M.TAIL, 0);
      count := (count + 1) % 256;
    }

    method Get() returns (b: byte)
      requires store.Valid() && offs < 64
      modifies this, store.Footprint()
      ensures (store.View(), State(), b) == M.Get(old(store.View()), old(State()))
      ensures store.Elsewhere() == old(store.Elsewhere())
    {
      store.Load(1, curr);
      if curr == last && offs >= store.buf1[M.TAIL] {
        return 0;
      }
      b := store.buf1[offs];
      offs := offs + 1;
      if offs >= M.NEXT && curr != last {
        curr := store.buf1[M.NEXT];
        offs := 0;
      }
    }

    method Size() returns (n: word)
      requires store.Valid()
      ensures n == M.Size(store.View(), State())
    {
      var tail := store.FetchByte(last, M.TAIL);
      n := (63 * count + tail - M.HEADER_SIZE) % 0x1_0000;
    }
  }

  lemma ReleaseNone(m: M.Mem)
    ensures forall pages: seq<int> :: M.Release(m, pages[..0]) == m
  {
    assert forall pages: seq<int> :: m.free + M.PageSet(pages[..0]) == m.free;
  }

  lemma ReleaseOneMore(m: M.Mem, pages: seq<int>, i: nat)
    requires i < |pages|
    ensures var before := M.Release(m, pages[..i]);
            M.Release(m, pages[..i + 1]) == before.(free := before.free + {pages[i]})
  {
    assert pages[..i + 1] == pages[..i] + [pages[i]];
  }

  lemma AllZero(bytes: seq<byte>)
    requires |bytes| == 64 && forall i :: 0 <= i < 64 ==> bytes[i] == 0
    ensures bytes == M.Blank()
  {
  }

  lemma BitIsPage(bits: seq<bv8>, i: nat, j: nat)
    requires i < |bits| == 32 && j < 8
    ensures (8 * i + j) / 8 == i && (8 * i + j) % 8 == j
    ensures 8 * i + j in FreePages(bits) <==> Bit(bits[i], j)
  {
    hide Bit;
    assert (8 * i + j) / 8 == i && (8 * i + j) % 8 == j;
  }

  lemma NoFreePages(bits: seq<bv8>)
    requires |bits| == 32 && forall i :: 0 <= i < 32 ==> bits[i] == 0
    ensures FreePages(bits) == {}
  {
    hide Bit, Mask, Has, OneBit;
    forall j | 0 <= j < 8 ensures !Bit(0, j) { ZeroByte(j); }
  }

  lemma BitCleared(bits: seq<bv8>, p: byte)
    requires |bits| == 32
    ensures FreePages(bits[p / 8 := bits[p / 8] & !Mask(p % 8)]) == FreePages(bits) - {p as int}
  {
    hide Bit, Mask, Has, OneBit;
    var bits' := bits[p / 8 := bits[p / 8] & !Mask(p % 8)];
    forall q | 0 <= q < 256 ensures Bit(bits'[q / 8], q % 8) == (Bit(bits[q / 8], q % 8) && q != p) {
      MaskedBits(bits[q / 8], Mask(p % 8), q % 8);
      MaskBits(p % 8, q % 8);
    }
  }

  lemma BitWasSet(bits: seq<bv8>, p: byte)
    requires |bits| == 32
    ensures FreePages(bits[p / 8 := bits[p / 8] | Mask(p % 8)]) == FreePages(bits) + {p as int}
  {
    hide Bit, Mask, Has, OneBit;
    var bits' := bits[p / 8 := bits[p / 8] | Mask(p % 8)];
    forall q | 0 <= q < 256 ensures Bit(bits'[q / 8], q % 8) == (Bit(bits[q / 8], q % 8) || q == p) {
      MaskedBits(bits[q / 8], Mask(p % 8), q % 8);
      MaskBits(p % 8, q % 8);
    }
  }

  lemma {:induction false} LeastIs(free: set<int>, p: byte, from: nat := 0)
    requires p in free && from <= p && forall q :: from <= q < p ==> q !in free
    ensures M.LeastFrom(free, from) == p
    decreases p - from
  {
    if from < p {
      LeastIs(free, p, from + 1);
    }
  }

  lemma {:induction false} NoneFree(free: set<int>, from: nat)
    requires forall q :: from <= q < 256 ==> q !in free
    ensures M.LeastFrom(free, from) == 0
    decreases 256 - from
  {
    if from < 256 {
      NoneFree(free, from + 1);
    }
  }
}
