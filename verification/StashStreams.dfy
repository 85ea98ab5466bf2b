/**
  Saving, reading back, sizing and releasing stashes: what `get` returns, and that none of these
  operations disturbs any other stash.
 */
module StashStreams {
  import opened Machine
  import opened StashModel
  import opened StashSafety

  // ---------- layout ----------

  /**
    Where a live stash keeps what, in numbers. Byte n is byte n + 3 of its pages, 63 to a page; byte 63 of each
    page is the number of the next, 0 in the last; byte 62 of the last counts its bytes; and once saved, the first
    three bytes are the number of further pages, the first page and the last.
   */
  lemma StashInBytes(s: Sys, k: byte)
    requires Inv(s) && k in s.live
    ensures var c, v := Logical(s.m), s.live[k];
            var last := |v.pages| - 1;
            && last >= 0 && v.pages[0] == k
            && (forall n :: 0 <= n < |v.data| ==>
                  (n + 3) / 63 <= last && v.data[n] == c[v.pages[(n + 3) / 63]][(n + 3) % 63])
            && (forall i :: 0 <= i < last ==> c[v.pages[i]][63] == v.pages[i + 1]) && c[v.pages[last]][63] == 0
            && 63 * last + c[v.pages[last]][62] == |v.data| + 3
            && (v.saved ==> c[k][0] == last && c[k][1] == k && c[k][2] == v.pages[last])
  {
    hide Logical, Partition, ReadOk;
  }

  // ---------- save ----------

  /** A chain of distinct pages never outgrows the 55 pages there are, so `count` never wraps. */
  lemma ChainIsShort(pages: seq<PageNo>)
    requires forall i, j :: 0 <= i < j < |pages| ==> pages[i] != pages[j]
    ensures |pages| <= PAGES - 1
  {
    Pigeonhole(pages, PAGES);
  }

  lemma {:induction false} Pigeonhole(pages: seq<int>, n: nat)
    requires n >= 1 && forall i :: 0 <= i < |pages| ==> 1 <= pages[i] < n
    requires forall i, j :: 0 <= i < j < |pages| ==> pages[i] != pages[j]
    ensures |pages| <= n - 1
  {
    if |pages| == 0 {
    } else if i :| 0 <= i < |pages| && pages[i] == n - 1 {
      assert 1 <= pages[0] < n;
      Pigeonhole(pages[..i] + pages[i + 1..], n - 1);
    } else {
      assert 1 <= pages[0] < n;
      Pigeonhole(pages, n - 1);
    }
  }

  lemma SaveLogical(m: Mem, h: Handle)
    requires m.w.bnum < PAGES && 1 <= h.first < PAGES
    ensures var p := Logical(m)[h.first];
            var m' := Save(m, h);
            && m'.free == m.free && m'.w.bnum == h.first
            && (Forgot(m'.r, m.r) || m'.r.bnum == 0) && m'.r.bnum != h.first
            && Logical(m') == Logical(m)[h.first := p[0 := h.count][1 := h.first][2 := h.last]]
  {
  }

  lemma ChainSaved(c: Chip, k: byte, v: Live)
    requires LiveOk(c, k, v) && |v.pages| <= PAGES
    ensures LiveOk(c[k := c[k][0 := |v.pages| - 1][1 := k][2 := Last(v.pages)]], k, v.(saved := true))
  {
    var c' := c[k := c[k][0 := |v.pages| - 1][1 := k][2 := Last(v.pages)]];
    forall i, o | 0 <= i < |v.pages| && 3 <= o < 64 ensures c'[v.pages[i]][o] == c[v.pages[i]][o] {}
    assert Chained(c', v.pages);
    forall j | 0 <= j < |v.data|
      ensures c'[v.pages[(j + 3) / 63]][(j + 3) % 63] == v.data[j]
    {
      assert v.data[j] == c[v.pages[(j + 3) / 63]][(j + 3) % 63];
      if (j + 3) / 63 > 0 {
        assert v.pages[(j + 3) / 63] != v.pages[0];
      }
    }
  }

  /** Saving leaves the bytes of every stash alone and makes this one safe to open. */
  lemma SaveKeepsInv(s: Sys, k: byte)
    requires Inv(s) && k in s.live && !s.live[k].saved
    ensures Inv(Sys(Save(s.m, WriterHandle(s.live[k])), s.live[k := s.live[k].(saved := true)]))
  {
    var v := s.live[k];
    ChainIsShort(v.pages);
    SaveLogical(s.m, WriterHandle(v));
    SavedKeepsInv(s, k, Save(s.m, WriterHandle(v)));
  }

  lemma SavedKeepsInv(s: Sys, k: byte, m': Mem)
    requires Inv(s) && k in s.live && !s.live[k].saved
    requires |s.live[k].pages| <= PAGES
    requires m'.free == s.m.free && m'.w.bnum == k
    requires (Forgot(m'.r, s.m.r) || m'.r.bnum == 0) && m'.r.bnum != k
    requires var c := Logical(s.m);
             Logical(m') == c[k := c[k][0 := |s.live[k].pages| - 1][1 := k][2 := Last(s.live[k].pages)]]
    ensures Inv(Sys(m', s.live[k := s.live[k].(saved := true)]))
  {
    var v := s.live[k];
    var v' := v.(saved := true);
    ChainSaved(Logical(s.m), k, v);
    PartitionSame(s.m.free, s.live, k, v');
    assert v.pages[0] in v.pages;
    assert v.pages == [v.pages[0]] + v.pages[1..];
    UpdateKeepsInv(s, m', k, v', {k as int});
  }

  // ---------- open and get ----------

  /** The reading handle of a stash after `pos` of its bytes. */
  function CursorAt(v: Live, pos: nat): Handle
    requires 0 < |v.pages| <= 256 && pos <= |v.data|
  {
    var i := (pos + HEADER_SIZE) / 63;
    Handle(|v.pages| - 1, v.pages[0], Last(v.pages), if i < |v.pages| then v.pages[i] else 0, (pos + HEADER_SIZE) % 63)
  }

  /** Loading a page of a saved stash for reading yields its logical bytes and disturbs nothing. */
  lemma LoadForReading(s: Sys, k: byte, p: PageNo)
    requires Inv(s) && k in s.live && s.live[k].saved && p in s.live[k].pages
    ensures Load1(s.m, p) == s.m.(r := Buf(Logical(s.m)[p], p))
    ensures Inv(Sys(Load1(s.m, p), s.live))
  {
    var m := Load1(s.m, p);
    assert Logical(m) == Logical(s.m);
    forall l | l in s.live
      ensures ReadOk(m, s.live[l])
    {
      if l != k {
        Apart(s.m.free, s.live, k, l);
      }
    }
  }

  /** Opening a saved stash gives the handle at its first byte. */
  lemma OpenReads(s: Sys, k: byte)
    requires Inv(s) && k in s.live && s.live[k].saved
    ensures |s.live[k].pages| < PAGES
    ensures var (m, h) := Open(s.m, k);
            && m == s.m.(r := m.r) && Inv(Sys(m, s.live))
            && h == CursorAt(s.live[k], 0)
  {
    ChainIsShort(s.live[k].pages);
    assert s.live[k].pages[0] == k;
    LoadForReading(s, k, k);
    Position(Logical(s.m), s.live[k], k);
  }

  /** Each get returns the next byte of the stash, and 0 for ever once the bytes are used up. */
  lemma GetReads(s: Sys, k: byte, pos: nat)
    requires Inv(s) && k in s.live && s.live[k].saved && |s.live[k].pages| < PAGES
    requires pos <= |s.live[k].data|
    ensures var v := s.live[k];
            var (m, h, b) := Get(s.m, CursorAt(v, pos));
            && m == s.m.(r := m.r) && Inv(Sys(m, s.live))
            && b == (if pos < |v.data| then v.data[pos] else 0)
            && h == CursorAt(v, if pos < |v.data| then pos + 1 else pos)
  {
    var v := s.live[k];
    Position(Logical(s.m), v, k);
    LoadForReading(s, k, CursorAt(v, pos).curr);
    StepCursor(Logical(s.m), k, v, pos);
  }

  /** How a cursor relates to the chain it walks. */
  lemma StepCursor(c: Chip, k: byte, v: Live, pos: nat)
    requires LiveOk(c, k, v) && |v.pages| <= 256 && pos <= |v.data|
    ensures var h := CursorAt(v, pos);
            && h.curr in v.pages
            && ((h.curr == h.last && h.offs >= c[h.curr][TAIL]) <==> pos == |v.data|)
            && (pos < |v.data| ==>
                  && v.data[pos] == c[h.curr][h.offs]
                  && CursorAt(v, pos + 1) ==
                     if h.offs + 1 >= NEXT && h.curr != h.last then h.(curr := c[h.curr][NEXT], offs := 0)
                     else h.(offs := h.offs + 1))
  {
    Position(c, v, k);
    var i := (pos + HEADER_SIZE) / 63;
    assert v.pages[i] == Last(v.pages) ==> i == |v.pages| - 1;
  }

  // ---------- size ----------

  /**
    A stash whose first page sits in the read buffer as `create` left it, while its puts went through
    the write buffer, which has since moved on.
   */
  ghost predicate Outdated(m: Mem, k: byte, v: Live) {
    !v.saved && |v.pages| == 1 && m.w.bnum != k && m.r.bnum == k
  }

  lemma OutdatedHasOnePage(m: Mem, k: byte, v: Live)
    ensures Outdated(m, k, v) ==> |v.pages| == 1
  {
  }

  /** `fetchByte(last, 62)`, the only fetch there is, reads an outdated tail exactly when bytes have been put. */
  lemma FetchReadsLogical(s: Sys, k: byte)
    requires Inv(s) && k in s.live
    ensures var v := s.live[k];
            var fetched := FetchByte(s.m, Last(v.pages), TAIL);
            && (fetched == Logical(s.m)[Last(v.pages)][TAIL] <==> !Outdated(s.m, k, v) || v.data == [])
            && (Outdated(s.m, k, v) ==> fetched == HEADER_SIZE)
  {
    var v := s.live[k];
    assert v.pages[|v.pages| - 1] in v.pages;
    if |v.pages| > 1 {
      assert v.pages[1..][|v.pages| - 2] == Last(v.pages);
    }
  }

  /** The size of a stash, saved or not, is the number of its bytes unless it is outdated; then it is 0. */
  lemma SizeCounts(s: Sys, k: byte, h: Handle)
    requires Inv(s) && k in s.live
    requires h.count == (|s.live[k].pages| - 1) % 256 && h.last == Last(s.live[k].pages)
    ensures Size(s.m, h) == |s.live[k].data| <==> !Outdated(s.m, k, s.live[k]) || s.live[k].data == []
    ensures Outdated(s.m, k, s.live[k]) ==> Size(s.m, h) == 0
  {
    hide Logical, FetchByte, ReadOk, Partition, Outdated;
    var v := s.live[k];
    ChainIsShort(v.pages);
    FetchReadsLogical(s, k);
    SizeArithmetic(Logical(s.m), k, v);
    OutdatedHasOnePage(s.m, k, v);
  }

  lemma SizeArithmetic(c: Chip, k: byte, v: Live)
    requires LiveOk(c, k, v) && |v.pages| < PAGES
    ensures (63 * (|v.pages| - 1) + c[Last(v.pages)][TAIL] - HEADER_SIZE) % 0x1_0000 == |v.data|
    ensures |v.pages| == 1 ==> |v.data| == c[Last(v.pages)][TAIL] - HEADER_SIZE
  {
  }

  /** An outdated stash is two calls away: create, put a byte, and move the write buffer; its size is 0. */
  lemma UnsavedSizeIsLost(s: Sys, b: byte)
    requires Inv(s) && s.m.free != {}
    ensures var (m1, h1) := Create(s.m);
            && Load0(m1, h1.last).w.bytes[TAIL] < 64
            && var (m2, h2) := Put(m1, h1, b);
            Size(m2, h2) == 1 && Size(Load0(m2, 0), h2) == 0
  {
    CreateLogical(s.m);
    AllocFree(s.m);
  }

  // ---------- release ----------

  /** The links `release` follows: it reads them from the chip, past any unwritten page in the write buffer. */
  ghost predicate LinkedOnChip(c: Chip, pages: seq<PageNo>) {
    && |pages| > 0
    && (forall i :: 0 <= i < |pages| - 1 ==> c[pages[i]][NEXT] == pages[i + 1])
    && c[Last(pages)][NEXT] == 0
  }

  /** With none of its pages in the write buffer, releasing a stash frees exactly its chain. */
  lemma ReleaseKeepsInv(s: Sys, k: byte)
    requires Inv(s) && k in s.live && s.m.w.bnum !in s.live[k].pages
    ensures LinkedOnChip(s.m.chip, s.live[k].pages)
    ensures Inv(Sys(Release(s.m, s.live[k].pages), s.live - {k}))
  {
    var v := s.live[k];
    assert forall i :: 0 <= i < |v.pages| ==> s.m.chip[v.pages[i]] == Logical(s.m)[v.pages[i]] by {
      assert forall i :: 0 <= i < |v.pages| ==> v.pages[i] in v.pages;
    }
    PartitionShrink(s.m.free, s.live, k);
  }

  lemma PartitionShrink(free: set<int>, live: map<byte, Live>, k: byte)
    requires Partition(free, live) && k in live
    ensures Partition(free + PageSet(live[k].pages), live - {k})
  {
    var free' := free + PageSet(live[k].pages);
    var live' := live - {k};
    forall p | 1 <= p < PAGES && p !in free' ensures exists l :: l in live' && p in live'[l].pages {
      var l :| l in live && p in live[l].pages;
      assert l in live' && p in live'[l].pages;
    }
  }
}
