/**
  What every operation on stashes keeps: free pages and live chains partition pages 1..55, each
  chain holds exactly the bytes put into it, and the read buffer is never stale for a saved stash.
 */
module StashSafety {
  import opened Machine
  import opened StashModel

  /** A page a stash may own; page 0 is scratch space for the formatter. */
  type PageNo = p: byte | 1 <= p < PAGES witness 1

  /** A live stash: its pages in order, the bytes put so far, and whether it has been saved. */
  datatype Live = Live(pages: seq<PageNo>, data: seq<byte>, saved: bool)

  /** The memory together with the stashes its clients own, named by their first page. */
  datatype Sys = Sys(m: Mem, live: map<byte, Live>)

  ghost predicate Chained(c: Chip, pages: seq<PageNo>) {
    && |pages| > 0
    && (forall i, j :: 0 <= i < j < |pages| ==> pages[i] != pages[j])
    && (forall i :: 0 <= i < |pages| - 1 ==> c[pages[i]][NEXT] == pages[i + 1])
    && c[Last(pages)][NEXT] == 0
    && c[Last(pages)][TAIL] <= TAIL
    && (|pages| == 1 ==> HEADER_SIZE <= c[Last(pages)][TAIL])
  }

  function Last(pages: seq<PageNo>): PageNo
    requires |pages| > 0
  {
    pages[|pages| - 1]
  }

  /** The bytes stored in a chain: 63 a page, counted from the header, up to `tail` of the last page. */
  ghost predicate Holds(c: Chip, pages: seq<PageNo>, data: seq<byte>)
    requires Chained(c, pages)
  {
    && |data| == 63 * (|pages| - 1) + c[Last(pages)][TAIL] - HEADER_SIZE
    && forall k :: 0 <= k < |data| ==>
         (k + HEADER_SIZE) / 63 < |pages| &&
         data[k] == c[pages[(k + HEADER_SIZE) / 63]][(k + HEADER_SIZE) % 63]
  }

  ghost predicate HeaderIs(c: Chip, pages: seq<PageNo>)
    requires Chained(c, pages)
  {
    var h := c[pages[0]];
    h[0] == |pages| - 1 && h[1] == pages[0] && h[2] == Last(pages)
  }

  ghost predicate LiveOk(c: Chip, k: byte, v: Live) {
    && Chained(c, v.pages)
    && v.pages[0] == k
    && Holds(c, v.pages, v.data)
    && (v.saved ==> HeaderIs(c, v.pages))
  }

  ghost predicate Partition(free: set<int>, live: map<byte, Live>) {
    && (forall p :: p in free ==> 1 <= p < PAGES)
    && (forall k, p :: k in live && p in live[k].pages ==> p !in free)
    && (forall k, l, p :: k in live && l in live && p in live[k].pages && p in live[l].pages ==> k == l)
    && (forall p :: 1 <= p < PAGES && p !in free ==> exists k :: k in live && p in live[k].pages)
  }

  /**
    The read buffer holds the logical page for a saved stash. For an unsaved one it can only hold the
    first page, as `create` left it: with a tail that counts no bytes.
   */
  ghost predicate ReadOk(m: Mem, v: Live) {
    if v.saved then
      m.r.bnum in v.pages && m.r.bnum < PAGES ==> m.r.bytes == Logical(m)[m.r.bnum]
    else
      && |v.pages| > 0 && m.r.bnum !in v.pages[1..]
      && (m.r.bnum == v.pages[0] ==> m.r.bytes[TAIL] == HEADER_SIZE)
  }

  ghost predicate Inv(s: Sys) {
    && s.m.w.bnum < PAGES
    && s.m.w.bnum !in s.m.free
    && Partition(s.m.free, s.live)
    && (forall k :: k in s.live ==> LiveOk(Logical(s.m), k, s.live[k]))
    && (forall k :: k in s.live ==> ReadOk(s.m, s.live[k]))
  }

  // ---------- the cache is transparent ----------

  /** Switching either buffer never changes what the store logically holds. */
  lemma LoadKeepsLogical(m: Mem, blk: byte)
    ensures Logical(Load0(m, blk)) == Logical(m)
    ensures Logical(Load1(m, blk)) == Logical(m)
    ensures blk < PAGES ==> Load0(m, blk).w == Buf(Logical(m)[blk], blk)
  {
  }

  /** A write goes through to the logical store, at one byte of one page. */
  lemma WriteLogical(m: Mem, off: int, v: byte)
    requires 0 <= off < 64 && m.w.bnum < PAGES
    ensures Logical(Write(m, off, v)) == Logical(m)[m.w.bnum := Logical(m)[m.w.bnum][off := v]]
  {
  }

  lemma LiveFrame(c: Chip, c': Chip, k: byte, v: Live)
    requires LiveOk(c, k, v)
    requires forall p :: p in v.pages ==> c'[p] == c[p]
    ensures LiveOk(c', k, v)
  {
    forall i | 0 <= i < |v.pages| ensures c'[v.pages[i]] == c[v.pages[i]] { assert v.pages[i] in v.pages; }
  }

  /** A stash is undisturbed by a step that touches only pages it does not own. */
  lemma OtherKept(m: Mem, m': Mem, k: byte, v: Live, touched: set<int>)
    requires LiveOk(Logical(m), k, v) && ReadOk(m, v)
    requires forall p :: p in v.pages ==> p !in touched
    requires forall p: PageNo :: p !in touched ==> Logical(m')[p] == Logical(m)[p]
    requires m'.r == m.r || m'.r.bnum in touched || m'.r.bnum == NO_PAGE || m'.r.bnum == 0
    ensures LiveOk(Logical(m'), k, v) && ReadOk(m', v)
  {
    LiveFrame(Logical(m), Logical(m'), k, v);
  }

  /** Handing a free page `q` to chain `k` keeps the partition. */
  lemma PartitionGrow(free: set<int>, live: map<byte, Live>, k: byte, v: Live, q: PageNo)
    requires Partition(free, live) && q in free
    requires forall p :: p in v.pages <==> p == q || (k in live && p in live[k].pages)
    ensures Partition(free - {q as int}, live[k := v])
  {
    var live' := live[k := v];
    var free' := free - {q as int};
    forall p | 1 <= p < PAGES && p !in free'
      ensures exists l :: l in live' && p in live'[l].pages
    {
      if p == q {
        assert p in live'[k].pages;
      } else {
        var l :| l in live && p in live[l].pages;
        assert l in live' && p in live'[l].pages;
      }
    }
  }

  /** A step that touches only pages of stash `k` (or scratch page 0) keeps everything, if it keeps `k`. */
  lemma UpdateKeepsInv(s: Sys, m': Mem, k: byte, v: Live, touched: set<int>)
    requires Inv(s)
    requires m'.w.bnum < PAGES && m'.w.bnum !in m'.free
    requires Partition(m'.free, s.live[k := v])
    requires forall p :: p in touched ==> p == 0 || p in v.pages
    requires forall p: PageNo :: p !in touched ==> Logical(m')[p] == Logical(s.m)[p]
    requires m'.r == s.m.r || m'.r.bnum in touched || m'.r.bnum == NO_PAGE || m'.r.bnum == 0
    requires LiveOk(Logical(m'), k, v) && ReadOk(m', v)
    ensures Inv(Sys(m', s.live[k := v]))
  {
    var live := s.live[k := v];
    forall l | l in live
      ensures LiveOk(Logical(m'), l, live[l]) && ReadOk(m', live[l])
    {
      if l != k {
        Apart(m'.free, live, k, l);
        OtherKept(s.m, m', l, s.live[l], touched);
      }
    }
  }

  /** So does a step that touches no page of any stash and leaves the free pages alone. */
  lemma ScratchKeepsInv(s: Sys, m': Mem)
    requires Inv(s)
    requires m'.free == s.m.free && m'.w.bnum < PAGES && m'.w.bnum !in m'.free
    requires forall p: PageNo :: Logical(m')[p] == Logical(s.m)[p]
    requires m'.r == s.m.r || m'.r.bnum == NO_PAGE || m'.r.bnum == 0
    ensures Inv(Sys(m', s.live))
  {
    forall l | l in s.live
      ensures LiveOk(Logical(m'), l, s.live[l]) && ReadOk(m', s.live[l])
    {
      OtherKept(s.m, m', l, s.live[l], {});
    }
  }

  lemma NotFree(free: set<int>, live: map<byte, Live>, k: byte)
    requires Partition(free, live) && k in live
    ensures forall p :: p in live[k].pages ==> p !in free
  {
  }

  lemma Apart(free: set<int>, live: map<byte, Live>, k: byte, l: byte)
    requires Partition(free, live) && k in live && l in live && k != l
    ensures forall p :: p in live[k].pages ==> p !in live[l].pages
  {
  }

  // ---------- create ----------

  lemma AllocFree(m: Mem)
    requires forall p :: p in m.free ==> 1 <= p < PAGES
    ensures var (m', q) := Alloc(m);
            && m' == m.(free := m.free - {q as int})
            && (m.free == {} <==> q == 0)
            && (q != 0 ==> q in m.free)
  {
    if LeastFrom(m.free, 0) == 0 {
      assert m.free == {};
    }
  }

  lemma CreateLogical(m: Mem)
    requires m.w.bnum < PAGES && m.w.bnum !in m.free
    requires forall p :: p in m.free ==> 1 <= p < PAGES
    ensures var q := LeastFrom(m.free, 0);
            var (m', h) := Create(m);
            && m'.free == m.free - {q as int}
            && m'.w.bnum == q < PAGES
            && Logical(m') == Logical(m)[q := Logical(m)[q][0 := 0][2 := q][1 := q][TAIL := HEADER_SIZE][NEXT := 0]]
            && m'.r.bnum == q == h.curr && (q != 0 ==> m'.r.bytes == Logical(m')[q])
            && (q != 0 ==> h == Handle(0, q, q, q, HEADER_SIZE))
  {
    AllocFree(m);
  }

  lemma NewStashKeepsInv(s: Sys, m': Mem, q: PageNo)
    requires Inv(s) && q in s.m.free
    requires m'.free == s.m.free - {q as int} && m'.w.bnum == q == m'.r.bnum && m'.r.bytes == Logical(m')[q]
    requires forall p: PageNo :: p != q ==> Logical(m')[p] == Logical(s.m)[p]
    requires Logical(m')[q][TAIL] == HEADER_SIZE && Logical(m')[q][NEXT] == 0
    ensures q !in s.live
    ensures Inv(Sys(m', s.live[q := Live([q], [], false)]))
  {
    forall k | k in s.live ensures k != q { assert s.live[k].pages[0] in s.live[k].pages; }
    PartitionGrow(s.m.free, s.live, q, Live([q], [], false), q);
    UpdateKeepsInv(s, m', q, Live([q], [], false), {q as int});
  }

  /** Creating takes one free page for an empty stash. */
  lemma CreateKeepsInv(s: Sys)
    requires Inv(s) && s.m.free != {}
    ensures var (m, h) := Create(s.m);
            && h.first in s.m.free && h.first !in s.live
            && m.free == s.m.free - {h.first as int}
            && h == WriterHandle(Live([h.first], [], false))
            && Inv(Sys(m, s.live[h.first := Live([h.first], [], false)]))
  {
    AllocFree(s.m);
    CreateLogical(s.m);
    NewStashKeepsInv(s, Create(s.m).0, LeastFrom(s.m.free, 0));
  }

  /** With no page free, creating a stash only scribbles on scratch page 0. */
  lemma CreateWithoutFreePage(s: Sys)
    requires Inv(s) && s.m.free == {}
    ensures Create(s.m).1.curr == 0
    ensures Inv(Sys(Create(s.m).0, s.live))
  {
    AllocFree(s.m);
    CreateLogical(s.m);
    assert s.m.free - {0} == s.m.free;
    ScratchKeepsInv(s, Create(s.m).0);
  }

  // ---------- put ----------

  /** The handle a writer holds: as created, with the count and last page of its chain. */
  function WriterHandle(v: Live): Handle
    requires |v.pages| > 0
  {
    Handle((|v.pages| - 1) % 256, v.pages[0], Last(v.pages), v.pages[0], HEADER_SIZE)
  }

  /** What the buffers do to the read buffer when the write buffer moves: keep it or forget it. */
  ghost predicate Forgot(r': Buf, r: Buf) {
    r' == r || r'.bnum == NO_PAGE
  }

  lemma PutInPage(m: Mem, h: Handle, c: byte)
    requires m.w.bnum < PAGES && h.last < PAGES
    requires Logical(m)[h.last][TAIL] < TAIL
    ensures var p := Logical(m)[h.last];
            var t := p[TAIL];
            var (m', h') := Put(m, h, c);
            && h' == h && m'.free == m.free && m'.w.bnum == h.last && Forgot(m'.r, m.r)
            && Logical(m') == Logical(m)[h.last := p[t := c][TAIL := t + 1]]
  {
  }

  lemma PutFullPage(m: Mem, h: Handle, c: byte)
    requires m.w.bnum < PAGES && m.w.bnum !in m.free && 1 <= h.last < PAGES && h.last !in m.free
    requires forall p :: p in m.free ==> 1 <= p < PAGES
    requires Logical(m)[h.last][TAIL] == TAIL && m.free != {}
    ensures var l := Logical(m);
            var (m', h') := Put(m, h, c);
            var q := LeastFrom(m.free, 0);
            && q in m.free
            && h' == h.(count := (h.count + 1) % 256, last := q)
            && m'.free == m.free - {q as int} && m'.w.bnum == q && Forgot(m'.r, m.r) && m'.r.bnum != q
            && Logical(m') == l[h.last := l[h.last][TAIL := c][NEXT := q]][q := l[q][NEXT := 0][TAIL := 0]]
  {
    AllocFree(m);
  }

  /** Where byte number `k` of a stash sits: page index and offset, the header occupying the first three. */
  lemma Position(c: Chip, v: Live, k: byte)
    requires LiveOk(c, k, v)
    ensures |v.pages| > 0
    ensures (|v.data| + HEADER_SIZE) / 63 == |v.pages| - 1
    ensures (|v.data| + HEADER_SIZE) % 63 == c[Last(v.pages)][TAIL]
  {
  }

  lemma ChainAppend(c: Chip, k: byte, v: Live, b: byte)
    requires LiveOk(c, k, v) && !v.saved && c[Last(v.pages)][TAIL] < TAIL
    ensures var p := c[Last(v.pages)];
            LiveOk(c[Last(v.pages) := p[p[TAIL] := b][TAIL := p[TAIL] + 1]], k, v.(data := v.data + [b]))
  {
    Position(c, v, k);
    var p := c[Last(v.pages)];
    var c' := c[Last(v.pages) := p[p[TAIL] := b][TAIL := p[TAIL] + 1]];
    forall i | 0 <= i < |v.pages| - 1 ensures c'[v.pages[i]] == c[v.pages[i]] {}
    assert Chained(c', v.pages);
    forall j | 0 <= j < |v.data|
      ensures c'[v.pages[(j + 3) / 63]][(j + 3) % 63] == v.data[j]
    {
    }
  }

  lemma ChainGrow(c: Chip, k: byte, v: Live, b: byte, q: PageNo)
    requires LiveOk(c, k, v) && !v.saved && c[Last(v.pages)][TAIL] == TAIL && q !in v.pages
    ensures var p := c[Last(v.pages)];
            LiveOk(c[Last(v.pages) := p[TAIL := b][NEXT := q]][q := c[q][NEXT := 0][TAIL := 0]],
                   k, Live(v.pages + [q], v.data + [b], false))
  {
    Position(c, v, k);
    var p := c[Last(v.pages)];
    var c' := c[Last(v.pages) := p[TAIL := b][NEXT := q]][q := c[q][NEXT := 0][TAIL := 0]];
    var pages' := v.pages + [q];
    forall i | 0 <= i < |v.pages| - 1 ensures c'[v.pages[i]] == c[v.pages[i]] {}
    assert Chained(c', pages');
    forall j | 0 <= j < |v.data|
      ensures c'[pages'[(j + 3) / 63]][(j + 3) % 63] == v.data[j]
    {
    }
  }

  /** The stash after one more byte: a byte that fills its page brings page `q` into the chain. */
  function PutLive(v: Live, b: byte, q: int): Live {
    var full := (|v.data| + HEADER_SIZE) % 63 == TAIL;
    Live(if full && 1 <= q < PAGES then v.pages + [q] else v.pages, v.data + [b], false)
  }

  lemma AppendKeepsInv(s: Sys, k: byte, b: byte, m': Mem)
    requires Inv(s) && k in s.live && !s.live[k].saved
    requires var v := s.live[k];
             var l := Logical(s.m);
             var p := l[Last(v.pages)];
             && p[TAIL] < TAIL
             && m'.free == s.m.free && m'.w.bnum == Last(v.pages) && Forgot(m'.r, s.m.r)
             && Logical(m') == l[Last(v.pages) := p[p[TAIL] := b][TAIL := p[TAIL] + 1]]
    ensures Inv(Sys(m', s.live[k := PutLive(s.live[k], b, Last(s.live[k].pages))]))
  {
    var v := s.live[k];
    var v' := v.(data := v.data + [b]);
    Position(Logical(s.m), v, k);
    assert v' == PutLive(v, b, Last(v.pages));
    ChainAppend(Logical(s.m), k, v, b);
    PartitionSame(s.m.free, s.live, k, v');
    UpdateKeepsInv(s, m', k, v', {Last(v.pages) as int});
  }

  lemma PartitionSame(free: set<int>, live: map<byte, Live>, k: byte, v: Live)
    requires Partition(free, live) && k in live && live[k].pages == v.pages
    ensures Partition(free, live[k := v])
  {
    var live' := live[k := v];
    forall p | 1 <= p < PAGES && p !in free ensures exists l :: l in live' && p in live'[l].pages {
      var l :| l in live && p in live[l].pages;
      assert l in live' && p in live'[l].pages;
    }
  }

  lemma GrowKeepsInv(s: Sys, k: byte, b: byte, m': Mem, q: PageNo)
    requires Inv(s) && k in s.live && !s.live[k].saved && q in s.m.free
    requires var v := s.live[k];
             var l := Logical(s.m);
             var p := l[Last(v.pages)];
             && p[TAIL] == TAIL
             && m'.free == s.m.free - {q as int} && m'.w.bnum == q && Forgot(m'.r, s.m.r) && m'.r.bnum != q
             && Logical(m') == l[Last(v.pages) := p[TAIL := b][NEXT := q]][q := l[q][NEXT := 0][TAIL := 0]]
    ensures Inv(Sys(m', s.live[k := PutLive(s.live[k], b, q)]))
  {
    hide Logical, LiveOk, Partition;
    var v := s.live[k];
    var v' := Live(v.pages + [q], v.data + [b], false);
    Position(Logical(s.m), v, k);
    NotFree(s.m.free, s.live, k);
    ChainGrow(Logical(s.m), k, v, b, q);
    PartitionGrow(s.m.free, s.live, k, v', q);
    assert v'.pages[1..] == v.pages[1..] + [q];
    UpdateKeepsInv(s, m', k, v', {Last(v.pages) as int, q as int});
  }

  /** How a put changes the writer's handle and the free pages, `v'` being the stash after it. */
  ghost predicate PutHandle(s: Sys, k: byte, v': Live, m': Mem, h': Handle)
    requires k in s.live
  {
    var v := s.live[k];
    && |v'.pages| > 0 && h' == WriterHandle(v')
    && m'.free == (if |v'.pages| == |v.pages| then s.m.free else s.m.free - {h'.last as int})
    && (|v'.pages| != |v.pages| ==> h'.last in s.m.free)
  }

  /** Putting a byte appends it to that stash and disturbs no other, provided a page is free when one is needed. */
  lemma PutKeepsInv(s: Sys, k: byte, b: byte)
    requires Inv(s) && k in s.live && !s.live[k].saved
    requires (|s.live[k].data| + HEADER_SIZE) % 63 == TAIL ==> s.m.free != {}
    ensures var h := WriterHandle(s.live[k]);
            && Load0(s.m, h.last).w.bytes[TAIL] < 64
            && var (m', h') := Put(s.m, h, b);
            var v' := PutLive(s.live[k], b, h'.last);
            && PutHandle(s, k, v', m', h')
            && Inv(Sys(m', s.live[k := v']))
  {
    PutMovesHandle(s, k, b);
    if (|s.live[k].data| + HEADER_SIZE) % 63 == TAIL {
      PutFullPageKeepsInv(s, k, b);
    } else {
      PutInPageKeepsInv(s, k, b);
    }
  }

  lemma PutMovesHandle(s: Sys, k: byte, b: byte)
    requires Inv(s) && k in s.live && !s.live[k].saved
    requires (|s.live[k].data| + HEADER_SIZE) % 63 == TAIL ==> s.m.free != {}
    ensures var h := WriterHandle(s.live[k]);
            Load0(s.m, h.last).w.bytes[TAIL] < 64 &&
            var (m', h') := Put(s.m, h, b);
            PutHandle(s, k, PutLive(s.live[k], b, h'.last), m', h')
  {
    hide Put, Load0, LiveOk, Logical;
    var v := s.live[k];
    var h := WriterHandle(v);
    Position(Logical(s.m), v, k);
    NotFree(s.m.free, s.live, k);
    LoadKeepsLogical(s.m, h.last);
    if (|v.data| + HEADER_SIZE) % 63 == TAIL {
      PutFullPage(s.m, h, b);
      HandleGrows(v, b, LeastFrom(s.m.free, 0));
    } else {
      PutInPage(s.m, h, b);
      HandleStays(v, b);
    }
  }

  lemma HandleGrows(v: Live, b: byte, q: PageNo)
    requires |v.pages| > 0 && (|v.data| + HEADER_SIZE) % 63 == TAIL
    ensures |PutLive(v, b, q).pages| == |v.pages| + 1
    ensures WriterHandle(PutLive(v, b, q)) ==
            WriterHandle(v).(count := (WriterHandle(v).count + 1) % 256, last := q)
  {
  }

  lemma HandleStays(v: Live, b: byte)
    requires |v.pages| > 0 && (|v.data| + HEADER_SIZE) % 63 != TAIL
    ensures PutLive(v, b, Last(v.pages)).pages == v.pages
    ensures WriterHandle(PutLive(v, b, Last(v.pages))) == WriterHandle(v)
  {
  }

  lemma PutInPageKeepsInv(s: Sys, k: byte, b: byte)
    requires Inv(s) && k in s.live && !s.live[k].saved
    requires (|s.live[k].data| + HEADER_SIZE) % 63 != TAIL
    ensures var h := WriterHandle(s.live[k]);
            Load0(s.m, h.last).w.bytes[TAIL] < 64 &&
            var (m', h') := Put(s.m, h, b);
            var v' := PutLive(s.live[k], b, h'.last);
            Inv(Sys(m', s.live[k := v']))
  {
    var h := WriterHandle(s.live[k]);
    Position(Logical(s.m), s.live[k], k);
    PutInPage(s.m, h, b);
    AppendKeepsInv(s, k, b, Put(s.m, h, b).0);
  }

  lemma PutFullPageKeepsInv(s: Sys, k: byte, b: byte)
    requires Inv(s) && k in s.live && !s.live[k].saved
    requires (|s.live[k].data| + HEADER_SIZE) % 63 == TAIL && s.m.free != {}
    ensures var h := WriterHandle(s.live[k]);
            Load0(s.m, h.last).w.bytes[TAIL] < 64 &&
            var (m', h') := Put(s.m, h, b);
            var v' := PutLive(s.live[k], b, h'.last);
            Inv(Sys(m', s.live[k := v']))
  {
    var h := WriterHandle(s.live[k]);
    Position(Logical(s.m), s.live[k], k);
    PutFullPage(s.m, h, b);
    GrowKeepsInv(s, k, b, Put(s.m, h, b).0, LeastFrom(s.m.free, 0));
  }
}
