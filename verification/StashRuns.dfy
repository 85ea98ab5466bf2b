/** Whole runs of stash operations, and the round trip of a byte string through a stash. */
module StashRuns {
  import opened Machine
  import opened StashModel
  import opened StashSafety
  import opened StashStreams

  datatype Op =
    | CreateOp
    | PutOp(k: byte, b: byte)
    | SaveOp(k: byte)
    | OpenOp(k: byte)
    | GetOp(k: byte, pos: nat)
    | FlushOp
    | ScratchOp(off: byte, v: byte)
    | ReleaseOp(k: byte)

  /**
    The client protocol: put only before save, read only after it, put only while a page is free for
    the byte that needs one, and release with the write buffer on another page, as after a flush.
   */
  ghost predicate Allowed(s: Sys, op: Op) {
    match op
    case CreateOp => true
    case PutOp(k, b) => k in s.live && !s.live[k].saved &&
                        ((|s.live[k].data| + HEADER_SIZE) % 63 == TAIL ==> s.m.free != {})
    case SaveOp(k) => k in s.live && !s.live[k].saved
    case OpenOp(k) => k in s.live && s.live[k].saved
    case GetOp(k, pos) => k in s.live && s.live[k].saved && pos <= |s.live[k].data|
    case FlushOp => true
    case ScratchOp(off, v) => s.m.w.bnum == 0 && off < 64
    case ReleaseOp(k) => k in s.live && s.m.w.bnum !in s.live[k].pages
  }

  /** What an operation does to the memory, and to the record of who owns which stash. */
  ghost function Step(s: Sys, op: Op): Sys
    requires Inv(s) && Allowed(s, op)
  {
    match op
    case CreateOp =>
      var k := Create(s.m).1.first;
      Sys(Create(s.m).0, if s.m.free == {} then s.live else s.live[k := Live([InPages(k)], [], false)])
    case PutOp(k, b) =>
      IndicesOk(s, k);
      var after := Put(s.m, WriterHandle(s.live[k]), b);
      Sys(after.0, s.live[k := PutLive(s.live[k], b, after.1.last)])
    case SaveOp(k) =>
      Sys(Save(s.m, WriterHandle(s.live[k])), s.live[k := s.live[k].(saved := true)])
    case OpenOp(k) => Sys(Open(s.m, k).0, s.live)
    case GetOp(k, pos) =>
      IndicesOk(s, k);
      Sys(Get(s.m, CursorAt(s.live[k], pos)).0, s.live)
    case FlushOp => Sys(Load0(s.m, 0), s.live)
    case ScratchOp(off, v) => Sys(Write(s.m, off, v), s.live)
    case ReleaseOp(k) => Sys(Release(s.m, s.live[k].pages), s.live - {k})
  }

  function InPages(k: byte): PageNo {
    if 1 <= k < PAGES then k else 1
  }

  lemma IndicesOk(s: Sys, k: byte)
    requires Inv(s) && k in s.live
    ensures |s.live[k].pages| < PAGES
    ensures Load0(s.m, Last(s.live[k].pages)).w.bytes[TAIL] < 64
  {
    ChainIsShort(s.live[k].pages);
    LoadKeepsLogical(s.m, Last(s.live[k].pages));
  }

  /** Every operation of the protocol keeps the whole invariant. */
  lemma StepKeepsInv(s: Sys, op: Op)
    requires Inv(s) && Allowed(s, op)
    ensures Inv(Step(s, op))
  {
    match op
    case CreateOp =>
      if s.m.free == {} {
        CreateWithoutFreePage(s);
      } else {
        CreateKeepsInv(s);
      }
    case PutOp(k, b) => PutKeepsInv(s, k, b);
    case SaveOp(k) => SaveKeepsInv(s, k);
    case OpenOp(k) => OpenReads(s, k);
    case GetOp(k, pos) => IndicesOk(s, k); GetReads(s, k, pos);
    case FlushOp => FlushKeepsInv(s);
    case ScratchOp(off, v) => ScratchWriteKeepsInv(s, off, v);
    case ReleaseOp(k) => ReleaseKeepsInv(s, k);
  }

  /** `load(0, 0)` moves the write buffer to scratch page 0, after which any stash may be released. */
  lemma FlushKeepsInv(s: Sys)
    requires Inv(s)
    ensures Inv(Sys(Load0(s.m, 0), s.live))
    ensures Load0(s.m, 0).w == Buf(Logical(s.m)[0], 0)
    ensures Logical(Load0(s.m, 0)) == Logical(s.m)
  {
    LoadKeepsLogical(s.m, 0);
    ScratchKeepsInv(s, Load0(s.m, 0));
  }

  lemma ScratchWriteKeepsInv(s: Sys, off: int, v: byte)
    requires Inv(s) && s.m.w.bnum == 0 && 0 <= off < 64
    ensures Inv(Sys(Write(s.m, off, v), s.live))
  {
    WriteLogical(s.m, off, v);
    ScratchKeepsInv(s, Write(s.m, off, v));
  }

  /** Memory as `initMap(56)` leaves it: both buffers zero and tagged 0, chip contents arbitrary. */
  function Boot(chip: Chip): Mem {
    Mem(FirstPages(PAGES), chip, Buf(Blank(), 0), Buf(Blank(), 0))
  }

  ghost predicate Legal(s: Sys, ops: seq<Op>)
    requires Inv(s)
    decreases |ops|
  {
    ops == [] || (Allowed(s, ops[0]) && (StepKeepsInv(s, ops[0]); Legal(Step(s, ops[0]), ops[1..])))
  }

  ghost function Run(s: Sys, ops: seq<Op>): (s': Sys)
    requires Inv(s) && Legal(s, ops)
    ensures Inv(s')
    decreases |ops|
  {
    if ops == [] then s else StepKeepsInv(s, ops[0]); Run(Step(s, ops[0]), ops[1..])
  }

  /** Every state a run reaches from start-up partitions pages 1..55 into free pages and disjoint chains. */
  lemma EveryRunIsSafe(chip: Chip, ops: seq<Op>)
    ensures Inv(Sys(Boot(chip), map[]))
    ensures Legal(Sys(Boot(chip), map[]), ops) ==> Inv(Run(Sys(Boot(chip), map[]), ops))
  {
    assert Partition(FirstPages(PAGES), map[]);
  }

  /** The bytes a run puts into stash `k`, in order. */
  function PutsTo(ops: seq<Op>, k: byte): seq<byte> {
    if ops == [] then []
    else (if ops[0].PutOp? && ops[0].k == k then [ops[0].b] else []) + PutsTo(ops[1..], k)
  }

  /**
    However writers, readers and releases interleave, the pages of a stash hold what they held followed
    by what was put into it, and no other stash's bytes.
   */
  lemma RunsKeepStreamsApart(s: Sys, ops: seq<Op>, k: byte)
    requires Inv(s) && Legal(s, ops) && k in s.live
    requires ReleaseOp(k) !in ops
    ensures var s' := Run(s, ops);
            && k in s'.live && s'.live[k].data == s.live[k].data + PutsTo(ops, k)
            && Chained(Logical(s'.m), s'.live[k].pages)
            && Holds(Logical(s'.m), s'.live[k].pages, s.live[k].data + PutsTo(ops, k))
  {
    RunKeepsData(s, ops, k);
    assert LiveOk(Logical(Run(s, ops).m), k, Run(s, ops).live[k]);
  }

  lemma {:induction false} RunKeepsData(s: Sys, ops: seq<Op>, k: byte)
    requires Inv(s) && Legal(s, ops) && k in s.live
    requires ReleaseOp(k) !in ops
    ensures k in Run(s, ops).live && Run(s, ops).live[k].data == s.live[k].data + PutsTo(ops, k)
    decreases |ops|
  {
    hide Step, Allowed, Inv, PutsTo;
    if ops == [] {
      PutsToSplits(s.live[k].data, ops, k);
    } else {
      assert ops[0] in ops;
      StepKeepsInv(s, ops[0]);
      StepData(s, ops[0], k);
      var s1 := Step(s, ops[0]);
      RunKeepsData(s1, ops[1..], k);
      PutsToSplits(s.live[k].data, ops, k);
    }
  }

  lemma PutsToSplits(data: seq<byte>, ops: seq<Op>, k: byte)
    ensures ops == [] ==> data + PutsTo(ops, k) == data
    ensures ops != [] ==> data + PutsTo(ops, k) ==
                          data + (if ops[0].PutOp? && ops[0].k == k then [ops[0].b] else []) + PutsTo(ops[1..], k)
  {
  }

  lemma StepData(s: Sys, op: Op, k: byte)
    requires Inv(s) && Allowed(s, op) && k in s.live && op != ReleaseOp(k)
    ensures var s' := Step(s, op);
            && k in s'.live
            && s'.live[k].data == s.live[k].data + (if op.PutOp? && op.k == k then [op.b] else [])
  {
    if op.CreateOp? && s.m.free != {} {
      CreateKeepsInv(s);
    }
  }

  // ---------- round trip ----------

  /** Writing `bytes` one by one never indexes outside the write buffer. */
  ghost predicate CanPut(m: Mem, h: Handle, bytes: seq<byte>)
    decreases |bytes|
  {
    bytes == [] || (Load0(m, h.last).w.bytes[TAIL] < 64 &&
                    CanPut(Put(m, h, bytes[0]).0, Put(m, h, bytes[0]).1, bytes[1..]))
  }

  ghost function PutAll(m: Mem, h: Handle, bytes: seq<byte>): (Mem, Handle)
    requires CanPut(m, h, bytes)
    decreases |bytes|
  {
    if bytes == [] then (m, h) else PutAll(Put(m, h, bytes[0]).0, Put(m, h, bytes[0]).1, bytes[1..])
  }

  /** Successive gets return the expected bytes one after the other. */
  ghost predicate GetsReturn(m: Mem, h: Handle, expected: seq<byte>)
    decreases |expected|
  {
    expected == [] || (h.offs < 64 &&
                       var (m', h', b) := Get(m, h);
                       b == expected[0] && GetsReturn(m', h', expected[1..]))
  }

  /** Pages a stream of `n` bytes occupies after its three-byte header. */
  function PagesFor(n: nat): nat {
    (n + HEADER_SIZE) / 63 + 1
  }

  /** The record of a stash after its writer has put `bytes`. */
  ghost function PutAllLive(m: Mem, h: Handle, v: Live, bytes: seq<byte>): (v': Live)
    requires |v.pages| > 0 && !v.saved && CanPut(m, h, bytes)
    ensures |v'.pages| > 0 && v'.data == v.data + bytes && !v'.saved
    decreases |bytes|
  {
    if bytes == [] then v else
      var (m', h') := Put(m, h, bytes[0]);
      PutAllLive(m', h', PutLive(v, bytes[0], h'.last), bytes[1..])
  }

  /** A run of puts that fits in the free pages appends all its bytes and keeps everything else. */
  lemma {:induction false} PutAllAppends(s: Sys, k: byte, h: Handle, bytes: seq<byte>)
    requires Inv(s) && k in s.live && !s.live[k].saved && |s.live[k].pages| > 0
    requires h == WriterHandle(s.live[k])
    requires PagesFor(|s.live[k].data| + |bytes|) - PagesFor(|s.live[k].data|) <= |s.m.free|
    ensures CanPut(s.m, h, bytes)
    ensures var v' := PutAllLive(s.m, h, s.live[k], bytes);
            && PutAll(s.m, h, bytes).1 == WriterHandle(v')
            && Inv(Sys(PutAll(s.m, h, bytes).0, s.live[k := v']))
    decreases |bytes|
  {
    hide Put, Inv;
    var v := s.live[k];
    if bytes == [] {
      assert s.live[k := v] == s.live;
    } else {
      NextPut(s, k, bytes[0], |bytes| - 1);
      var (m1, h1) := Put(s.m, h, bytes[0]);
      var v1 := PutLive(v, bytes[0], h1.last);
      PutAllAppends(Sys(m1, s.live[k := v1]), k, h1, bytes[1..]);
      var v' := PutAllLive(m1, h1, v1, bytes[1..]);
      assert s.live[k := v1][k := v'] == s.live[k := v'];
    }
  }

  /** One put, with `n` more bytes to follow: there is room for it, and room left for them. */
  lemma NextPut(s: Sys, k: byte, b: byte, n: nat)
    requires Inv(s) && k in s.live && !s.live[k].saved && |s.live[k].pages| > 0
    requires PagesFor(|s.live[k].data| + 1 + n) - PagesFor(|s.live[k].data|) <= |s.m.free|
    ensures var h := WriterHandle(s.live[k]);
            && Load0(s.m, h.last).w.bytes[TAIL] < 64
            && var (m', h') := Put(s.m, h, b);
            var v' := PutLive(s.live[k], b, h'.last);
            && |v'.pages| > 0 && h' == WriterHandle(v')
            && PagesFor(|v'.data| + n) - PagesFor(|v'.data|) <= |m'.free|
            && Inv(Sys(m', s.live[k := v']))
  {
    hide Put, Inv;
    PutKeepsInv(s, k, b);
  }

  lemma {:induction false} GetAllReads(s: Sys, k: byte, pos: nat)
    requires Inv(s) && k in s.live && s.live[k].saved && |s.live[k].pages| < PAGES
    requires pos <= |s.live[k].data|
    ensures GetsReturn(s.m, CursorAt(s.live[k], pos), s.live[k].data[pos..] + [0])
    decreases |s.live[k].data| - pos
  {
    hide Get, Inv;
    var v := s.live[k];
    GetReads(s, k, pos);
    var (m, h, b) := Get(s.m, CursorAt(v, pos));
    var expected := v.data[pos..] + [0];
    if pos < |v.data| {
      GetAllReads(Sys(m, s.live), k, pos + 1);
      assert expected[1..] == v.data[pos + 1..] + [0];
    } else {
      assert expected == [0];
    }
  }

  /**
    A byte string that fits in the free pages goes through a stash unchanged: create, put every byte,
    save; then open and get return exactly those bytes and then 0, and the size is their number.
   */
  lemma RoundTrip(s: Sys, bytes: seq<byte>)
    requires Inv(s) && PagesFor(|bytes|) <= |s.m.free|
    ensures var (m1, h1) := Create(s.m);
            && CanPut(m1, h1, bytes)
            && var (m2, h2) := PutAll(m1, h1, bytes);
            var m3 := Save(m2, h2);
            var (m4, h4) := Open(m3, h1.first);
            && GetsReturn(m4, h4, bytes + [0])
            && Size(m4, h4) == |bytes|
  {
    hide Create, Put, Save, Open, Get, Size, Inv, GetsReturn, CanPut, PutAll, PutAllLive;
    CreateKeepsInv(s);
    var (m1, h1) := Create(s.m);
    var k := h1.first;
    var v1 := Live([k], [], false);
    PutAllAppends(Sys(m1, s.live[k := v1]), k, h1, bytes);
    var v2 := PutAllLive(m1, h1, v1, bytes);
    assert v2.data == bytes;
    SavedReadsBack(Sys(PutAll(m1, h1, bytes).0, s.live[k := v1][k := v2]), k);
  }

  lemma SavedReadsBack(s: Sys, k: byte)
    requires Inv(s) && k in s.live && !s.live[k].saved && |s.live[k].pages| > 0
    ensures var (m, h) := Open(Save(s.m, WriterHandle(s.live[k])), k);
            && GetsReturn(m, h, s.live[k].data + [0])
            && Size(m, h) == |s.live[k].data|
  {
    hide Save, Open, Get, Size, Inv;
    SaveKeepsInv(s, k);
    var v := s.live[k].(saved := true);
    var s1 := Sys(Save(s.m, WriterHandle(s.live[k])), s.live[k := v]);
    OpenReads(s1, k);
    var (m, h) := Open(s1.m, k);
    var s2 := Sys(m, s1.live);
    GetAllReads(s2, k, 0);
    assert v.data[0..] == v.data;
    SizeCounts(s2, k, h);
  }
}
