/**
  The lazy formatter: `Prepare` records a format and its arguments in scratch page 0, `Length`
  and `Extract` serve the expanded text piecewise, `Cleanup` releases the stashes it inserted.
 */
module Template {
  import opened CStrings
  import opened Machine
  import opened TemplateText
  import M = StashModel
  import opened StashSafety
  import opened StashStreams
  import opened StashRuns
  import Stash

  const MAX_ARGS := 30

  /** 16-bit word `k` of a page, low byte first. */
  function Word(page: M.Page, k: int): word
    requires 0 <= k < 32
  {
    (page[2 * k] as int) + 256 * (page[2 * k + 1] as int)
  }

  /** Scratch page 0 as `Prepare` leaves it: length, format address, arguments. */
  ghost predicate Prepared(page: M.Page, len: int, fmt: word, args: seq<word>) {
    && |args| <= MAX_ARGS
    && Word(page, 0) == len && Word(page, 1) == fmt
    && forall j :: 0 <= j < |args| ==> Word(page, 2 + j) == args[j]
  }

  /** In bytes: each 16-bit word with its low byte first. */
  lemma PreparedBytes(page: M.Page, len: int, fmt: word, args: seq<word>)
    requires Prepared(page, len, fmt, args)
    ensures page[0] == len % 256 && page[1] == len / 256 && page[2] == fmt % 256 && page[3] == fmt / 256
    ensures forall j :: 0 <= j < |args| ==> page[4 + 2 * j] == args[j] % 256 && page[5 + 2 * j] == args[j] / 256
  {
    WordBytes(page, 0);
    WordBytes(page, 1);
    forall j | 0 <= j < |args| ensures page[4 + 2 * j] == args[j] % 256 && page[5 + 2 * j] == args[j] / 256 {
      WordBytes(page, 2 + j);
    }
    hide Word;
  }

  lemma WordBytes(page: M.Page, k: int)
    requires 0 <= k < 32
    ensures page[2 * k] == Word(page, k) % 256 && page[2 * k + 1] == Word(page, k) / 256
  {
  }

  /** What holds between formatter calls: every stash is intact and the template is in the write buffer. */
  ghost predicate Ready(store: Stash.Store, live: map<byte, Live>)
    requires store.Valid()
    reads store.Footprint()
  {
    Inv(Sys(store.View(), live)) && store.View().w.bnum == 0
  }

  /** While text is being emitted, only the read buffer moves. */
  ghost predicate Serving(store: Stash.Store, live: map<byte, Live>, loaded: M.Mem)
    requires store.Valid()
    reads store.Footprint()
  {
    Ready(store, live) && store.View() == loaded.(r := store.View().r)
  }

  lemma StartServing(store: Stash.Store, live: map<byte, Live>)
    requires store.Valid() && Ready(store, live)
    ensures Serving(store, live, store.View())
  {
  }

  lemma ServingKeeps(store: Stash.Store, live: map<byte, Live>, loaded: M.Mem)
    requires store.Valid() && Serving(store, live, loaded)
    ensures Ready(store, live) && store.View().free == loaded.free && M.Logical(store.View()) == M.Logical(loaded)
  {
  }

  method ReadWord(store: Stash.Store, k: nat, ghost live: map<byte, Live>, ghost loaded: M.Mem) returns (v: word)
    requires store.Valid() && k < 32 && Serving(store, live, loaded)
    ensures v == Word(loaded.w.bytes, k)
  {
    v := Word(store.buf0[..], k);
  }

  method SetWord(store: Stash.Store, k: nat, v: word, ghost live: map<byte, Live>)
    requires store.Valid() && k < 32 && Ready(store, live)
    modifies store.buf0
    ensures Ready(store, live) && store.View().free == old(store.View()).free
    ensures Word(store.View().w.bytes, k) == v
    ensures forall j :: 0 <= j < 32 && j != k ==> Word(store.View().w.bytes, j) == old(Word(store.View().w.bytes, j))
  {
    ScratchWriteKeepsInv(Sys(store.View(), live), 2 * k, v % 256);
    store.SetByte(2 * k, v % 256);
    ScratchWriteKeepsInv(Sys(store.View(), live), 2 * k + 1, v / 256);
    store.SetByte(2 * k + 1, v / 256);
  }

  method LoadScratch(store: Stash.Store, ghost live: map<byte, Live>)
    requires store.Valid() && Inv(Sys(store.View(), live))
    modifies store.Footprint()
    ensures store.Elsewhere() == old(store.Elsewhere())
    ensures Ready(store, live)
    ensures store.View().w.bytes == M.Logical(old(store.View()))[0]
    ensures store.View().free == old(store.View()).free
    ensures M.Logical(store.View()) == M.Logical(old(store.View()))
  {
    FlushKeepsInv(Sys(store.View(), live));
    store.Load(0, 0);
  }

  lemma DecimalStep(v: nat)
    ensures Decimal(v) == (if v > 9 then Decimal(v / 10) else []) + [48 + v % 10]
  {
  }

  /** Writes the decimal digits of `value` at `ptr`, with a zero after them. */
  method Wtoa(value: word, buf: array<byte>, ptr: nat) returns (end: nat)
    requires ptr + |Decimal(value)| < buf.Length
    modifies buf
    ensures end == ptr + |Decimal(value)|
    ensures buf[ptr..end] == Decimal(value) && buf[end] == 0
    ensures forall i :: 0 <= i < ptr || end < i < buf.Length ==> buf[i] == old(buf[i])
  {
    DecimalStep(value);
    hide Decimal;
    end := ptr;
    if value > 9 {
      end := Wtoa(value / 10, buf, end);
    }
    ghost var prefix := buf[ptr..end];
    buf[end] := 48 + value % 10;
    end := end + 1;
    buf[end] := 0;
    assert buf[ptr..end] == prefix + [48 + value % 10];
  }

  method StrLen(mem: seq<byte>, a: nat) returns (n: nat)
    requires Terminated(mem, a)
    ensures n == |CStr(mem, a)|
  {
    hide CStr;
    n := 0;
    while mem[a + n] != 0
      invariant Terminated(mem, a + n) && n + |CStr(mem, a + n)| == |CStr(mem, a)|
      decreases |mem| - (a + n)
    {
      CStrStep(mem, a + n);
      n := n + 1;
    }
  }

  /** The length `prepare` counts for one argument; only the read buffer moves. */
  method MeasureArg(store: Stash.Store, env: Env, spec: byte, arg: word, ghost live: map<byte, Live>)
    returns (arglen: nat)
    requires store.Valid() && Ready(store, live) && ArgOk(env, live, spec, arg)
    modifies store.Footprint()
    ensures store.Elsewhere() == old(store.Elsewhere())
    ensures Ready(store, live) && store.View() == old(store.View()).(r := store.View().r)
    ensures arglen == ArgLen(env, live, spec, arg)
  {
    hide Inv, Decimal, CStr;
    arglen := 0;
    if spec == DECIMAL {
      var buf := new byte[7];
      arglen := Wtoa(arg, buf, 0);
    } else if spec == RAM {
      arglen := StrLen(env.ram, arg);
    } else if spec == FLASH {
      arglen := StrLen(env.flash, arg);
    } else if spec == EEPROM {
      arglen := StrLen(env.eeprom, arg);
    } else if spec == STASH {
      arglen := StashSize(store, arg % 256, live);
    }
  }

  method StashSize(store: Stash.Store, fd: byte, ghost live: map<byte, Live>) returns (n: nat)
    requires store.Valid() && Ready(store, live) && fd in live && live[fd].saved
    modifies store.Footprint()
    ensures store.Elsewhere() == old(store.Elsewhere())
    ensures Ready(store, live) && store.View() == old(store.View()).(r := store.View().r)
    ensures n == |live[fd].data|
  {
    hide Inv, M.Open, M.Size;
    OpenReads(Sys(store.View(), live), fd);
    var stash := new Stash.Stash(store);
    var page := stash.Open(fd);
    SizeCounts(Sys(store.View(), live), fd, stash.State());
    n := stash.Size();
  }

  /** Scratch page 0 while arguments are being recorded: `len` so far, kept in 16 bits. */
  ghost predicate Recorded(page: M.Page, fmt: word, args: seq<word>, seg: nat, len: int) {
    && 2 <= seg <= |args| + 2 <= MAX_ARGS + 2
    && Word(page, 0) == len % 0x1_0000 && Word(page, 1) == fmt
    && forall j :: 0 <= j < seg - 2 ==> Word(page, 2 + j) == args[j]
  }

  /** Records one argument: its word at `seg`, its length (less the two format characters) in word 0. */
  method RecordArg(store: Stash.Store, env: Env, spec: byte, arg: word, seg: nat, ghost live: map<byte, Live>,
                   ghost fmt: word, ghost args: seq<word>, ghost len: int)
    requires store.Valid() && Ready(store, live) && ArgOk(env, live, spec, arg)
    requires Recorded(store.View().w.bytes, fmt, args, seg, len) && seg < |args| + 2 && arg == args[seg - 2]
    modifies store.Footprint()
    ensures store.Elsewhere() == old(store.Elsewhere())
    ensures Ready(store, live) && store.View().free == old(store.View()).free
    ensures Recorded(store.View().w.bytes, fmt, args, seg + 1, len + ArgLen(env, live, spec, arg) - 2)
  {
    hide Inv, ArgLen, ArgOk, Word, Stash.PagesOf, Stash.FreePages;
    var arglen := MeasureArg(store, env, spec, arg, live);
    SetWord(store, seg, arg, live);
    SetWord(store, 0, (Word(store.buf0[..], 0) + arglen - 2) % 0x1_0000, live);
    SumsWrap(len, arglen as int - 2);
  }

  lemma SumsWrap(a: int, b: int)
    ensures (a % 0x1_0000 + b) % 0x1_0000 == (a + b) % 0x1_0000
  {
  }

  /** Records the template and its total length; every stash is left intact. */
  method Prepare(store: Stash.Store, env: Env, fmt: word, args: seq<word>, ghost live: map<byte, Live>)
    requires store.Valid() && Inv(Sys(store.View(), live))
    requires Terminated(env.flash, fmt) && |CStr(env.flash, fmt)| < 0x1_0000
    requires ArgsOk(env, live, CStr(env.flash, fmt), args) && Args(CStr(env.flash, fmt)) == |args| <= MAX_ARGS
    modifies store.Footprint()
    ensures store.Elsewhere() == old(store.Elsewhere())
    ensures Ready(store, live) && store.View().free == old(store.View()).free
    ensures Prepared(store.View().w.bytes, Measure(env, live, CStr(env.flash, fmt), args) % 0x1_0000, fmt, args)
  {
    hide Inv, CStr, ArgLen, ArgOk, ArgsOk, Args, Measure, Word, Stash.PagesOf, Stash.FreePages;
    assert FormatOk(env, live, fmt, args);
    LoadScratch(store, live);
    var n := StrLen(env.flash, fmt);
    SetWord(store, 0, n, live);
    SetWord(store, 1, fmt, live);
    RecordedNone(store.View().w.bytes, fmt, args, n);
    hide Recorded, FormatOk;
    RecordArgs(store, env, fmt, args, live, n);
  }

  lemma RecordedNone(page: M.Page, fmt: word, args: seq<word>, n: int)
    requires |args| <= MAX_ARGS && Word(page, 0) == n % 0x1_0000 && Word(page, 1) == fmt
    ensures Recorded(page, fmt, args, 2, n)
  {
  }

  /** A format in flash memory and arguments that suit it. */
  ghost predicate FormatOk(env: Env, live: map<byte, Live>, fmt: nat, args: seq<word>) {
    Terminated(env.flash, fmt) && ArgsOk(env, live, CStr(env.flash, fmt), args) &&
    Args(CStr(env.flash, fmt)) == |args|
  }

  /** The loop of prepare: records every argument and corrects the length by what it adds. */
  method RecordArgs(store: Stash.Store, env: Env, fmt: word, args: seq<word>,
                    ghost live: map<byte, Live>, ghost start: int)
    requires store.Valid() && Ready(store, live) && |args| <= MAX_ARGS
    requires FormatOk(env, live, fmt, args) && start == |CStr(env.flash, fmt)|
    requires Recorded(store.View().w.bytes, fmt, args, 2, start)
    modifies store.Footprint()
    ensures store.Elsewhere() == old(store.Elsewhere())
    ensures Ready(store, live) && store.View().free == old(store.View()).free
    ensures Prepared(store.View().w.bytes, Measure(env, live, CStr(env.flash, fmt), args) % 0x1_0000, fmt, args)
  {
    hide Inv, CStr, ArgLen, ArgOk, ArgsOk, Args, Measure, Word, Recorded, Prepared, Stash.PagesOf, Stash.FreePages;
    ghost var rest, left, len := CStr(env.flash, fmt), args, start;
    ghost var total := Measure(env, live, rest, args);
    var pos: nat, seg := fmt, 2;
    while env.flash[pos] != 0
      invariant store.Elsewhere() == old(store.Elsewhere())
      invariant Ready(store, live) && store.View().free == old(store.View()).free
      invariant Terminated(env.flash, pos) && rest == CStr(env.flash, pos)
      invariant 2 <= seg && seg - 2 + Args(rest) == |args| && left == args[seg - 2..]
      invariant ArgsOk(env, live, rest, left)
      invariant Recorded(store.View().w.bytes, fmt, args, seg, len)
      invariant len == total - Measure(env, live, rest, left) + |rest|
      decreases |rest|
    {
      CStrStep(env.flash, pos);
      FormatStep(env, live, rest, left);
      var c := env.flash[pos];
      pos := pos + 1;
      if c == DOLLAR {
        CStrStep(env.flash, pos);
        assert rest[2..] == CStr(env.flash, pos + 1);
        var spec := env.flash[pos];
        pos := pos + 1;
        var arg := args[seg - 2];
        RecordArg(store, env, spec, arg, seg, live, fmt, args, len);
        len := len + ArgLen(env, live, spec, arg) - 2;
        seg := seg + 1;
        rest, left := rest[2..], left[1..];
      } else {
        rest := rest[1..];
      }
    }
    FormatStep(env, live, rest, left);
    RecordedAll(store.View().w.bytes, fmt, args, len);
  }

  lemma RecordedAll(page: M.Page, fmt: word, args: seq<word>, len: int)
    requires Recorded(page, fmt, args, |args| + 2, len)
    ensures Prepared(page, len % 0x1_0000, fmt, args)
  {
  }

  /** The recorded length. */
  method Length(store: Stash.Store, ghost live: map<byte, Live>) returns (n: word)
    requires store.Valid() && Inv(Sys(store.View(), live))
    modifies store.Footprint()
    ensures store.Elsewhere() == old(store.Elsewhere())
    ensures Ready(store, live) && store.View().free == old(store.View()).free
    ensures M.Logical(store.View()) == M.Logical(old(store.View()))
    ensures n == Word(M.Logical(old(store.View()))[0], 0)
  {
    LoadScratch(store, live);
    n := Word(store.buf0[..], 0);
  }

  /** Where an argument being expanded stands: at an address, or `ptr` bytes into stash `fd`. */
  ghost predicate PendingOk(env: Env, live: map<byte, Live>, mode: byte, tmp: seq<byte>, ptr: nat, fd: byte) {
    && (mode == DECIMAL ==> Terminated(tmp, ptr))
    && (mode == RAM ==> Terminated(env.ram, ptr))
    && (mode == FLASH ==> Terminated(env.flash, ptr))
    && (mode == EEPROM ==> Terminated(env.eeprom, ptr))
    && (mode == STASH ==> fd in live && live[fd].saved && 0 < |live[fd].pages| < M.PAGES && ptr <= |live[fd].data|)
  }

  /** The reading handle matches, when the argument is a stash. */
  ghost predicate AtCursor(live: map<byte, Live>, mode: byte, h: M.Handle, ptr: nat, fd: byte) {
    mode == STASH ==> fd in live && 0 < |live[fd].pages| < M.PAGES && ptr <= |live[fd].data|
                      && h == CursorAt(live[fd], ptr)
  }

  /** What is left to emit of that argument. */
  ghost function Pending(env: Env, live: map<byte, Live>, mode: byte, tmp: seq<byte>, ptr: nat, fd: byte): seq<byte>
    requires PendingOk(env, live, mode, tmp, ptr, fd)
  {
    if mode == DECIMAL then CStr(tmp, ptr)
    else if mode == RAM then CStr(env.ram, ptr)
    else if mode == FLASH then CStr(env.flash, ptr)
    else if mode == EEPROM then CStr(env.eeprom, ptr)
    else if mode == STASH then UpToZero(live[fd].data[ptr..])
    else []
  }

  method NextOfString(mem: seq<byte>, ptr: nat) returns (c: byte, next: nat)
    requires Terminated(mem, ptr)
    ensures c == 0 <==> CStr(mem, ptr) == []
    ensures c != 0 ==> Terminated(mem, next) && CStr(mem, ptr) == [c] + CStr(mem, next)
  {
    c, next := mem[ptr], ptr + 1;
    if c != 0 {
      CStrStep(mem, ptr);
    }
  }

  method NextOfStash(store: Stash.Store, stash: Stash.Stash, ghost pos: nat,
                     ghost live: map<byte, Live>, ghost loaded: M.Mem, ghost fd: byte)
    returns (c: byte)
    requires store.Valid() && stash.store == store && Serving(store, live, loaded)
    requires fd in live && live[fd].saved && 0 < |live[fd].pages| < M.PAGES && pos <= |live[fd].data|
    requires stash.State() == CursorAt(live[fd], pos)
    modifies stash, store.Footprint()
    ensures store.Elsewhere() == old(store.Elsewhere())
    ensures Serving(store, live, loaded)
    ensures c == if pos < |live[fd].data| then live[fd].data[pos] else 0
    ensures stash.State() == CursorAt(live[fd], if pos < |live[fd].data| then pos + 1 else pos)
  {
    hide Inv, M.Get;
    GetReads(Sys(store.View(), live), fd, pos);
    c := stash.Get();
  }

  /** One byte of the argument being expanded, 0 when it is used up. */
  method NextByte(store: Stash.Store, env: Env, mode: byte, tmp: array<byte>, ptr: nat, stash: Stash.Stash,
                  ghost live: map<byte, Live>, ghost loaded: M.Mem, ghost fd: byte)
    returns (c: byte, next: nat)
    requires store.Valid() && stash.store == store && Serving(store, live, loaded)
    requires PendingOk(env, live, mode, tmp[..], ptr, fd)
    requires AtCursor(live, mode, stash.State(), ptr, fd)
    requires tmp as object !in store.Footprint()
    modifies stash, store.Footprint()
    ensures store.Elsewhere() == old(store.Elsewhere())
    ensures Serving(store, live, loaded)
    ensures c == 0 <==> Pending(env, live, mode, tmp[..], ptr, fd) == []
    ensures c != 0 ==>
              && PendingOk(env, live, mode, tmp[..], next, fd)
              && AtCursor(live, mode, stash.State(), next, fd)
              && Pending(env, live, mode, tmp[..], ptr, fd) == [c] + Pending(env, live, mode, tmp[..], next, fd)
  {
    hide Inv, CStr;
    c, next := 0, ptr;
    if mode == DECIMAL {
      c, next := NextOfString(tmp[..], ptr);
    } else if mode == RAM {
      c, next := NextOfString(env.ram, ptr);
    } else if mode == FLASH {
      c, next := NextOfString(env.flash, ptr);
    } else if mode == EEPROM {
      c, next := NextOfString(env.eeprom, ptr);
    } else if mode == STASH {
      c := NextOfStash(store, stash, ptr, live, loaded, fd);
      next := ptr + 1;
      assert ptr < |live[fd].data| ==> live[fd].data[ptr..][1..] == live[fd].data[next..];
    }
  }

  /** Starts expanding an argument. */
  method BeginArg(store: Stash.Store, env: Env, mode: byte, arg: word, tmp: array<byte>, stash: Stash.Stash,
                  ghost live: map<byte, Live>, ghost loaded: M.Mem)
    returns (ptr: nat)
    requires store.Valid() && stash.store == store && Serving(store, live, loaded)
    requires ArgOk(env, live, mode, arg) && tmp.Length == 7 && tmp as object !in store.Footprint()
    modifies stash, tmp, store.Footprint()
    ensures store.Elsewhere() == old(store.Elsewhere())
    ensures Serving(store, live, loaded)
    ensures PendingOk(env, live, mode, tmp[..], ptr, arg % 256)
    ensures Pending(env, live, mode, tmp[..], ptr, arg % 256) == ArgText(env, live, mode, arg)
    ensures AtCursor(live, mode, stash.State(), ptr, arg % 256)
  {
    hide Inv, CStr, Decimal, M.Open;
    ptr := arg;
    if mode == DECIMAL {
      var end := Wtoa(arg, tmp, 0);
      CStrIs(tmp[..], 0, Decimal(arg));
      ptr := 0;
    } else if mode == STASH {
      OpenReads(Sys(store.View(), live), arg % 256);
      var page := stash.Open(arg % 256);
      IndicesOk(Sys(store.View(), live), arg % 256);
      ptr := 0;
    }
  }

  /**
    Where the emitting loop stands: position in the format, next argument word, specifier being
    expanded (`@` for none) and place in its text, and the stash it names, if any.
   */
  datatype Scan = Scan(pos: nat, seg: nat, mode: byte, ptr: nat, fd: byte)

  ghost predicate ScanOk(env: Env, live: map<byte, Live>, args: seq<word>, tmp: seq<byte>, s: Scan) {
    && Terminated(env.flash, s.pos)
    && 2 <= s.seg <= |args| + 2 && ArgsOk(env, live, CStr(env.flash, s.pos), args[s.seg - 2..])
    && PendingOk(env, live, s.mode, tmp, s.ptr, s.fd)
  }

  /** The text still to come. */
  ghost function Remaining(env: Env, live: map<byte, Live>, args: seq<word>, tmp: seq<byte>, s: Scan): seq<byte>
    requires ScanOk(env, live, args, tmp, s)
  {
    Pending(env, live, s.mode, tmp, s.ptr, s.fd) + Expand(env, live, CStr(env.flash, s.pos), args[s.seg - 2..])
  }

  lemma NothingPending(env: Env, live: map<byte, Live>, tmp: seq<byte>, ptr: nat, fd: byte)
    ensures PendingOk(env, live, LITERAL, tmp, ptr, fd) && Pending(env, live, LITERAL, tmp, ptr, fd) == []
  {
  }

  /** A literal character, the start of an argument, or the end of the format. */
  method NextOfFormat(store: Stash.Store, env: Env, s: Scan, tmp: array<byte>, stash: Stash.Stash,
                      ghost live: map<byte, Live>, ghost loaded: M.Mem, ghost args: seq<word>)
    returns (c: byte, next: Scan)
    requires store.Valid() && stash.store == store && Serving(store, live, loaded)
    requires tmp.Length == 7 && tmp as object !in store.Footprint()
    requires ScanOk(env, live, args, tmp[..], s) && s.mode == LITERAL
    requires Prepared(loaded.w.bytes, Word(loaded.w.bytes, 0), Word(loaded.w.bytes, 1), args)
    modifies stash, tmp, store.Footprint()
    ensures store.Elsewhere() == old(store.Elsewhere())
    ensures Serving(store, live, loaded)
    ensures c == 0 ==> old(Remaining(env, live, args, tmp[..], s)) == []
    ensures c != 0 ==>
              && ScanOk(env, live, args, tmp[..], next) && AtCursor(live, next.mode, stash.State(), next.ptr, next.fd)
              && |CStr(env.flash, next.pos)| < |CStr(env.flash, s.pos)|
              && old(Remaining(env, live, args, tmp[..], s)) ==
                 (if c == DOLLAR then [] else [c]) + Remaining(env, live, args, tmp[..], next)
  {
    hide Inv, CStr, Expand, ArgsOk, ArgOk, ArgText, Pending, PendingOk, Word, Serving;
    NothingPending(env, live, tmp[..], s.ptr, s.fd);
    FormatStep(env, live, CStr(env.flash, s.pos), args[s.seg - 2..]);
    c, next := env.flash[s.pos], s;
    if c != 0 {
      CStrStep(env.flash, s.pos);
      if c == DOLLAR {
        CStrStep(env.flash, s.pos + 1);
        assert CStr(env.flash, s.pos)[2..] == CStr(env.flash, s.pos + 2);
        assert args[s.seg - 2..][1..] == args[s.seg - 1..];
        var mode := env.flash[s.pos + 1];
        var arg := ReadWord(store, s.seg, live, loaded);
        var ptr := BeginArg(store, env, mode, arg, tmp, stash, live, loaded);
        next := Scan(s.pos + 2, s.seg + 1, mode, ptr, arg % 256);
      } else {
        next := s.(pos := s.pos + 1);
        NothingPending(env, live, tmp[..], s.ptr, s.fd);
      }
    }
  }

  /** The next character of the argument being expanded, or a return to the format. */
  method NextOfArg(store: Stash.Store, env: Env, s: Scan, tmp: array<byte>, stash: Stash.Stash,
                   ghost live: map<byte, Live>, ghost loaded: M.Mem, ghost args: seq<word>)
    returns (c: byte, next: Scan)
    requires store.Valid() && stash.store == store && Serving(store, live, loaded)
    requires tmp as object !in store.Footprint() && tmp as object != stash
    requires ScanOk(env, live, args, tmp[..], s) && AtCursor(live, s.mode, stash.State(), s.ptr, s.fd)
    modifies stash, store.Footprint()
    ensures store.Elsewhere() == old(store.Elsewhere())
    ensures Serving(store, live, loaded)
    ensures ScanOk(env, live, args, tmp[..], next) && AtCursor(live, next.mode, stash.State(), next.ptr, next.fd)
    ensures next.pos == s.pos
    ensures c == 0 ==> next.mode == LITERAL &&
                       Remaining(env, live, args, tmp[..], next) == Remaining(env, live, args, tmp[..], s)
    ensures c != 0 ==> next.mode == s.mode &&
                       |Pending(env, live, s.mode, tmp[..], next.ptr, next.fd)| <
                       |Pending(env, live, s.mode, tmp[..], s.ptr, s.fd)| &&
                       Remaining(env, live, args, tmp[..], s) == [c] + Remaining(env, live, args, tmp[..], next)
  {
    hide Inv, CStr, Expand, ArgsOk, Pending, PendingOk, Serving;
    var ptr: nat;
    c, ptr := NextByte(store, env, s.mode, tmp, s.ptr, stash, live, loaded, s.fd);
    if c == 0 {
      next := s.(mode := LITERAL);
      NothingPending(env, live, tmp[..], s.ptr, s.fd);
    } else {
      next := s.(ptr := ptr);
    }
  }

  lemma FromTheStart(env: Env, live: map<byte, Live>, fmt: word, args: seq<word>, tmp: seq<byte>)
    requires Terminated(env.flash, fmt) && ArgsOk(env, live, CStr(env.flash, fmt), args)
    ensures ScanOk(env, live, args, tmp, Scan(fmt, 2, LITERAL, 0, 0))
    ensures Remaining(env, live, args, tmp, Scan(fmt, 2, LITERAL, 0, 0)) ==
            Expand(env, live, CStr(env.flash, fmt), args)
  {
    assert args[0..] == args;
  }

  /** A lexicographic measure: format left, then whether an argument is open, then its text left. */
  ghost predicate Progress(env: Env, live: map<byte, Live>, args: seq<word>, tmp: seq<byte>, s: Scan,
                           tmp': seq<byte>, s': Scan)
    requires ScanOk(env, live, args, tmp, s) && ScanOk(env, live, args, tmp', s')
  {
    |CStr(env.flash, s'.pos)| < |CStr(env.flash, s.pos)| ||
    (s'.pos == s.pos && s.mode != LITERAL &&
     (s'.mode == LITERAL ||
      |Pending(env, live, s'.mode, tmp', s'.ptr, s'.fd)| < |Pending(env, live, s.mode, tmp, s.ptr, s.fd)|))
  }

  /** One turn of the emitting loop: a character, or 0 when the turn only moves on, or the end of the text. */
  method Next(store: Stash.Store, env: Env, s: Scan, tmp: array<byte>, stash: Stash.Stash,
              ghost live: map<byte, Live>, ghost loaded: M.Mem, ghost args: seq<word>)
    returns (c: byte, next: Scan, more: bool)
    requires store.Valid() && stash.store == store && Serving(store, live, loaded)
    requires tmp.Length == 7 && tmp as object !in store.Footprint() && tmp as object != stash
    requires ScanOk(env, live, args, tmp[..], s) && AtCursor(live, s.mode, stash.State(), s.ptr, s.fd)
    requires Prepared(loaded.w.bytes, Word(loaded.w.bytes, 0), Word(loaded.w.bytes, 1), args)
    modifies stash, tmp, store.Footprint()
    ensures store.Elsewhere() == old(store.Elsewhere())
    ensures Serving(store, live, loaded)
    ensures !more ==> old(Remaining(env, live, args, tmp[..], s)) == []
    ensures more ==>
              && ScanOk(env, live, args, tmp[..], next) && AtCursor(live, next.mode, stash.State(), next.ptr, next.fd)
              && Progress(env, live, args, old(tmp[..]), s, tmp[..], next)
              && old(Remaining(env, live, args, tmp[..], s)) ==
                 (if c == 0 then [] else [c]) + Remaining(env, live, args, tmp[..], next)
  {
    hide Inv, CStr, Expand, ArgsOk, Pending, PendingOk, Serving, Prepared, Remaining;
    if s.mode == LITERAL {
      c, next := NextOfFormat(store, env, s, tmp, stash, live, loaded, args);
      more := c != 0;
      if c == DOLLAR {
        c := 0;
      }
    } else {
      c, next := NextOfArg(store, env, s, tmp, stash, live, loaded, args);
      more := true;
    }
  }

  /** The emitting loop's record of its output: bytes `offset..i` of the text, nothing else written. */
  ghost predicate Emitted(buf: seq<byte>, before: seq<byte>, e: seq<byte>, offset: nat, i: nat, out: nat) {
    && i <= |e| && out == (if i < offset then 0 else i - offset)
    && out <= |buf| == |before|
    && buf[..out] == (if i < offset then [] else e[offset..i])
    && buf[out..] == before[out..]
  }

  lemma EmitNone(buf: seq<byte>, e: seq<byte>, offset: nat)
    ensures Emitted(buf, buf, e, offset, 0, 0) && e[0..] == e
  {
  }

  lemma EmitOne(buf: seq<byte>, before: seq<byte>, e: seq<byte>, offset: word, count: word, i: nat, out: nat, c: byte,
                after: seq<byte>)
    requires Emitted(buf, before, e, offset, i, out) && e[i..] == [c] + after
    requires i < (offset + count) % 0x1_0000 && |buf| >= count
    ensures i < |e| && e[i + 1..] == after
    ensures i >= offset ==> out < |buf| && Emitted(buf[out := c], before, e, offset, i + 1, out + 1)
    ensures i < offset ==> Emitted(buf, before, e, offset, i + 1, out)
  {
    assert e[i..][0] == c && e[i + 1..] == e[i..][1..];
    if i >= offset {
      EmitHere(buf, before, e, offset, i, out);
    }
  }

  lemma EmitHere(buf: seq<byte>, before: seq<byte>, e: seq<byte>, offset: nat, i: nat, out: nat)
    requires Emitted(buf, before, e, offset, i, out) && offset <= i < |e| && out < |buf|
    ensures Emitted(buf[out := e[i]], before, e, offset, i + 1, out + 1)
  {
    assert e[offset..i + 1] == e[offset..i] + [e[i]];
    assert buf[out..][1..] == buf[out + 1..] && before[out..][1..] == before[out + 1..];
  }

  lemma EmittedWindow(buf: seq<byte>, before: seq<byte>, e: seq<byte>, offset: word, count: word, i: nat, out: nat)
    requires Emitted(buf, before, e, offset, i, out) && i == Min((offset + count) % 0x1_0000, |e|)
    ensures out == |Window(e, offset, count)| && buf == Window(e, offset, count) + before[out..]
  {
    assert buf == buf[..out] + buf[out..];
  }

  /** Emits exactly the requested window of the expanded text. */
  method Extract(store: Stash.Store, env: Env, offset: word, count: word, buf: array<byte>,
                 ghost live: map<byte, Live>, ghost fmt: word, ghost args: seq<word>)
    requires store.Valid() && Inv(Sys(store.View(), live))
    requires buf.Length >= count && buf as object !in store.Footprint()
    requires Terminated(env.flash, fmt) && ArgsOk(env, live, CStr(env.flash, fmt), args)
    requires Prepared(M.Logical(store.View())[0], Word(M.Logical(store.View())[0], 0), fmt, args)
    modifies store.Footprint(), buf
    ensures store.Elsewhere() == old(store.Elsewhere())
    ensures Ready(store, live) && store.View().free == old(store.View()).free
    ensures M.Logical(store.View()) == M.Logical(old(store.View()))
    ensures var w := Window(Expand(env, live, CStr(env.flash, fmt), args), offset, count);
            |w| <= buf.Length && buf[..] == w + old(buf[..])[|w|..]
  {
    hide Inv, CStr, Expand, ArgsOk, Pending, PendingOk, Window, Word, Serving, M.Logical, Remaining;
    LoadScratch(store, live);
    ghost var loaded := store.View();
    StartServing(store, live);
    var stash := new Stash.Stash(store);
    var tmp := new byte[7];
    var address := ReadWord(store, 1, live, loaded);
    FromTheStart(env, live, fmt, args, tmp[..]);
    Emit(store, env, offset, count, buf, Scan(address, 2, LITERAL, 0, 0), tmp, stash, live, loaded, args);
    ServingKeeps(store, live, loaded);
  }

  /** The emitting loop: from a place in the format on, the window of the text still to come. */
  method Emit(store: Stash.Store, env: Env, offset: word, count: word, buf: array<byte>, start: Scan,
              tmp: array<byte>, stash: Stash.Stash,
              ghost live: map<byte, Live>, ghost loaded: M.Mem, ghost args: seq<word>)
    requires store.Valid() && stash.store == store && Serving(store, live, loaded)
    requires buf.Length >= count && buf as object !in store.Footprint() && buf != tmp && buf as object != stash
    requires tmp.Length == 7 && tmp as object !in store.Footprint() && tmp as object != stash
    requires ScanOk(env, live, args, tmp[..], start)
    requires AtCursor(live, start.mode, stash.State(), start.ptr, start.fd)
    requires Prepared(loaded.w.bytes, Word(loaded.w.bytes, 0), Word(loaded.w.bytes, 1), args)
    modifies stash, tmp, store.Footprint(), buf
    ensures store.Elsewhere() == old(store.Elsewhere())
    ensures Serving(store, live, loaded)
    ensures var w := Window(old(Remaining(env, live, args, tmp[..], start)), offset, count);
            |w| <= buf.Length && buf[..] == w + old(buf[..])[|w|..]
  {
    hide Inv, CStr, ArgsOk, Pending, PendingOk, Emitted, Window, Word, Serving, Remaining, Prepared, AtCursor, Progress;
    ghost var e, before := Remaining(env, live, args, tmp[..], start), buf[..];
    var s, out: nat, i: nat := start, 0, 0;
    var limit := (offset + count) % 0x1_0000;
    EmitNone(before, e, offset);
    while i < limit
      invariant store.Elsewhere() == old(store.Elsewhere())
      invariant Serving(store, live, loaded)
      invariant ScanOk(env, live, args, tmp[..], s) && AtCursor(live, s.mode, stash.State(), s.ptr, s.fd)
      invariant Emitted(buf[..], before, e, offset, i, out) && i <= limit && i <= |e|
      invariant e[i..] == Remaining(env, live, args, tmp[..], s)
      decreases |CStr(env.flash, s.pos)|, if s.mode == LITERAL then 0 else 1,
                |Pending(env, live, s.mode, tmp[..], s.ptr, s.fd)|
    {
      ghost var tmp0 := tmp[..];
      var c, next, more := Next(store, env, s, tmp, stash, live, loaded, args);
      if !more {
        break;
      }
      ProgressDecreases(env, live, args, tmp0, s, tmp[..], next);
      s := next;
      if c == 0 {
        continue;
      }
      EmitOne(buf[..], before, e, offset, count, i, out, c, Remaining(env, live, args, tmp[..], s));
      if i >= offset {
        buf[out] := c;
        out := out + 1;
      }
      i := i + 1;
    }
    EmittedWindow(buf[..], before, e, offset, count, i, out);
  }

  lemma ProgressDecreases(env: Env, live: map<byte, Live>, args: seq<word>, tmp: seq<byte>, s: Scan,
                          tmp': seq<byte>, s': Scan)
    requires ScanOk(env, live, args, tmp, s) && ScanOk(env, live, args, tmp', s')
    requires Progress(env, live, args, tmp, s, tmp', s')
    ensures var n, n' := |CStr(env.flash, s.pos)|, |CStr(env.flash, s'.pos)|;
            var a, a' := if s.mode == LITERAL then 0 else 1, if s'.mode == LITERAL then 0 else 1;
            var p := |Pending(env, live, s.mode, tmp, s.ptr, s.fd)|;
            var p' := |Pending(env, live, s'.mode, tmp', s'.ptr, s'.fd)|;
            n' < n || (n' == n && (a' < a || (a' == a && p' < p)))
  {
  }

  // ---------- cleanup ----------

  /** The stashes a format inserts, in order. */
  function Inserted(f: seq<byte>, args: seq<word>): seq<byte>
    decreases |f|
  {
    if f == [] then []
    else if f[0] != DOLLAR then Inserted(f[1..], args)
    else if |f| == 1 || args == [] then []
    else (if f[1] == STASH then [args[0] % 256] else []) + Inserted(f[2..], args[1..])
  }

  /** They are exactly those the text cannot do without. */
  lemma {:induction false} InsertedAreNeeded(env: Env, live: map<byte, Live>, f: seq<byte>, args: seq<word>, k: byte)
    requires ArgsOk(env, live, f, args)
    ensures k in Inserted(f, args) <==> !ArgsOk(env, live - {k}, f, args)
    decreases |f|
  {
    if f == [] {
    } else if f[0] != DOLLAR {
      InsertedAreNeeded(env, live, f[1..], args, k);
    } else {
      InsertedAreNeeded(env, live, f[2..], args[1..], k);
      ArgNeeds(env, live, f[1], args[0], k);
      hide ArgOk;
    }
  }

  lemma ArgNeeds(env: Env, live: map<byte, Live>, spec: byte, arg: word, k: byte)
    requires ArgOk(env, live, spec, arg)
    ensures ArgOk(env, live - {k}, spec, arg) <==> !(spec == STASH && arg % 256 == k)
  {
  }

  ghost function ChainPages(live: map<byte, Live>, fds: seq<byte>): set<int> {
    set k, p | k in fds && k in live && p in live[k].pages :: p as int
  }

  function Fds(fds: seq<byte>): set<byte> {
    set k | k in fds
  }

  /** Releasing several stashes, some perhaps named twice, frees exactly their chains. */
  lemma {:induction false} ReleaseSeveral(s: Sys, fds: seq<byte>)
    requires Inv(s) && s.m.w.bnum == 0 && forall k :: k in fds ==> k in s.live
    ensures Inv(Sys(s.m.(free := s.m.free + ChainPages(s.live, fds)), s.live - Fds(fds)))
    decreases |fds|
  {
    hide Inv;
    if fds == [] {
      assert s.m.free + ChainPages(s.live, fds) == s.m.free;
      assert s.live - Fds(fds) == s.live;
    } else {
      var init, k := fds[..|fds| - 1], fds[|fds| - 1];
      assert fds == init + [k];
      ReleaseSeveral(s, init);
      var s1 := Sys(s.m.(free := s.m.free + ChainPages(s.live, init)), s.live - Fds(init));
      if k in init {
        assert ChainPages(s.live, fds) == ChainPages(s.live, init);
        assert Fds(fds) == Fds(init);
      } else {
        ReleaseKeepsInv(s1, k);
        assert s1.m.free + M.PageSet(s.live[k].pages) == s.m.free + ChainPages(s.live, fds);
        assert s1.live - {k} == s.live - Fds(fds);
      }
    }
  }

  lemma OpenIgnoresFree(m: M.Mem, k: byte, free: set<int>)
    ensures M.Open(m, k).0.free == m.free
    ensures M.Open(m.(free := free), k) == (M.Open(m, k).0.(free := free), M.Open(m, k).1)
  {
  }

  /** While cleaning up, pages are only freed: with its free pages put back, the memory is as it was. */
  ghost predicate Cleaning(store: Stash.Store, live: map<byte, Live>, loaded: M.Mem, released: seq<byte>)
    requires store.Valid()
    reads store.Footprint()
  {
    && store.View() == loaded.(free := loaded.free + ChainPages(live, released), r := store.View().r)
    && loaded.w.bnum == 0 && Inv(Sys(store.View().(free := loaded.free), live))
  }

  method ReadRecorded(store: Stash.Store, k: nat, ghost live: map<byte, Live>, ghost loaded: M.Mem,
                      ghost released: seq<byte>)
    returns (v: word)
    requires store.Valid() && k < 32 && Cleaning(store, live, loaded, released)
    ensures v == Word(loaded.w.bytes, k)
  {
    v := Word(store.buf0[..], k);
  }

  /** Opens a stash just to learn its first page, and frees its chain. */
  method ReleaseStash(store: Stash.Store, fd: byte, ghost live: map<byte, Live>, ghost loaded: M.Mem,
                      ghost released: seq<byte>)
    requires store.Valid() && Cleaning(store, live, loaded, released)
    requires fd in live && live[fd].saved
    modifies store.Footprint()
    ensures store.Elsewhere() == old(store.Elsewhere())
    ensures Cleaning(store, live, loaded, released + [fd])
  {
    hide Inv, M.Open, ChainPages;
    ghost var before := Sys(store.View().(free := loaded.free), live);
    OpenReads(before, fd);
    OpenIgnoresFree(store.View(), fd, loaded.free);
    ReleaseKeepsInv(before, fd);
    var stash := new Stash.Stash(store);
    var page := stash.Open(fd);
    ghost var viewed := store.View();
    stash.Release(live[fd].pages);
    assert store.View().(free := loaded.free) == viewed.(free := loaded.free);
    FreedMore(live, released, fd);
    assert viewed.free == loaded.free + ChainPages(live, released);
    assert store.View().free == viewed.free + M.PageSet(live[fd].pages);
    assert store.View().free == loaded.free + ChainPages(live, released + [fd]);
  }

  lemma FreedMore(live: map<byte, Live>, released: seq<byte>, fd: byte)
    requires fd in live
    ensures ChainPages(live, released + [fd]) == ChainPages(live, released) + M.PageSet(live[fd].pages)
  {
  }

  lemma StartCleaning(store: Stash.Store, live: map<byte, Live>)
    requires store.Valid() && Ready(store, live)
    ensures Cleaning(store, live, store.View(), [])
  {
    assert ChainPages(live, []) == {};
    assert store.View().free + {} == store.View().free;
  }

  lemma CleanedUp(store: Stash.Store, live: map<byte, Live>, loaded: M.Mem, released: seq<byte>)
    requires store.Valid() && Cleaning(store, live, loaded, released)
    requires forall k :: k in released ==> k in live
    ensures store.View().free == loaded.free + ChainPages(live, released)
    ensures Inv(Sys(store.View(), live - Fds(released)))
  {
    ReleaseSeveral(Sys(store.View().(free := loaded.free), live), released);
  }

  lemma Reassociate(a: seq<byte>, b: seq<byte>, c: seq<byte>)
    ensures a + (b + c) == (a + b) + c
  {
  }

  lemma InsertedStep(f: seq<byte>, args: seq<word>)
    ensures f == [] ==> Inserted(f, args) == []
    ensures f != [] && f[0] != DOLLAR ==> Inserted(f, args) == Inserted(f[1..], args)
    ensures |f| >= 2 && f[0] == DOLLAR && args != [] ==>
              Inserted(f, args) == (if f[1] == STASH then [args[0] % 256] else []) + Inserted(f[2..], args[1..])
  {
  }

  /** Frees exactly the chains of the stashes the template inserts, and keeps every other stash. */
  method Cleanup(store: Stash.Store, env: Env, ghost live: map<byte, Live>, ghost fmt: word, ghost args: seq<word>)
    requires store.Valid() && Inv(Sys(store.View(), live))
    requires Terminated(env.flash, fmt) && ArgsOk(env, live, CStr(env.flash, fmt), args)
    requires Prepared(M.Logical(store.View())[0], Word(M.Logical(store.View())[0], 0), fmt, args)
    modifies store.Footprint()
    ensures store.Elsewhere() == old(store.Elsewhere())
    ensures var fds := Inserted(CStr(env.flash, fmt), args);
            && store.View().free == old(store.View()).free + ChainPages(live, fds)
            && Inv(Sys(store.View(), live - Fds(fds)))
  {
    hide Inv, CStr, ArgsOk, ArgOk, Args, Expand, Measure, Word, Inserted, Cleaning, ChainPages, Fds;
    LoadScratch(store, live);
    ghost var loaded := store.View();
    StartCleaning(store, live);
    var address: nat := ReadRecorded(store, 1, live, loaded, []);
    ghost var released := ReleaseInserted(store, env, address, live, loaded, args);
    CleanedUp(store, live, loaded, released);
  }

  /** The loop of cleanup, over the format found at `start`. */
  method ReleaseInserted(store: Stash.Store, env: Env, start: nat, ghost live: map<byte, Live>, ghost loaded: M.Mem,
                         ghost args: seq<word>)
    returns (ghost released: seq<byte>)
    requires store.Valid() && Cleaning(store, live, loaded, [])
    requires Terminated(env.flash, start) && ArgsOk(env, live, CStr(env.flash, start), args)
    requires Prepared(loaded.w.bytes, Word(loaded.w.bytes, 0), Word(loaded.w.bytes, 1), args)
    modifies store.Footprint()
    ensures store.Elsewhere() == old(store.Elsewhere())
    ensures Cleaning(store, live, loaded, released)
    ensures released == Inserted(CStr(env.flash, start), args) && forall k :: k in released ==> k in live
  {
    hide Inv, CStr, ArgsOk, Word, Inserted, Cleaning, Prepared;
    released := [];
    var pos, seg: nat := start, 2;
    ghost var left, all := args, Inserted(CStr(env.flash, start), args);
    while env.flash[pos] != 0
      invariant store.Elsewhere() == old(store.Elsewhere())
      invariant Cleaning(store, live, loaded, released)
      invariant 2 <= seg <= |args| + 2 && left == args[seg - 2..]
      invariant Terminated(env.flash, pos) && ArgsOk(env, live, CStr(env.flash, pos), left)
      invariant all == released + Inserted(CStr(env.flash, pos), left)
      invariant forall k :: k in released ==> k in live
      decreases |env.flash| - pos
    {
      CleanStep(env, live, pos, left);
      var c := env.flash[pos];
      pos := pos + 1;
      if c == DOLLAR {
        ghost var more := ReleaseArg(store, env.flash[pos], seg, live, loaded, args, released);
        seg := seg + 1;
        pos := pos + 1;
        left := left[1..];
        Reassociate(released, more, Inserted(CStr(env.flash, pos), left));
        released := released + more;
      }
    }
    InsertedStep(CStr(env.flash, pos), left);
  }

  /** One argument in the loop of cleanup: a stash is released, anything else is passed over. */
  method ReleaseArg(store: Stash.Store, spec: byte, seg: nat, ghost live: map<byte, Live>, ghost loaded: M.Mem,
                    ghost args: seq<word>, ghost released: seq<byte>)
    returns (ghost more: seq<byte>)
    requires store.Valid() && Cleaning(store, live, loaded, released) && 2 <= seg < |args| + 2
    requires Prepared(loaded.w.bytes, Word(loaded.w.bytes, 0), Word(loaded.w.bytes, 1), args)
    requires var fd := args[seg - 2] % 256; spec == STASH ==> fd in live && live[fd].saved
    modifies store.Footprint()
    ensures store.Elsewhere() == old(store.Elsewhere())
    ensures more == if spec == STASH then [args[seg - 2] % 256] else []
    ensures Cleaning(store, live, loaded, released + more)
  {
    PreparedArg(loaded.w.bytes, Word(loaded.w.bytes, 0), Word(loaded.w.bytes, 1), args, seg - 2);
    hide Inv, Word, Cleaning, Prepared;
    var arg := ReadRecorded(store, seg, live, loaded, released);
    more := [];
    if spec == STASH {
      ReleaseStash(store, arg % 256, live, loaded, released);
      more := [arg % 256];
    }
    assert released + [] == released;
  }

  /** What a turn of the loop of cleanup finds in the format. */
  lemma CleanStep(env: Env, live: map<byte, Live>, pos: nat, left: seq<word>)
    requires Terminated(env.flash, pos) && env.flash[pos] != 0 && ArgsOk(env, live, CStr(env.flash, pos), left)
    ensures pos + 1 < |env.flash| && Terminated(env.flash, pos + 1)
    ensures env.flash[pos] != DOLLAR ==>
              && ArgsOk(env, live, CStr(env.flash, pos + 1), left)
              && Inserted(CStr(env.flash, pos), left) == Inserted(CStr(env.flash, pos + 1), left)
    ensures env.flash[pos] == DOLLAR ==>
              var stash := env.flash[pos + 1] == STASH;
              && pos + 2 < |env.flash| && Terminated(env.flash, pos + 2) && left != []
              && ArgsOk(env, live, CStr(env.flash, pos + 2), left[1..])
              && Inserted(CStr(env.flash, pos), left) ==
                 (if stash then [left[0] % 256] else []) + Inserted(CStr(env.flash, pos + 2), left[1..])
              && (stash ==> left[0] % 256 in live && live[left[0] % 256].saved)
  {
    var f := CStr(env.flash, pos);
    CStrStep(env.flash, pos);
    FormatStep(env, live, f, left);
    InsertedStep(f, left);
    assert f[1..] == CStr(env.flash, pos + 1);
    if env.flash[pos] == DOLLAR {
      CStrStep(env.flash, pos + 1);
      assert f[2..] == CStr(env.flash, pos + 2);
    }
  }

  lemma PreparedArg(page: M.Page, len: int, fmt: word, args: seq<word>, j: nat)
    requires Prepared(page, len, fmt, args) && j < |args|
    ensures 2 + j < 32 && Word(page, 2 + j) == args[j]
  {
  }

  // ---------- the client ----------

  /**
    What the web client does with a prepared template: measures it, expands it into a packet, frees its
    stashes and terminates the text. A text whose measure fits in 16 bits arrives whole, and is followed
    by no other byte exactly when its stashes are zero-free.
   */
  method TcpDatafill(store: Stash.Store, env: Env, packet: array<byte>,
                     ghost live: map<byte, Live>, ghost fmt: word, ghost args: seq<word>)
    returns (len: word)
    requires store.Valid() && Inv(Sys(store.View(), live)) && packet as object !in store.Footprint()
    requires Terminated(env.flash, fmt) && ArgsOk(env, live, CStr(env.flash, fmt), args)
    requires var n := Measure(env, live, CStr(env.flash, fmt), args) % 0x1_0000;
             n < packet.Length && Prepared(M.Logical(store.View())[0], n, fmt, args)
    modifies store.Footprint(), packet
    ensures store.Elsewhere() == old(store.Elsewhere())
    ensures var f := CStr(env.flash, fmt);
            var text := Expand(env, live, f, args);
            && len == Measure(env, live, f, args) % 0x1_0000 < packet.Length && packet[len] == 0
            && (Measure(env, live, f, args) < 0x1_0000 ==>
                  && |text| <= len && packet[..|text|] == text
                  && (len == |text| <==> ZeroFree(env, live, f, args)))
            && packet[..Min(len, |text|)] == text[..Min(len, |text|)]
            && packet[Min(len, |text|)..len] == old(packet[Min(len, |text|)..len])
            && packet[len + 1..] == old(packet[len + 1..])
            && (len == |text| <==> |text| < 0x1_0000 && Cut(env, live, f, args) % 0x1_0000 == 0)
            && store.View().free == old(store.View()).free + ChainPages(live, Inserted(f, args))
            && Inv(Sys(store.View(), live - Fds(Inserted(f, args))))
  {
    hide Inv, CStr, ArgsOk, Expand, Measure, ZeroFree, Cut, Inserted, ChainPages, Fds, Word, Window, M.Logical;
    ghost var f := CStr(env.flash, fmt);
    ghost var text := Expand(env, live, f, args);
    RecordedLengthIsExact(env, live, f, args);
    MeasureIsExact(env, live, f, args);
    len := Length(store, live);
    Extract(store, env, 0, len, packet, live, fmt, args);
    ghost var w, filled, was := Min(len, |text|), packet[..], old(packet[..]);
    FirstWindow(text, len);
    assert filled == text[..w] + was[w..];
    Cleanup(store, env, live, fmt, args);
    assert packet[..] == filled;
    packet[len] := 0;
    Datafilled(text[..w], was, len);
    assert packet[..] == filled[len := 0];
    assert packet[..][..w] == packet[..w] && packet[..][w..len] == packet[w..len];
    assert packet[..][len + 1..] == packet[len + 1..];
    assert packet[..][..|text[..w]|] == packet[..w];
    assert was[w..len] == old(packet[w..len]) && was[len + 1..] == old(packet[len + 1..]);
  }

  /** A text put at the front of a packet, and a zero behind it. */
  lemma Datafilled(text: seq<byte>, was: seq<byte>, len: nat)
    requires |text| <= len < |was|
    ensures var packet := (text + was[|text|..])[len := 0];
            && packet[..|text|] == text && packet[|text|..len] == was[|text|..len] && packet[len] == 0
            && packet[len + 1..] == was[len + 1..]
  {
  }

  lemma FirstWindow(text: seq<byte>, len: word)
    ensures Window(text, 0, len) == text[..Min(len, |text|)]
  {
  }

  /** Preparing a template and sending it: the packet holds the whole expansion, if 16 bits can count it. */
  method SendTemplate(store: Stash.Store, env: Env, fmt: word, args: seq<word>, packet: array<byte>,
                      ghost live: map<byte, Live>)
    returns (len: word)
    requires store.Valid() && Inv(Sys(store.View(), live)) && packet as object !in store.Footprint()
    requires Terminated(env.flash, fmt) && |CStr(env.flash, fmt)| < 0x1_0000
    requires ArgsOk(env, live, CStr(env.flash, fmt), args) && Args(CStr(env.flash, fmt)) == |args| <= MAX_ARGS
    requires Measure(env, live, CStr(env.flash, fmt), args) % 0x1_0000 < packet.Length
    modifies store.Footprint(), packet
    ensures store.Elsewhere() == old(store.Elsewhere())
    ensures len < packet.Length && packet[len] == 0
    ensures var text := Expand(env, live, CStr(env.flash, fmt), args);
            Measure(env, live, CStr(env.flash, fmt), args) < 0x1_0000 ==>
              && |text| <= len && packet[..|text|] == text
              && (len == |text| <==> ZeroFree(env, live, CStr(env.flash, fmt), args))
    ensures var text := Expand(env, live, CStr(env.flash, fmt), args);
            && Min(len, |text|) <= packet.Length && packet[..Min(len, |text|)] == text[..Min(len, |text|)]
            && (len == |text| <==> |text| < 0x1_0000 && Cut(env, live, CStr(env.flash, fmt), args) % 0x1_0000 == 0)
    ensures var fds := Inserted(CStr(env.flash, fmt), args);
            && store.View().free == old(store.View()).free + ChainPages(live, fds)
            && Inv(Sys(store.View(), live - Fds(fds)))
  {
    hide Inv, CStr, ArgsOk, Args, Expand, Measure, ZeroFree, Cut, Inserted, ChainPages, Fds, Word;
    Prepare(store, env, fmt, args, live);
    LogicalScratch(store.View());
    len := TcpDatafill(store, env, packet, live, fmt, args);
  }

  lemma LogicalScratch(m: M.Mem)
    ensures m.w.bnum == 0 ==> M.Logical(m)[0] == m.w.bytes
  {
  }
}
