/** The text a format string stands for: what `prepare` measures and `extract` emits. */
module TemplateText {
  import opened CStrings
  import opened Machine
  import opened StashSafety

  const DOLLAR: byte := 36
  const DECIMAL: byte := 68
  const RAM: byte := 83
  const FLASH: byte := 70
  const EEPROM: byte := 69
  const STASH: byte := 72
  const LITERAL: byte := 64

  /** The three memories a format and its arguments point into. */
  datatype Env = Env(flash: seq<byte>, ram: seq<byte>, eeprom: seq<byte>)

  /** The bytes before the first zero. */
  function UpToZero(s: seq<byte>): (r: seq<byte>)
    ensures |r| <= |s|
    ensures |r| == |s| <==> 0 !in s
  {
    if s == [] || s[0] == 0 then [] else [s[0]] + UpToZero(s[1..])
  }

  lemma {:induction false} UpToZeroCuts(s: seq<byte>)
    ensures var r := UpToZero(s);
            && 0 !in r && s[..|r|] == r && (|r| < |s| ==> s[|r|] == 0)
  {
    if s != [] && s[0] != 0 {
      UpToZeroCuts(s[1..]);
    }
  }

  function Decimal(v: nat): (s: seq<byte>)
    ensures |s| > 0 && 0 !in s
    ensures v < 10 ==> |s| == 1
    ensures v < 100 ==> |s| <= 2
    ensures v < 1000 ==> |s| <= 3
    ensures v < 10000 ==> |s| <= 4
    ensures v < 100000 ==> |s| <= 5
  {
    (if v > 9 then Decimal(v / 10) else []) + [48 + v % 10]
  }

  function ReadDecimal(s: seq<byte>): int {
    if s == [] then 0 else 10 * ReadDecimal(s[..|s| - 1]) + s[|s| - 1] - 48
  }

  /** They are digits, the first of several not 0. */
  lemma {:induction false} DecimalHasDigits(v: nat)
    ensures forall i :: 0 <= i < |Decimal(v)| ==> 48 <= Decimal(v)[i] <= 57
    ensures v > 0 ==> Decimal(v)[0] != 48
  {
    if v > 9 {
      DecimalHasDigits(v / 10);
    }
  }

  /** The digits written for a number denote that number. */
  lemma {:induction false} DecimalReadsBack(v: nat)
    ensures ReadDecimal(Decimal(v)) == v
  {
    if v > 9 {
      DecimalReadsBack(v / 10);
      assert Decimal(v)[..|Decimal(v)| - 1] == Decimal(v / 10);
    } else {
      assert Decimal(v)[..0] == [];
    }
  }

  // ---------- formats ----------

  function Args(f: seq<byte>): nat {
    if f == [] then 0
    else if f[0] != DOLLAR then Args(f[1..])
    else if |f| == 1 then 1
    else 1 + Args(f[2..])
  }

  /** An argument points at a terminated string, or names a saved stash. */
  ghost predicate ArgOk(env: Env, live: map<byte, Live>, spec: byte, arg: word) {
    && (spec == RAM ==> Terminated(env.ram, arg))
    && (spec == FLASH ==> Terminated(env.flash, arg))
    && (spec == EEPROM ==> Terminated(env.eeprom, arg))
    && (spec == STASH ==> (arg % 256) in live && live[arg % 256].saved)
  }

  ghost predicate ArgsOk(env: Env, live: map<byte, Live>, f: seq<byte>, args: seq<word>) {
    if f == [] then true
    else if f[0] != DOLLAR then ArgsOk(env, live, f[1..], args)
    else |f| >= 2 && |args| > 0 && ArgOk(env, live, f[1], args[0]) && ArgsOk(env, live, f[2..], args[1..])
  }

  /** The text of one argument; an unknown specifier uses up its argument and stands for nothing. */
  ghost function ArgText(env: Env, live: map<byte, Live>, spec: byte, arg: word): seq<byte>
    requires ArgOk(env, live, spec, arg)
  {
    if spec == DECIMAL then Decimal(arg)
    else if spec == RAM then CStr(env.ram, arg)
    else if spec == FLASH then CStr(env.flash, arg)
    else if spec == EEPROM then CStr(env.eeprom, arg)
    else if spec == STASH then UpToZero(live[arg % 256].data)
    else []
  }

  ghost function Expand(env: Env, live: map<byte, Live>, f: seq<byte>, args: seq<word>): seq<byte>
    requires ArgsOk(env, live, f, args)
    decreases |f|
  {
    if f == [] then []
    else if f[0] != DOLLAR then [f[0]] + Expand(env, live, f[1..], args)
    else ArgText(env, live, f[1], args[0]) + Expand(env, live, f[2..], args[1..])
  }

  /** The length `prepare` adds up: a stash counts with its full size, zeros included. */
  ghost function ArgLen(env: Env, live: map<byte, Live>, spec: byte, arg: word): nat
    requires ArgOk(env, live, spec, arg)
  {
    if spec == STASH then |live[arg % 256].data| else |ArgText(env, live, spec, arg)|
  }

  ghost function Measure(env: Env, live: map<byte, Live>, f: seq<byte>, args: seq<word>): nat
    requires ArgsOk(env, live, f, args)
    decreases |f|
  {
    if f == [] then 0
    else if f[0] != DOLLAR then 1 + Measure(env, live, f[1..], args)
    else ArgLen(env, live, f[1], args[0]) + Measure(env, live, f[2..], args[1..])
  }

  /** No stash the format inserts contains a zero byte. */
  ghost predicate ZeroFree(env: Env, live: map<byte, Live>, f: seq<byte>, args: seq<word>)
    requires ArgsOk(env, live, f, args)
    decreases |f|
  {
    if f == [] then true
    else if f[0] != DOLLAR then ZeroFree(env, live, f[1..], args)
    else (f[1] == STASH ==> 0 !in live[args[0] % 256].data) && ZeroFree(env, live, f[2..], args[1..])
  }

  /** The bytes that are counted but not emitted: those of inserted stashes from the first zero on. */
  ghost function Cut(env: Env, live: map<byte, Live>, f: seq<byte>, args: seq<word>): nat
    requires ArgsOk(env, live, f, args)
    decreases |f|
  {
    if f == [] then 0
    else if f[0] != DOLLAR then Cut(env, live, f[1..], args)
    else
      ArgLen(env, live, f[1], args[0]) - |ArgText(env, live, f[1], args[0])| + Cut(env, live, f[2..], args[1..])
  }

  /** The measured length is the text and what is cut, which is nothing just when every inserted stash is zero-free. */
  lemma {:induction false} MeasureIsExact(env: Env, live: map<byte, Live>, f: seq<byte>, args: seq<word>)
    requires ArgsOk(env, live, f, args)
    ensures Measure(env, live, f, args) == |Expand(env, live, f, args)| + Cut(env, live, f, args)
    ensures Cut(env, live, f, args) == 0 <==> ZeroFree(env, live, f, args)
    decreases |f|
  {
    if f == [] {
    } else if f[0] != DOLLAR {
      MeasureIsExact(env, live, f[1..], args);
    } else {
      MeasureIsExact(env, live, f[2..], args[1..]);
    }
  }

  /**
    What `prepare` records and `length` returns is the measured length in 16 bits. It is the length of the
    text exactly if that is below 65536 and a multiple of 65536 bytes is cut: none, when the measured length
    is below 65536.
   */
  lemma RecordedLengthIsExact(env: Env, live: map<byte, Live>, f: seq<byte>, args: seq<word>)
    requires ArgsOk(env, live, f, args)
    ensures var text, measured, cut :=
              Expand(env, live, f, args), Measure(env, live, f, args), Cut(env, live, f, args);
            var n := measured % 0x1_0000;
            && (n == |text| <==> |text| < 0x1_0000 && cut % 0x1_0000 == 0)
            && (measured < 0x1_0000 ==> (n == |text| <==> ZeroFree(env, live, f, args)))
            && (ZeroFree(env, live, f, args) ==> (n == |text| <==> measured < 0x1_0000))
  {
    MeasureIsExact(env, live, f, args);
    var text, cut := |Expand(env, live, f, args)|, Cut(env, live, f, args);
    hide Measure, Expand, ZeroFree, Cut;
    SumIn16Bits(text, cut);
  }

  lemma SumIn16Bits(text: nat, cut: nat)
    ensures (text + cut) % 0x1_0000 == text <==> text < 0x1_0000 && cut % 0x1_0000 == 0
  {
    var q := cut / 0x1_0000;
    assert cut == 0x1_0000 * q + cut % 0x1_0000;
  }

  /** A format that inserts a saved stash holding one zero byte: one byte is counted, none emitted. */
  lemma ZeroByteIsCounted(env: Env, live: map<byte, Live>, fd: byte)
    requires fd in live && live[fd].saved && live[fd].data == [0]
    ensures var f, args := [DOLLAR, STASH], [fd];
            && ArgsOk(env, live, f, args)
            && Measure(env, live, f, args) == 1 && Expand(env, live, f, args) == []
  {
    var f, args: seq<word> := [DOLLAR, STASH], [fd];
    assert f[2..] == [];
    assert UpToZero([0]) == [];
  }

  /** How the parts of a format shrink when its first literal, or its first specifier, is consumed. */
  lemma FormatStep(env: Env, live: map<byte, Live>, f: seq<byte>, args: seq<word>)
    requires ArgsOk(env, live, f, args)
    ensures f == [] ==> Args(f) == 0 && Measure(env, live, f, args) == 0 && Expand(env, live, f, args) == []
    ensures f != [] && f[0] != DOLLAR ==>
              && ArgsOk(env, live, f[1..], args) && Args(f) == Args(f[1..])
              && Measure(env, live, f, args) == 1 + Measure(env, live, f[1..], args)
              && Cut(env, live, f, args) == Cut(env, live, f[1..], args)
              && Expand(env, live, f, args) == [f[0]] + Expand(env, live, f[1..], args)
    ensures f != [] && f[0] == DOLLAR ==>
              && |f| >= 2 && |args| > 0 && ArgOk(env, live, f[1], args[0])
              && ArgsOk(env, live, f[2..], args[1..]) && Args(f) == 1 + Args(f[2..])
              && Measure(env, live, f, args) == ArgLen(env, live, f[1], args[0]) + Measure(env, live, f[2..], args[1..])
              && Expand(env, live, f, args) == ArgText(env, live, f[1], args[0]) + Expand(env, live, f[2..], args[1..])
  {
  }

  /** A format that inserts arguments of one kind `n` times, then goes on with `rest`; and its arguments. */
  function Again(spec: byte, n: nat, rest: seq<byte>): seq<byte> {
    if n == 0 then rest else [DOLLAR, spec] + Again(spec, n - 1, rest)
  }

  function AgainArgs(arg: word, n: nat, rest: seq<word>): (args: seq<word>)
    ensures |args| == n + |rest|
  {
    if n == 0 then rest else [arg] + AgainArgs(arg, n - 1, rest)
  }

  lemma {:induction false} AgainAdds(env: Env, live: map<byte, Live>, spec: byte, arg: word, n: nat,
                                     f: seq<byte>, args: seq<word>)
    requires ArgOk(env, live, spec, arg) && ArgsOk(env, live, f, args)
    ensures var f', args' := Again(spec, n, f), AgainArgs(arg, n, args);
            && ArgsOk(env, live, f', args')
            && Measure(env, live, f', args') == n * ArgLen(env, live, spec, arg) + Measure(env, live, f, args)
            && |Expand(env, live, f', args')| ==
               n * |ArgText(env, live, spec, arg)| + |Expand(env, live, f, args)|
    decreases n
  {
    hide ArgsOk, ArgOk, ArgLen, ArgText, Measure, Expand;
    if n > 0 {
      AgainAdds(env, live, spec, arg, n - 1, f, args);
      OneArgument(env, live, spec, arg, Again(spec, n - 1, f), AgainArgs(arg, n - 1, args));
      Times(n, ArgLen(env, live, spec, arg));
      Times(n, |ArgText(env, live, spec, arg)|);
    }
  }

  lemma OneArgument(env: Env, live: map<byte, Live>, spec: byte, arg: word, f: seq<byte>, args: seq<word>)
    requires ArgOk(env, live, spec, arg) && ArgsOk(env, live, f, args)
    ensures var f', args' := [DOLLAR, spec] + f, [arg] + args;
            && ArgsOk(env, live, f', args')
            && Measure(env, live, f', args') == ArgLen(env, live, spec, arg) + Measure(env, live, f, args)
            && |Expand(env, live, f', args')| == |ArgText(env, live, spec, arg)| + |Expand(env, live, f, args)|
  {
    var f', args' := [DOLLAR, spec] + f, [arg] + args;
    assert f'[2..] == f && args'[1..] == args;
    hide ArgOk, ArgLen, ArgText;
  }

  lemma Times(n: nat, a: nat)
    requires n > 0
    ensures n * a == a + (n - 1) * a
  {
  }

  /** A string of 2200 characters inserted 30 times: 464 bytes are recorded for a text of 66000. */
  lemma LongTextOverflows(ram: seq<byte>, eeprom: seq<byte>, live: map<byte, Live>)
    ensures var env := Env(seq(2200, _ => 120) + [0], ram, eeprom);
            var f, args := Again(FLASH, 30, []), AgainArgs(0, 30, []);
            && ArgsOk(env, live, f, args) && ZeroFree(env, live, f, args)
            && |Expand(env, live, f, args)| == 66000 && Measure(env, live, f, args) % 0x1_0000 == 464
  {
    var long: seq<byte> := seq(2200, _ => 120);
    var env := Env(long + [0], ram, eeprom);
    CStrIs(env.flash, 0, long);
    AgainAdds(env, live, FLASH, 0, 30, [], []);
    MeasureIsExact(env, live, Again(FLASH, 30, []), AgainArgs(0, 30, []));
    hide ZeroFree, Cut, CStr, Again, AgainArgs;
  }

  lemma StashOfZeros(env: Env, live: map<byte, Live>, fd: byte, n: nat)
    requires n > 0 && fd in live && live[fd].saved && live[fd].data == seq(n, _ => 0)
    ensures ArgOk(env, live, STASH, fd) && ArgLen(env, live, STASH, fd) == n && ArgText(env, live, STASH, fd) == []
  {
  }

  lemma EmptyFormat(env: Env, live: map<byte, Live>)
    ensures ArgsOk(env, live, [], []) && Measure(env, live, [], []) == 0 && Expand(env, live, [], []) == []
    ensures Cut(env, live, [], []) == 0 && ZeroFree(env, live, [], [])
  {
  }

  /** Two stashes of zeros, inserted 28 times and twice: 65536 bytes are cut, and the recorded length 0 is right. */
  lemma ZerosMakeUpForTheOverflow(env: Env, live: map<byte, Live>, fd: byte, fd': byte)
    requires fd in live && live[fd].saved && live[fd].data == seq(2300, _ => 0)
    requires fd' in live && live[fd'].saved && live[fd'].data == seq(568, _ => 0)
    ensures var f := Again(STASH, 28, Again(STASH, 2, []));
            var args := AgainArgs(fd, 28, AgainArgs(fd', 2, []));
            && ArgsOk(env, live, f, args) && Measure(env, live, f, args) == 0x1_0000
            && Cut(env, live, f, args) == 0x1_0000 && Expand(env, live, f, args) == []
  {
    var f, args := Again(STASH, 2, []), AgainArgs(fd', 2, []);
    StashOfZeros(env, live, fd, 2300);
    StashOfZeros(env, live, fd', 568);
    EmptyFormat(env, live);
    hide ArgsOk, ArgOk, ArgLen, ArgText, Measure, Expand, Again, AgainArgs, Cut, ZeroFree;
    AgainAdds(env, live, STASH, fd', 2, [], []);
    AgainAdds(env, live, STASH, fd, 28, f, args);
    MeasureIsExact(env, live, Again(STASH, 28, f), AgainArgs(fd, 28, args));
  }

  // ---------- the format language in character codes ----------

  /** `D` is a number in decimal, `S`, `F` and `E` a string in one of the memories, `H` a stash up to its first zero. */
  lemma ArgumentText(env: Env, live: map<byte, Live>, arg: word, spec: byte)
    requires ArgOk(env, live, spec, arg)
    ensures var text := ArgText(env, live, spec, arg);
            && (spec == 68 ==> text == Decimal(arg))
            && (spec == 83 ==> text == CStr(env.ram, arg))
            && (spec == 70 ==> text == CStr(env.flash, arg))
            && (spec == 69 ==> text == CStr(env.eeprom, arg))
            && (spec == 72 ==> text == UpToZero(live[arg % 256].data))
            && (spec !in {68, 83, 70, 69, 72} ==> text == [])
  {
  }

  /** A `$` and the character behind it stand for the next argument, any other character for itself. */
  lemma ExpandsCharacters(env: Env, live: map<byte, Live>, c: byte, f: seq<byte>, arg: word, args: seq<word>)
    ensures c != 36 && ArgsOk(env, live, f, args) ==>
              ArgsOk(env, live, [c] + f, args) &&
              Expand(env, live, [c] + f, args) == [c] + Expand(env, live, f, args)
    ensures ArgOk(env, live, c, arg) && ArgsOk(env, live, f, args) ==>
              ArgsOk(env, live, [36, c] + f, [arg] + args) &&
              Expand(env, live, [36, c] + f, [arg] + args) ==
              ArgText(env, live, c, arg) + Expand(env, live, f, args)
    ensures Expand(env, live, [], args) == []
  {
    if c != 36 && ArgsOk(env, live, f, args) {
      assert ([c] + f)[1..] == f;
    }
    if ArgOk(env, live, c, arg) && ArgsOk(env, live, f, args) {
      assert ([36, c] + f)[2..] == f && ([arg] + args)[1..] == args;
    }
  }

  // ---------- windows ----------

  /** The part of a text that `extract(offset, count)` emits; the end of the window is a 16-bit sum. */
  function Window(e: seq<byte>, offset: word, count: word): seq<byte> {
    var limit := Min((offset + count) % 0x1_0000, |e|);
    if offset < limit then e[offset..limit] else []
  }

  /** Consecutive windows join up, and one window of the full length is the whole text. */
  lemma WindowsJoin(e: seq<byte>, offset: word, a: word, b: word)
    requires offset + a + b < 0x1_0000
    ensures Window(e, offset, a) + Window(e, offset + a, b) == Window(e, offset, a + b)
    ensures |e| < 0x1_0000 ==> Window(e, 0, |e|) == e
  {
    WindowIs(e, offset, a);
    WindowIs(e, offset + a, b);
    WindowIs(e, offset, a + b);
    if |e| < 0x1_0000 {
      WindowIs(e, 0, |e|);
    }
    hide Window;
  }

  /** A window whose end is past 65535 comes out empty. */
  lemma WrappedWindowIsEmpty(e: seq<byte>, offset: word, count: word)
    requires offset + count >= 0x1_0000
    ensures Window(e, offset, count) == []
  {
  }

  lemma WindowIs(e: seq<byte>, offset: word, count: word)
    requires offset + count < 0x1_0000
    ensures Window(e, offset, count) == e[Min(offset, |e|)..Min(offset + count, |e|)]
  {
  }
}
