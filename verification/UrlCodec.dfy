/** URL encoding, and decoding in place. */
module UrlCodec {
  import opened CStrings
  import opened Machine

  const SPACE: byte := 32
  const PLUS: byte := 43
  const PERCENT: byte := 37

  predicate IsAlnum(c: byte) {
    48 <= c <= 57 || 65 <= c <= 90 || 97 <= c <= 122
  }

  /** One hexadecimal digit, in lower case. */
  function HexDigit(n: int): byte
    requires 0 <= n < 16
  {
    if n > 9 then n - 10 + 97 else n + 48
  }

  predicate IsHexDigit(c: byte) {
    48 <= c <= 57 || 97 <= c <= 102 || 65 <= c <= 70
  }

  /** The value of a hexadecimal digit of either case; 0 for anything else. */
  function HexValue(c: byte): (n: int)
    ensures 0 <= n < 16
  {
    if 48 <= c <= 57 then c - 48 else if 97 <= c <= 102 then c - 97 + 10 else if 65 <= c <= 70 then c - 65 + 10 else 0
  }

  /** It is the number whose digit this is, in lower or upper case, and 0 for no digit at all. */
  lemma HexValueReads(c: byte)
    ensures 48 <= c <= 57 || 97 <= c <= 102 ==> HexDigit(HexValue(c)) == c
    ensures 65 <= c <= 70 ==> HexDigit(HexValue(c)) == c + 32
    ensures HexValue(c) == 0 <==> c == 48 || !IsHexDigit(c)
  {
  }

  /** The byte with the two given hexadecimal digits. */
  function HexByte(high: byte, low: byte): byte {
    HexValue(high) * 16 + HexValue(low)
  }

  function EncodeByte(c: byte): seq<byte> {
    if c == SPACE then [PLUS]
    else if IsAlnum(c) then [c]
    else [PERCENT, HexDigit(c / 16), HexDigit(c % 16)]
  }

  function Encode(s: seq<byte>): seq<byte> {
    if s == [] then [] else EncodeByte(s[0]) + Encode(s[1..])
  }

  /** Every percent sign has two characters after it. */
  predicate WellFormed(s: seq<byte>) {
    if s == [] then true
    else if s[0] == PERCENT then |s| >= 3 && WellFormed(s[3..])
    else WellFormed(s[1..])
  }

  function Decode(s: seq<byte>): (d: seq<byte>)
    requires WellFormed(s)
    ensures |d| <= |s|
  {
    if s == [] then []
    else if s[0] == PLUS then [SPACE] + Decode(s[1..])
    else if s[0] == PERCENT then [HexByte(s[1], s[2])] + Decode(s[3..])
    else [s[0]] + Decode(s[1..])
  }

  /** A character that may stand in a URL unescaped, or belongs to an escape. */
  predicate UrlSafe(c: byte) {
    IsAlnum(c) || c == PLUS || c == PERCENT
  }

  /** Letters and digits stand for themselves, a plus sign for a space, `%` and two digits for anything else. */
  lemma EncodedByteInNumbers(c: byte)
    ensures 48 <= c <= 57 || 65 <= c <= 90 || 97 <= c <= 122 ==> EncodeByte(c) == [c]
    ensures c == 32 ==> EncodeByte(c) == [43]
    ensures c != 32 && !(48 <= c <= 57 || 65 <= c <= 90 || 97 <= c <= 122) ==>
              var e := EncodeByte(c);
              && |e| == 3 && e[0] == 37
              && e[1] == (if c < 160 then c / 16 + 48 else c / 16 + 87)
              && e[2] == (if c % 16 < 10 then c % 16 + 48 else c % 16 + 87)
  {
  }

  /** And back: 43 is a space, 37 takes two digits, upper or lower case, any other character stands for itself. */
  lemma DecodesCharacters(c: byte, high: byte, low: byte, rest: seq<byte>)
    requires WellFormed(rest)
    ensures Decode([43] + rest) == [32] + Decode(rest)
    ensures c != 43 && c != 37 ==> Decode([c] + rest) == [c] + Decode(rest)
    ensures WellFormed([37, high, low] + rest)
    ensures Decode([37, high, low] + rest) == [HexValue(high) * 16 + HexValue(low)] + Decode(rest)
  {
    assert ([43] + rest)[1..] == rest && ([c] + rest)[1..] == rest && ([37, high, low] + rest)[3..] == rest;
  }

  lemma DecodeEncodedByte(c: byte, rest: seq<byte>)
    requires WellFormed(rest)
    ensures WellFormed(EncodeByte(c) + rest) && Decode(EncodeByte(c) + rest) == [c] + Decode(rest)
  {
    HexDigitsRead(c);
    hide HexDigit, HexByte;
    var e := EncodeByte(c);
    assert (e + rest)[|e|..] == rest;
  }

  lemma HexDigitsRead(c: byte)
    ensures HexByte(HexDigit(c / 16), HexDigit(c % 16)) == c
  {
    HexDigitReads(c / 16);
    HexDigitReads(c % 16);
    hide HexDigit, HexValue;
  }

  lemma HexDigitReads(n: int)
    requires 0 <= n < 16
    ensures HexValue(HexDigit(n)) == n
  {
  }

  lemma EncodedByteIsSafe(c: byte)
    ensures 1 <= |EncodeByte(c)| <= 3 && forall i :: 0 <= i < |EncodeByte(c)| ==> UrlSafe(EncodeByte(c)[i])
  {
  }

  /** Decoding undoes encoding; the encoding is safe, zero-free and at most three times as long. */
  lemma {:induction false} DecodeUndoesEncode(s: seq<byte>)
    ensures WellFormed(Encode(s)) && Decode(Encode(s)) == s
    ensures |Encode(s)| <= 3 * |s|
    ensures forall i :: 0 <= i < |Encode(s)| ==> UrlSafe(Encode(s)[i])
  {
    assert WellFormed([]) && Decode([]) == [];
    hide EncodeByte, Decode, WellFormed, UrlSafe;
    if s != [] {
      DecodeUndoesEncode(s[1..]);
      DecodeEncodedByte(s[0], Encode(s[1..]));
      EncodedByteIsSafe(s[0]);
    }
  }

  /** Two strings with the same encoding are the same. */
  lemma EncodeIsInjective(s: seq<byte>, t: seq<byte>)
    requires Encode(s) == Encode(t)
    ensures s == t
  {
    DecodeUndoesEncode(s);
    DecodeUndoesEncode(t);
  }

  // ---------------------------------------------------------------- decoding in memory

  /** How far the character at `a` takes the decoder. */
  function Taken(mem: seq<byte>, a: nat): nat
    requires a < |mem|
  {
    if mem[a] == PERCENT then 3 else 1
  }

  /** Started at `a`, the decoder comes to a zero before it leaves the memory. */
  predicate Ends(mem: seq<byte>, a: nat): (e: bool)
    ensures e ==> a < |mem|
    decreases |mem| - a
  {
    a < |mem| && (mem[a] == 0 || Ends(mem, a + Taken(mem, a)))
  }

  /** Where that zero is. */
  function EndOf(mem: seq<byte>, a: nat): (z: nat)
    requires Ends(mem, a)
    ensures a <= z < |mem| && mem[z] == 0
    decreases |mem| - a
  {
    if mem[a] == 0 then a else EndOf(mem, a + Taken(mem, a))
  }

  /** The character the decoder makes of what it takes. */
  function CharAt(mem: seq<byte>, a: nat): byte
    requires a < |mem| && a + Taken(mem, a) < |mem|
  {
    if mem[a] == PERCENT then HexByte(mem[a + 1], mem[a + 2]) else if mem[a] == PLUS then SPACE else mem[a]
  }

  /** All it makes until it comes to that zero. */
  function DecodeAt(mem: seq<byte>, a: nat): seq<byte>
    requires Ends(mem, a)
    decreases |mem| - a
  {
    if mem[a] == 0 then [] else [CharAt(mem, a)] + DecodeAt(mem, a + Taken(mem, a))
  }

  /**
    The decoder stops at the terminator of its string, and makes of the string what it stands for, exactly if
    every percent sign has two characters after it. Otherwise it goes on behind the terminator.
   */
  lemma {:induction false} StopsAtTheTerminatorIff(mem: seq<byte>, a: nat)
    requires Terminated(mem, a)
    ensures WellFormed(CStr(mem, a)) <==> Ends(mem, a) && EndOf(mem, a) == a + |CStr(mem, a)|
    ensures WellFormed(CStr(mem, a)) ==> DecodeAt(mem, a) == Decode(CStr(mem, a))
    ensures !WellFormed(CStr(mem, a)) && Ends(mem, a) ==> EndOf(mem, a) > a + |CStr(mem, a)|
    decreases |mem| - a
  {
    var s := CStr(mem, a);
    if mem[a] == PERCENT {
      CStrStep(mem, a);
      if mem[a + 1] != 0 {
        CStrStep(mem, a + 1);
        if mem[a + 2] != 0 {
          CStrStep(mem, a + 2);
          assert s[3..] == CStr(mem, a + 3);
          hide CStr, HexByte, Terminated;
          StopsAtTheTerminatorIff(mem, a + 3);
        }
      }
    } else if mem[a] != 0 {
      CStrStep(mem, a);
      assert s[1..] == CStr(mem, a + 1);
      hide CStr, HexByte, Terminated;
      StopsAtTheTerminatorIff(mem, a + 1);
    }
  }

  /** A string of one percent sign is decoded to two characters, made of what lies behind it. */
  lemma CutEscapeReadsOn()
    ensures var mem := [PERCENT, 0, 52, 49, 0];
            && Terminated(mem, 0) && CStr(mem, 0) == [PERCENT]
            && Ends(mem, 0) && EndOf(mem, 0) == 4 && DecodeAt(mem, 0) == [4, 49]
  {
    var mem: seq<byte> := [PERCENT, 0, 52, 49, 0];
    assert mem[1] == 0;
    CStrIs(mem, 0, [PERCENT]);
    assert Ends(mem, 4) && DecodeAt(mem, 4) == [] && EndOf(mem, 4) == 4;
    assert Ends(mem, 3) && DecodeAt(mem, 3) == [49] && EndOf(mem, 3) == 4;
  }

  /** How the buffer stands when `src` has been read up to and `dst` written up to. */
  ghost predicate Decoding(before: seq<byte>, now: seq<byte>, src: nat, dst: nat) {
    && dst <= src < |before| == |now| && Ends(before, src) && Ends(before, 0)
    && now[dst..] == before[dst..]
    && now[..dst] + DecodeAt(before, src) == DecodeAt(before, 0)
  }

  /** The writer never overtakes the reader: each turn reads characters nobody has overwritten. */
  lemma DecodingStep(before: seq<byte>, now: seq<byte>, src: nat, dst: nat)
    requires Decoding(before, now, src, dst) && now[src] != 0
    ensures src + Taken(now, src) < |now| && dst + 1 <= src + Taken(now, src)
    ensures Decoding(before, now[dst := CharAt(now, src)], src + Taken(now, src), dst + 1)
  {
    assert forall i :: src <= i < |now| ==> now[i] == now[dst..][i - dst] == before[i];
    hide HexByte;
    var c, rest := CharAt(now, src), DecodeAt(before, src + Taken(now, src));
    assert now[..dst] + ([c] + rest) == now[dst := c][..dst + 1] + rest;
    assert now[dst := c][dst + 1..] == now[dst..][1..] == before[dst + 1..];
  }

  /** At the zero everything has been decoded, and there is room for a terminator. */
  lemma DecodingDone(before: seq<byte>, now: seq<byte>, src: nat, dst: nat)
    requires Decoding(before, now, src, dst) && now[src] == 0
    ensures now[dst := 0] == DecodeAt(before, 0) + [0] + before[dst + 1..] && dst == |DecodeAt(before, 0)|
  {
    assert before[src] == before[dst..][src - dst] == now[dst..][src - dst] == 0;
    assert DecodeAt(before, src) == [];
    hide DecodeAt, Ends;
    assert now[dst + 1..] == now[dst..][1..] == before[dst + 1..];
    assert now[dst := 0] == now[..dst] + [0] + now[dst + 1..];
  }

  /** Decodes the string at the start of a buffer in place. */
  method UrlDecode(urlbuf: array<byte>)
    requires Ends(urlbuf[..], 0)
    modifies urlbuf
    ensures var d := DecodeAt(old(urlbuf[..]), 0);
            |d| < urlbuf.Length && urlbuf[..] == d + [0] + old(urlbuf[|d| + 1..])
  {
    ghost var before := urlbuf[..];
    var src: nat, dst: nat := 0, 0;
    assert Decoding(before, urlbuf[..], src, dst) by {
      assert urlbuf[..0] + DecodeAt(before, 0) == DecodeAt(before, 0);
    }
    hide Ends, DecodeAt, HexValue, HexByte, Decoding;
    while urlbuf[src] != 0
      invariant dst <= src < urlbuf.Length
      invariant Decoding(before, urlbuf[..], src, dst)
      decreases urlbuf.Length - src
    {
      DecodingStep(before, urlbuf[..], src, dst);
      ghost var now := urlbuf[..];
      var c := urlbuf[src];
      if c == PLUS {
        c := SPACE;
      }
      if c == PERCENT {
        src := src + 1;
        c := urlbuf[src];
        src := src + 1;
        c := HexByte(c, urlbuf[src]);
      }
      urlbuf[dst] := c;
      assert urlbuf[..] == now[dst := c];
      dst := dst + 1;
      src := src + 1;
    }
    DecodingDone(before, urlbuf[..], src, dst);
    ghost var now := urlbuf[..];
    urlbuf[dst] := 0;
    assert urlbuf[..] == now[dst := 0];
  }

  // ---------------------------------------------------------------- encoding in memory

  /** A memory with the two digits of a byte, and a terminator, at `at`. */
  function WithHex(mem: seq<byte>, at: nat, c: byte): seq<byte>
    requires at + 2 < |mem|
  {
    mem[..at] + [HexDigit(c / 16), HexDigit(c % 16), 0] + mem[at + 3..]
  }

  /** Writes the two digits of a byte and a terminator. */
  method Int2H(c: byte, hstr: array<byte>, at: nat)
    requires at + 2 < hstr.Length
    modifies hstr
    ensures hstr[..] == WithHex(old(hstr[..]), at, c)
  {
    hstr[at + 1] := c % 16 + 48;
    if c % 16 > 9 {
      hstr[at + 1] := c % 16 - 10 + 97;
    }
    var high := c / 16;
    hstr[at] := high + 48;
    if high > 9 {
      hstr[at] := high - 10 + 97;
    }
    hstr[at + 2] := 0;
  }

  /** How the output stands when `src` has been read up to and `dst` written up to. */
  ghost predicate Encoding(str: seq<byte>, was: seq<byte>, now: seq<byte>, src: nat, dst: nat) {
    && Terminated(str, src) && Terminated(str, 0)
    && |now| == |was| && dst + |Encode(CStr(str, src))| < |now|
    && now[..dst] + Encode(CStr(str, src)) == Encode(CStr(str, 0))
    && now[dst + 1..] == was[dst + 1..]
  }

  lemma EncodingHasRoom(str: seq<byte>, was: seq<byte>, now: seq<byte>, src: nat, dst: nat)
    requires Encoding(str, was, now, src, dst) && str[src] != 0
    ensures src + 1 < |str| && dst + |EncodeByte(str[src])| < |now|
    ensures Encode(CStr(str, src)) == EncodeByte(str[src]) + Encode(CStr(str, src + 1))
  {
    hide EncodeByte;
    CStrStep(str, src);
    assert CStr(str, src)[1..] == CStr(str, src + 1);
  }

  lemma EncodingStep(str: seq<byte>, was: seq<byte>, now: seq<byte>, next: seq<byte>, src: nat, dst: nat)
    requires Encoding(str, was, now, src, dst) && str[src] != 0 && |next| == |now|
    requires var end := dst + |EncodeByte(str[src])|;
             end < |now| && next[..dst] == now[..dst] && next[dst..end] == EncodeByte(str[src]) &&
             next[end + 1..] == now[end + 1..]
    ensures Encoding(str, was, next, src + 1, dst + |EncodeByte(str[src])|)
  {
    EncodingHasRoom(str, was, now, src, dst);
    CStrStep(str, src);
    hide EncodeByte, CStr, Encode, Terminated;
    var e, rest := EncodeByte(str[src]), Encode(CStr(str, src + 1));
    var end := dst + |e|;
    assert next[..end] == now[..dst] + e;
    assert now[..dst] + (e + rest) == next[..end] + rest;
    assert now[end + 1..] == now[dst + 1..][end - dst..] == was[dst + 1..][end - dst..] == was[end + 1..];
  }

  lemma EncodingPlain(str: seq<byte>, was: seq<byte>, now: seq<byte>, src: nat, dst: nat)
    requires Encoding(str, was, now, src, dst) && str[src] != 0 && |EncodeByte(str[src])| == 1
    ensures src + 1 < |str| && dst + 1 < |now|
    ensures Encoding(str, was, now[dst := EncodeByte(str[src])[0]], src + 1, dst + 1)
  {
    EncodingHasRoom(str, was, now, src, dst);
    EncodingStep(str, was, now, now[dst := EncodeByte(str[src])[0]], src, dst);
  }

  lemma EncodingEscape(str: seq<byte>, was: seq<byte>, now: seq<byte>, src: nat, dst: nat)
    requires Encoding(str, was, now, src, dst) && str[src] != 0 && |EncodeByte(str[src])| != 1
    ensures src + 1 < |str| && dst + 3 < |now|
    ensures Encoding(str, was, WithHex(now[dst := PERCENT], dst + 1, str[src]), src + 1, dst + 3)
  {
    EncodingHasRoom(str, was, now, src, dst);
    var next := WithHex(now[dst := PERCENT], dst + 1, str[src]);
    assert next[..dst] == now[..dst];
    assert next[dst..dst + 3] == EncodeByte(str[src]);
    assert next[dst + 4..] == now[dst + 4..];
    EncodingStep(str, was, now, next, src, dst);
  }

  lemma EncodingDone(str: seq<byte>, was: seq<byte>, now: seq<byte>, src: nat, dst: nat)
    requires Encoding(str, was, now, src, dst) && str[src] == 0
    ensures dst < |now| && now[dst := 0] == Encode(CStr(str, 0)) + [0] + was[|Encode(CStr(str, 0))| + 1..]
  {
    assert Encode(CStr(str, src)) == [];
    hide CStr, Encode, Terminated;
    assert now == now[..dst] + [now[dst]] + now[dst + 1..];
  }

  lemma EncodingStart(str: seq<byte>, was: seq<byte>)
    requires Terminated(str, 0) && |Encode(CStr(str, 0))| < |was|
    ensures Encoding(str, was, was, 0, 0)
  {
    assert was[..0] + Encode(CStr(str, 0)) == Encode(CStr(str, 0));
  }

  /** Encodes a string into a buffer that has room for it and its terminator. */
  method UrlEncode(str: array<byte>, urlbuf: array<byte>)
    requires str != urlbuf
    requires Terminated(str[..], 0) && |Encode(CStr(str[..], 0))| < urlbuf.Length
    modifies urlbuf
    ensures var e := Encode(CStr(str[..], 0));
            urlbuf[..] == e + [0] + old(urlbuf[|e| + 1..])
  {
    ghost var text, was := str[..], urlbuf[..];
    var src: nat, dst: nat := 0, 0;
    EncodingStart(text, was);
    hide CStr, Encode, Terminated, Encoding, WithHex;
    while str[src] != 0
      invariant src < str.Length && text == str[..]
      invariant Encoding(text, was, urlbuf[..], src, dst)
      decreases str.Length - src
    {
      ghost var now := urlbuf[..];
      var c := str[src];
      if c == SPACE || IsAlnum(c) {
        EncodingPlain(text, was, now, src, dst);
        if c == SPACE {
          c := PLUS;
        }
        urlbuf[dst] := c;
        assert urlbuf[..] == now[dst := c];
        src := src + 1;
        dst := dst + 1;
        continue;
      }
      EncodingEscape(text, was, now, src, dst);
      urlbuf[dst] := PERCENT;
      assert urlbuf[..] == now[dst := PERCENT];
      Int2H(c, urlbuf, dst + 1);
      dst := dst + 3;
      src := src + 1;
    }
    ghost var now := urlbuf[..];
    EncodingDone(text, was, now, src, dst);
    urlbuf[dst] := 0;
    assert urlbuf[..] == now[dst := 0];
  }

  /** A client's round trip: the buffer a string was encoded into ends, decoded in place, as that string. */
  method EncodeAndDecode(str: array<byte>, urlbuf: array<byte>)
    requires str != urlbuf
    requires Terminated(str[..], 0) && |Encode(CStr(str[..], 0))| < urlbuf.Length
    modifies urlbuf
    ensures var s := CStr(str[..], 0);
            |s| < urlbuf.Length && urlbuf[..|s|] == s && urlbuf[|s|] == 0
  {
    ghost var s, e := CStr(str[..], 0), Encode(CStr(str[..], 0));
    UrlEncode(str, urlbuf);
    assert 0 !in e by {
      DecodeUndoesEncode(s);
    }
    CStrIs(urlbuf[..], 0, e);
    DecodeUndoesEncode(s);
    StopsAtTheTerminatorIff(urlbuf[..], 0);
    hide *;
    UrlDecode(urlbuf);
    assert urlbuf[..][..|s|] == s && urlbuf[..][|s|] == 0;
  }
}
