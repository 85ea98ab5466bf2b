/**
  Internet checksums, three ways: a 32-bit sum folded at the end (ethercard and etherShield), and a
  16-bit sum with end-around carry (UIPEthernet); and the in-place update of an echo reply.
 */
module Checksum {
  import opened Machine

  type dword = x: int | 0 <= x < 0x1_0000_0000

  const PROTO_TCP := 6
  const PROTO_UDP := 17

  // ---------- the sum itself ----------

  /** A big-endian 16-bit word. */
  function WordOf(hi: byte, lo: byte): word {
    0x100 * (hi as int) + (lo as int)
  }

  /** Sum of the big-endian 16-bit words of a byte string, a last odd byte counting as the high one. */
  function WordSum(d: seq<byte>): nat {
    if |d| == 0 then 0
    else if |d| == 1 then WordOf(d[0], 0)
    else WordOf(d[0], d[1]) + WordSum(d[2..])
  }

  /** The ones'-complement form of a sum: its residue modulo 65535, with 65535 rather than 0 for a non-zero sum. */
  function Folded(n: nat): word {
    if n == 0 then 0 else (n - 1) % 0xFFFF + 1
  }

  /** The example of RFC 1071, section 3: the words add up to 2ddf0, and fold to ddf2. */
  lemma WorkedExample()
    ensures var d := [0x00, 0x01, 0xF2, 0x03, 0xF4, 0xF5, 0xF6, 0xF7];
            WordSum(d) == 0x2DDF0 && Folded(WordSum(d)) == 0xDDF2
    ensures forall b: byte :: WordSum([b]) == 256 * b as int
  {
    var d: seq<byte> := [0x00, 0x01, 0xF2, 0x03, 0xF4, 0xF5, 0xF6, 0xF7];
    assert d[2..] == [0xF2, 0x03, 0xF4, 0xF5, 0xF6, 0xF7] && d[4..] == [0xF4, 0xF5, 0xF6, 0xF7];
    assert d[6..] == [0xF6, 0xF7] && d[2..][2..] == d[4..] && d[4..][2..] == d[6..] && d[6..][2..] == [];
  }

  /** Folding is addition-compatible, so partial sums may be folded at any point. */
  lemma FoldedAdds(a: nat, b: nat)
    ensures Folded(Folded(a) + b) == Folded(a + b)
  {
    if a > 0 {
      var q := (a - 1) / 0xFFFF;
      assert a + b == Folded(a) + b + q * 0xFFFF;
      FoldedPeriod(Folded(a) + b, q);
    }
  }

  lemma FoldedWord(w: word)
    ensures Folded(w) == w
  {
  }

  lemma {:induction false} FoldedPeriod(n: nat, q: nat)
    requires n > 0
    ensures Folded(n + q * 0xFFFF) == Folded(n)
  {
    if q > 0 {
      FoldedPeriod(n, q - 1);
      assert n + q * 0xFFFF == (n + (q - 1) * 0xFFFF) + 0xFFFF;
    }
  }

  /** Splitting a byte string at any even offset splits its sum. */
  lemma {:induction false} WordSumSplits(a: seq<byte>, b: seq<byte>)
    requires |a| % 2 == 0
    ensures WordSum(a + b) == WordSum(a) + WordSum(b)
  {
    if |a| == 0 {
      assert a + b == b;
    } else {
      WordSumSplits(a[2..], b);
      assert (a + b)[2..] == a[2..] + b;
    }
  }

  lemma {:induction false} WordSumBound(d: seq<byte>)
    ensures WordSum(d) <= (|d| + 1) / 2 * 0xFFFF
  {
    if |d| >= 2 {
      WordSumBound(d[2..]);
    }
  }

  /** Replacing one aligned word changes the sum by the difference. */
  lemma {:induction false} WordSumUpdate(d: seq<byte>, k: nat, hi: byte, lo: byte)
    requires k % 2 == 0 && k + 1 < |d|
    ensures WordSum(d[k := hi][k + 1 := lo]) == WordSum(d) - WordOf(d[k], d[k + 1]) + WordOf(hi, lo)
  {
    var d' := d[k := hi][k + 1 := lo];
    if k == 0 {
      assert d'[2..] == d[2..];
    } else {
      WordSumUpdate(d[2..], k - 2, hi, lo);
      assert d'[2..] == d[2..][k - 2 := hi][k - 1 := lo];
    }
  }

  // ---------- 32-bit sum, folded at the end ----------

  /** The final folding loop. */
  method Fold(start: dword) returns (sum: word)
    ensures sum == Folded(start)
  {
    var s: dword := start;
    while s / 0x1_0000 != 0
      invariant Folded(s) == Folded(start)
      decreases s
    {
      FoldStep(s);
      s := s % 0x1_0000 + s / 0x1_0000;
    }
    sum := s;
  }

  lemma FoldStep(s: nat)
    ensures Folded(s % 0x1_0000 + s / 0x1_0000) == Folded(s)
  {
    var t := s % 0x1_0000 + s / 0x1_0000;
    assert s == t + (s / 0x1_0000) * 0xFFFF;
    if s > 0 {
      FoldedPeriod(t, s / 0x1_0000);
    }
  }

  /** The running 32-bit sum of `d`: it cannot overflow, since a length fits in 16 bits. */
  method Sum32(d: seq<byte>, init: dword) returns (sum: dword)
    requires |d| < 0x1_0000 && init < 0x2_0000
    ensures sum == init + WordSum(d)
  {
    sum := init;
    var i := 0;
    WordSumBound(d);
    assert d[0..] == d;
    while |d| - i > 1
      invariant 0 <= i <= |d| && sum + WordSum(d[i..]) == init + WordSum(d)
    {
      assert d[i..][2..] == d[i + 2..];
      sum := sum + WordOf(d[i], d[i + 1]);
      i := i + 2;
    }
    if i < |d| {
      sum := sum + WordOf(d[i], 0);
    }
  }

  // ---------- 16-bit sum with end-around carry ----------

  /** Adds one word, carrying the overflow back in. */
  method AddWord(s: word, t: word) returns (sum: word)
    ensures sum == Folded(s + t)
  {
    sum := (s + t) % 0x1_0000;
    if sum < t {
      sum := (sum + 1) % 0x1_0000;
    }
  }

  /** UIPEthernet's chksum: agrees with folding the whole sum at the end. */
  method Chksum(init: word, d: seq<byte>) returns (sum: word)
    ensures sum == Folded(init + WordSum(d))
  {
    hide Folded, WordOf;
    sum := init;
    var i := 0;
    assert d[0..] == d;
    while i < |d| - 1
      invariant 0 <= i <= |d|
      invariant Folded(sum + WordSum(d[i..])) == Folded(init + WordSum(d))
    {
      assert d[i..][2..] == d[i + 2..];
      var t := WordOf(d[i], d[i + 1]);
      FoldedAdds(sum + t, WordSum(d[i + 2..]));
      sum := AddWord(sum, t);
      i := i + 2;
    }
    if i == |d| - 1 {
      sum := AddWord(sum, WordOf(d[i], 0));
    } else {
      FoldedWord(sum);
    }
  }

  // ---------- the three callers ----------

  /** etherShield's checksum: protocol and length added apart, result complemented. */
  method EtherShieldChecksum(buf: seq<byte>, type_: int) returns (ck: word)
    requires |buf| < 0x1_0000
    ensures type_ != 1 && type_ != 2 ==> ck == 0xFFFF - Folded(WordSum(buf))
    ensures |buf| >= 8 ==> ck == 0xFFFF - Folded(PseudoSum(type_, |buf|) + WordSum(buf))
    ensures (type_ == 1 || type_ == 2) && |buf| < 8 ==>
              ck == 0xFFFF - Folded(PseudoSum(type_, |buf|) + 0x1_0000 + WordSum(buf))
  {
    hide Folded, WordSum;
    var sum := 0;
    if type_ == 1 {
      sum := sum + PROTO_UDP;
      sum := sum + (|buf| - 8) % 0x1_0000;
    }
    if type_ == 2 {
      sum := sum + PROTO_TCP;
      sum := sum + (|buf| - 8) % 0x1_0000;
    }
    sum := Sum32(buf, sum);
    var folded := Fold(sum);
    ck := 0xFFFF - folded;
  }

  /** What protocol number and segment length add to the sum of a segment that starts at the IP addresses. */
  function PseudoSum(type_: int, len: nat): int {
    if type_ == 1 then PROTO_UDP + len - 8 else if type_ == 2 then PROTO_TCP + len - 8 else 0
  }

  /** UDP is protocol 17 and TCP 6; the length leaves out the two addresses. */
  lemma PseudoHeaderInNumbers(type_: int, len: nat)
    ensures PseudoSum(1, len) == 17 + (len - 8) && PseudoSum(2, len) == 6 + (len - 8)
    ensures type_ != 1 && type_ != 2 ==> PseudoSum(type_, len) == 0
  {
  }

  /** Fills in the checksum of gPB[off..off + len] at `dest`; the initial sum is a 16-bit expression. */
  method FillChecksum(gPB: array<byte>, dest: byte, off: byte, len: word, type_: int)
    requires off + len <= gPB.Length && dest + 1 < gPB.Length
    modifies gPB
    ensures var sum := Folded(PseudoSum(type_, len) % 0x1_0000 + WordSum(old(gPB[off..off + len])));
            gPB[..] == WithWord(old(gPB[..]), dest, 0xFFFF - sum)
    ensures FieldIsBlank(old(gPB[..]), dest, off, len) ==>
              Verifies(PseudoSum(type_, len) % 0x1_0000, gPB[off..off + len])
  {
    var init: word := PseudoSum(type_, len) % 0x1_0000;
    hide Folded, WordSum, PseudoSum, High, Low, Verifies;
    ghost var d: seq<byte> := gPB[off..off + len];
    var total := Sum32(gPB[off..off + len], init);
    var sum := Fold(total);
    var ck: word := 0xFFFF - sum;
    if FieldIsBlank(gPB[..], dest, off, len) {
      FilledVerifies(init, d, dest - off);
    }
    gPB[dest] := High(ck);
    gPB[dest + 1] := Low(ck);
    assert off <= dest && dest + 1 < off + len ==> gPB[off..off + len] == WithWord(d, dest - off, ck);
  }

  /** The checksum field lies zeroed within the segment, at an even offset. */
  ghost predicate FieldIsBlank(packet: seq<byte>, dest: int, off: int, len: int) {
    && 0 <= off <= dest && dest + 1 < off + len <= |packet| && (dest - off) % 2 == 0
    && packet[dest] == 0 == packet[dest + 1]
  }

  function High(w: word): byte {
    w / 0x100
  }

  function Low(w: word): byte {
    w % 0x100
  }

  lemma BytesOfWord(w: word)
    ensures WordOf(High(w), Low(w)) == w && WordOf(0, 0) == 0
  {
    var h, l := w / 0x100, w % 0x100;
    assert w == 0x100 * h + l;
  }

  /** A byte string with word `w` stored at `k`. */
  function WithWord(d: seq<byte>, k: nat, w: word): seq<byte>
    requires k + 1 < |d|
  {
    d[k := High(w)][k + 1 := Low(w)]
  }

  lemma WordSumWithWord(d: seq<byte>, k: nat, w: word)
    requires k % 2 == 0 && k + 1 < |d| && d[k] == 0 && d[k + 1] == 0
    ensures WordSum(WithWord(d, k, w)) == WordSum(d) + w
  {
    hide WordSum, WordOf, High, Low;
    WordSumUpdate(d, k, High(w), Low(w));
    BytesOfWord(w);
  }

  /** A segment verifies when it sums, with its pseudo-header, to all ones. */
  predicate Verifies(init: nat, d: seq<byte>) {
    Folded(init + WordSum(d)) == 0xFFFF
  }

  /** Whatever the data, the checksum of a segment with a zeroed field makes the segment verify. */
  lemma FilledVerifies(init: nat, d: seq<byte>, k: nat)
    requires k % 2 == 0 && k + 1 < |d| && d[k] == 0 && d[k + 1] == 0
    ensures Verifies(init, WithWord(d, k, 0xFFFF - Folded(init + WordSum(d))))
  {
    hide Folded, WordSum, WithWord;
    var n := init + WordSum(d);
    var ck: word := 0xFFFF - Folded(n);
    WordSumWithWord(d, k, ck);
    FoldedAdds(n, ck);
    FoldedWord(0xFFFF);
  }

  /** Changing one aligned word goes unnoticed only between the two representations of zero. */
  lemma OneWordErrorDetected(init: nat, d: seq<byte>, k: nat, hi: byte, lo: byte)
    requires k % 2 == 0 && k + 1 < |d| && Verifies(init, d)
    requires init > 0 || exists j :: 0 <= j < |d| && j != k && j != k + 1 && d[j] != 0
    ensures Verifies(init, d[k := hi][k + 1 := lo]) <==>
            (WordOf(hi, lo) == WordOf(d[k], d[k + 1]) || {WordOf(hi, lo), WordOf(d[k], d[k + 1])} == {0, 0xFFFF})
  {
    WordSumUpdate(d, k, hi, lo);
    WordSumUpdate(d, k, 0, 0);
    var cleared := d[k := 0][k + 1 := 0];
    PositiveSum(cleared);
    if j :| 0 <= j < |d| && j != k && j != k + 1 && d[j] != 0 {
      assert cleared[j] != 0;
    }
    hide Folded, WordSum;
    var rest := init + WordSum(d) - WordOf(d[k], d[k + 1]);
    assert rest > 0;
    SumsToOnes(rest, WordOf(d[k], d[k + 1]));
    SumsToOnes(rest, WordOf(hi, lo));
  }

  lemma {:induction false} PositiveSum(d: seq<byte>)
    ensures WordSum(d) > 0 <==> exists j :: 0 <= j < |d| && d[j] != 0
  {
    if |d| >= 2 {
      PositiveSum(d[2..]);
      if j :| 0 <= j < |d| && d[j] != 0 && j >= 2 {
        assert d[2..][j - 2] != 0;
      }
      if j :| 0 <= j < |d[2..]| && d[2..][j] != 0 {
        assert d[j + 2] != 0;
      }
    }
  }

  /** A word completes a positive sum to all ones exactly when it is congruent to its complement. */
  lemma SumsToOnes(n: nat, w: word)
    requires n > 0
    ensures Folded(n + w) == 0xFFFF <==> w == 0xFFFF - Folded(n) || (w == 0xFFFF && Folded(n) == 0xFFFF)
  {
    FoldedAdds(n, w);
  }

  /** `htons` on a little-endian machine. */
  function Htons(w: word): (r: word)
    ensures [Low(r), High(r)] == [High(w), Low(w)]
  {
    w % 0x100 * 0x100 + w / 0x100
  }

  /** Header and payload summed apart, as UIPEthernet does, give the checksum of the whole segment, in network order. */
  method UpperLayerChksum(proto: byte, addresses: seq<byte>, header: seq<byte>, payload: seq<byte>) returns (sum: word)
    requires |addresses| % 2 == 0 && |header| % 2 == 0
    requires |header| + |payload| + proto < 0x1_0000
    ensures var n := |header| + |payload| + proto + WordSum(addresses + header + payload);
            sum == if Folded(n) == 0 then 0xFFFF else Htons(Folded(n))
  {
    hide Folded, Htons;
    var init := |header| + |payload| + proto;
    sum := Chksum(init, addresses);
    sum := Chksum(sum, header);
    FoldedAdds(init + WordSum(addresses), WordSum(header));
    WordSumSplits(addresses, header);
    if |payload| > 0 {
      sum := Chksum(sum, payload);
      FoldedAdds(init + WordSum(addresses + header), WordSum(payload));
    }
    WordSumSplits(addresses + header, payload);
    sum := if sum == 0 then 0xFFFF else Htons(sum);
  }

  // ---------- echo reply ----------

  const IP_P := 0x0E
  const IP_FLAGS_P := 0x14
  const IP_TTL_P := 0x16
  const IP_CHECKSUM_P := 0x18
  const IP_SRC_P := 0x1A
  const IP_DST_P := 0x1E
  const IP_HEADER_LEN := 20
  const ICMP_TYPE_P := 0x22
  const ICMP_CHECKSUM_P := 0x24
  const ICMP_ECHO_REQUEST := 8
  const ICMP_ECHO_REPLY := 0

  /** The edit of an ICMP message: new type, and 8 added to the high checksum byte, a carry bumping the low one. */
  function EchoReply(icmp: seq<byte>): (r: seq<byte>)
    requires |icmp| >= 4
    ensures |r| == |icmp|
  {
    var low := if icmp[2] > 0xFF - 0x08 then (icmp[3] as int + 1) % 0x100 else icmp[3];
    icmp[0 := ICMP_ECHO_REPLY][3 := low][2 := (icmp[2] as int + 8) % 0x100]
  }

  /** The edited message still verifies, except when the bump itself would have to carry. */
  lemma EchoReplyVerifies(icmp: seq<byte>)
    requires |icmp| >= 4 && icmp[0] == ICMP_ECHO_REQUEST && Verifies(0, icmp)
    ensures Verifies(0, EchoReply(icmp)) <==> !(icmp[2] > 0xF7 && icmp[3] == 0xFF)
  {
    EchoSum(icmp);
    hide Folded, WordSum, EchoReply;
    EchoArithmetic(WordSum(icmp), WordSum(EchoReply(icmp)), icmp[2], icmp[3]);
  }

  /** The edit takes 0x800 for the type and gives it back in the checksum, short of a carry or two. */
  lemma EchoSum(icmp: seq<byte>)
    requires |icmp| >= 4 && icmp[0] == ICMP_ECHO_REQUEST
    ensures var n, m := WordSum(icmp), WordSum(EchoReply(icmp));
            && m == (if icmp[2] <= 0xF7 then n else if icmp[3] < 0xFF then n - 0xFFFF else n - 0xFFFF - 0x100)
            && (icmp[2] > 0xF7 && icmp[3] < 0xFF ==> m > 0)
  {
    ReplySum(icmp);
    PositiveSum(EchoReply(icmp));
    ReplyFields(icmp);
    hide WordSum, EchoReply;
  }

  /** Byte by byte: type 0, 8 added to the high checksum byte and a carry to the low one, the rest as it was. */
  lemma ReplyFields(icmp: seq<byte>)
    requires |icmp| >= 4
    ensures var r := EchoReply(icmp);
            && r[0] == 0 && r[1] == icmp[1] && r[4..] == icmp[4..]
            && r[2] == (if icmp[2] <= 0xF7 then icmp[2] + 8 else icmp[2] - 0xF8)
            && r[3] == if icmp[2] <= 0xF7 then icmp[3] else if icmp[3] < 0xFF then icmp[3] + 1 else 0
  {
  }

  lemma ReplySum(icmp: seq<byte>)
    requires |icmp| >= 4 && icmp[0] == ICMP_ECHO_REQUEST
    ensures var r := EchoReply(icmp);
            WordSum(r) == WordSum(icmp) - 0x800 - WordOf(icmp[2], icmp[3]) + WordOf(r[2], r[3])
  {
    assert WordOf(0, icmp[1]) == WordOf(8, icmp[1]) - 0x800;
    hide WordSum, WordOf;
    var r := EchoReply(icmp);
    var typed: seq<byte> := icmp[0 := 0][1 := icmp[1]];
    WordSumUpdate(icmp, 0, 0, icmp[1]);
    WordSumUpdate(typed, 2, r[2], r[3]);
    var high: seq<byte> := typed[2 := r[2]];
    assert r == high[3 := r[3]];
  }

  /** A request whose reply loses the carry. */
  lemma CarryIsLost()
    ensures var icmp := [8, 0, 0xF8, 0xFF, 0xFE, 0xFF];
            icmp[0] == ICMP_ECHO_REQUEST && Verifies(0, icmp) && !Verifies(0, EchoReply(icmp))
  {
    var icmp: seq<byte> := [8, 0, 0xF8, 0xFF, 0xFE, 0xFF];
    assert icmp[2..] == [0xF8, 0xFF, 0xFE, 0xFF] && icmp[4..] == [0xFE, 0xFF];
    assert icmp[2..][2..] == icmp[4..] && icmp[4..][2..] == [];
    assert WordSum(icmp) == 0x800 + 0xF8FF + 0xFEFF;
    EchoReplyVerifies(icmp);
  }

  /** The three cases: no carry, a carry caught, a carry lost. */
  lemma EchoArithmetic(n: nat, m: nat, hi: byte, lo: byte)
    requires Folded(n) == 0xFFFF
    requires m == (if hi <= 0xF7 then n else if lo < 0xFF then n - 0xFFFF else n - 0xFFFF - 0x100)
    requires hi > 0xF7 && lo < 0xFF ==> m > 0
    ensures Folded(m) == 0xFFFF <==> !(hi > 0xF7 && lo == 0xFF)
  {
  }

  method Copy(gPB: array<byte>, dest: nat, src: seq<byte>)
    requires dest + |src| <= gPB.Length
    modifies gPB
    ensures forall i :: 0 <= i < gPB.Length ==>
              gPB[i] == if dest <= i < dest + |src| then src[i - dest] else old(gPB[i])
  {
    for i := 0 to |src|
      invariant gPB[..dest] == old(gPB[..dest])
      invariant forall j :: 0 <= j < i ==> gPB[dest + j] == src[j]
      invariant forall j :: dest + i <= j < gPB.Length ==> gPB[j] == old(gPB[j])
    {
      gPB[dest + i] := src[i];
    }
  }

  /** Rewrites the IP header's flags and lifetime and fills in its checksum. */
  method FillIpHeaderChecksum(gPB: array<byte>)
    requires gPB.Length >= ICMP_TYPE_P
    modifies gPB
    ensures Verifies(0, gPB[IP_P..IP_P + IP_HEADER_LEN])
    ensures gPB[IP_FLAGS_P] == 0x40 && gPB[IP_FLAGS_P + 1] == 0 && gPB[IP_TTL_P] == 64
    ensures forall i :: 0 <= i < gPB.Length &&
                        i !in {IP_FLAGS_P, IP_FLAGS_P + 1, IP_TTL_P, IP_CHECKSUM_P, IP_CHECKSUM_P + 1} ==>
              gPB[i] == old(gPB[i])
    ensures Verifies(0, gPB[14..34]) && gPB[20] == 0x40 && gPB[21] == 0 && gPB[22] == 64
    ensures forall i :: 0 <= i < gPB.Length && i !in {20, 21, 22, 24, 25} ==> gPB[i] == old(gPB[i])
  {
    gPB[IP_CHECKSUM_P] := 0;
    gPB[IP_CHECKSUM_P + 1] := 0;
    gPB[IP_FLAGS_P] := 0x40;
    gPB[IP_FLAGS_P + 1] := 0;
    gPB[IP_TTL_P] := 64;
    hide Folded, WordSum, High, Low, Verifies;
    FillChecksum(gPB, IP_CHECKSUM_P, IP_P, IP_HEADER_LEN, 0);
  }

  /** Sends the packet back where it came from. */
  method SwapAddresses(gPB: array<byte>, mymac: seq<byte>, myip: seq<byte>)
    requires |mymac| == 6 && |myip| == 4 && ICMP_TYPE_P <= gPB.Length
    modifies gPB
    ensures gPB[..6] == old(gPB[6..12]) && gPB[6..12] == mymac
    ensures gPB[IP_DST_P..ICMP_TYPE_P] == old(gPB[IP_SRC_P..IP_DST_P]) && gPB[IP_SRC_P..IP_DST_P] == myip
    ensures gPB[30..34] == old(gPB[26..30]) && gPB[26..30] == myip
    ensures forall i :: 12 <= i < 26 || 34 <= i < gPB.Length ==> gPB[i] == old(gPB[i])
  {
    Copy(gPB, 0, gPB[6..12]);
    assert gPB[..6] == old(gPB[6..12]);
    ghost var mac := gPB[..6];
    Copy(gPB, 6, mymac);
    assert gPB[6..12] == mymac && gPB[..6] == mac;
    ghost var macs := gPB[..12];
    assert gPB[IP_SRC_P..IP_DST_P] == old(gPB[IP_SRC_P..IP_DST_P]);
    Copy(gPB, IP_DST_P, gPB[IP_SRC_P..IP_DST_P]);
    assert gPB[IP_DST_P..ICMP_TYPE_P] == old(gPB[IP_SRC_P..IP_DST_P]);
    ghost var ip := gPB[IP_DST_P..ICMP_TYPE_P];
    Copy(gPB, IP_SRC_P, myip);
    assert gPB[IP_SRC_P..IP_DST_P] == myip && gPB[IP_DST_P..ICMP_TYPE_P] == ip;
    assert gPB[..12] == macs && gPB[..12][..6] == gPB[..6] && gPB[..12][6..] == gPB[6..12];
  }

  method EditIcmp(gPB: array<byte>, len: nat)
    requires ICMP_TYPE_P + 4 <= len <= gPB.Length
    modifies gPB
    ensures gPB[ICMP_TYPE_P..len] == EchoReply(old(gPB[ICMP_TYPE_P..len]))
    ensures gPB[34..len] == EchoReply(old(gPB[34..len]))
    ensures gPB[..34] == old(gPB[..34]) && gPB[len..] == old(gPB[len..])
  {
    gPB[ICMP_TYPE_P] := ICMP_ECHO_REPLY;
    if gPB[ICMP_CHECKSUM_P] > 0xFF - 0x08 {
      gPB[ICMP_CHECKSUM_P + 1] := (gPB[ICMP_CHECKSUM_P + 1] as int + 1) % 0x100;
    }
    gPB[ICMP_CHECKSUM_P] := (gPB[ICMP_CHECKSUM_P] as int + 0x08) % 0x100;
  }

  /** Turns a received echo request around: addresses swapped, header checksummed, ICMP message edited. */
  method MakeEchoReply(gPB: array<byte>, len: nat, mymac: seq<byte>, myip: seq<byte>)
    requires |mymac| == 6 && |myip| == 4 && ICMP_TYPE_P + 4 <= len <= gPB.Length
    modifies gPB
    ensures gPB[..6] == old(gPB[6..12]) && gPB[6..12] == mymac
    ensures gPB[IP_DST_P..ICMP_TYPE_P] == old(gPB[IP_SRC_P..IP_DST_P]) && gPB[IP_SRC_P..IP_DST_P] == myip
    ensures Verifies(0, gPB[IP_P..IP_P + IP_HEADER_LEN])
    ensures gPB[ICMP_TYPE_P..len] == EchoReply(old(gPB[ICMP_TYPE_P..len]))
    ensures gPB[len..] == old(gPB[len..])
    ensures gPB[30..34] == old(gPB[26..30]) && gPB[26..30] == myip
    ensures Verifies(0, gPB[14..34]) && gPB[34..len] == EchoReply(old(gPB[34..len]))
    ensures gPB[12..20] == old(gPB[12..20]) && gPB[20] == 0x40 && gPB[21] == 0 && gPB[22] == 64
    ensures gPB[23] == old(gPB[23])
  {
    hide Verifies, EchoReply;
    SwapAddresses(gPB, mymac, myip);
    assert gPB[ICMP_TYPE_P..len] == old(gPB[ICMP_TYPE_P..len]) && gPB[len..] == old(gPB[len..]);
    ghost var icmp, tail := gPB[ICMP_TYPE_P..len], gPB[ICMP_TYPE_P..];
    assert tail[..len - ICMP_TYPE_P] == icmp;
    ghost var macs, ips := gPB[..12], gPB[IP_SRC_P..ICMP_TYPE_P];
    FillIpHeaderChecksum(gPB);
    assert gPB[ICMP_TYPE_P..] == tail && gPB[..12] == macs && gPB[IP_SRC_P..ICMP_TYPE_P] == ips;
    assert gPB[ICMP_TYPE_P..len] == tail[..len - ICMP_TYPE_P] && gPB[len..] == tail[len - ICMP_TYPE_P..];
    ghost var head := gPB[..ICMP_TYPE_P];
    assert head[12..20] == old(gPB[12..20]) && head[20] == 0x40 && head[21] == 0 && head[22] == 64;
    assert gPB[ICMP_TYPE_P..len] == icmp;
    EditIcmp(gPB, len);
    assert gPB[..ICMP_TYPE_P][IP_P..IP_P + IP_HEADER_LEN] == gPB[IP_P..IP_P + IP_HEADER_LEN];
    assert gPB[..ICMP_TYPE_P][12..20] == gPB[12..20] && gPB[20] == head[20] && gPB[21] == head[21];
    assert gPB[22] == head[22] && gPB[23] == head[23];
    assert gPB[..12] == head[..12] && gPB[IP_SRC_P..ICMP_TYPE_P] == head[IP_SRC_P..];
  }
}
