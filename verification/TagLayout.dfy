/**
  How a message lies on a Mifare Classic card: the sectors, the walk over data blocks, the TLV that
  wraps the message, and what writing and reading along the walk do, on values.
 */
module TagLayout {
  import opened Machine
  import opened Ndef

  const BLOCK_SIZE := 16

  type Block = b: seq<byte> | |b| == 16 witness seq(16, _ => 0)

  /**
    A card behind its reader: its memory, the sectors the NDEF key opens, the blocks it refuses to write
    and those it refuses to read, the blocks whose commands get no reply at all, and whether a refusal
    ends the session.
   */
  datatype Tag =
    Tag(blocks: seq<Block>, keyed: set<int>, refusing: set<int>, faulty: set<int>, mute: set<int>, strict: bool)

  // ---------------------------------------------------------------- sectors

  predicate IsFirstBlock(b: nat) {
    if b < 128 then b % 4 == 0 else b % 16 == 0
  }

  predicate IsTrailerBlock(b: nat) {
    if b < 128 then (b + 1) % 4 == 0 else (b + 1) % 16 == 0
  }

  /** 32 sectors of four blocks, then sectors of sixteen. */
  function SectorOf(b: nat): nat {
    if b < 128 then b / 4 else 32 + (b - 128) / 16
  }

  /** A first block is one whose predecessor is in another sector. */
  lemma FirstBlockStarts(b: nat)
    ensures IsFirstBlock(b) <==> b == 0 || SectorOf(b - 1) != SectorOf(b)
  {
    var size := if b < 128 then 4 else 16;
    assert b == size * (b / size) + b % size;
    if b > 0 && b % size > 0 {
      assert (b - 1) / size == b / size;
    }
  }

  /** A trailer is one whose successor is. */
  lemma TrailerEnds(b: nat)
    ensures IsTrailerBlock(b) <==> SectorOf(b + 1) != SectorOf(b)
  {
    FirstBlockStarts(b + 1);
    assert IsTrailerBlock(b) <==> IsFirstBlock(b + 1);
  }

  // ---------------------------------------------------------------- the walk

  /** The block visited after the one before `b`: `b` itself, unless it is a trailer. */
  function Skip(b: nat): nat {
    if IsTrailerBlock(b) then b + 1 else b
  }

  /** The `k`-th block the message occupies. */
  function Walk(k: nat): nat {
    if k == 0 then 4 else Skip(Walk(k - 1) + 1)
  }

  /** Three blocks a sector up to block 127, then fifteen. */
  function WalkIndex(b: nat): int {
    if b < 128 then 3 * (b / 4 - 1) + b % 4 else 93 + 15 * ((b - 128) / 16) + b % 16
  }

  /** The data block with the given number, counted from block 4 on. */
  function DataBlock(k: nat): nat {
    if k < 93 then 4 + 4 * (k / 3) + k % 3 else 128 + 16 * ((k - 93) / 15) + (k - 93) % 15
  }

  /** The data blocks of the sectors of four. */
  lemma SmallSector(q: nat, r: nat)
    requires q < 31 && r < 3
    ensures DataBlock(3 * q + r) == 4 + 4 * q + r && WalkIndex(4 + 4 * q + r) == 3 * q + r
    ensures SectorOf(4 + 4 * q + r) == q + 1 && !IsTrailerBlock(4 + 4 * q + r)
    ensures Skip(4 + 4 * q + r + 1) == if r < 2 then 4 + 4 * q + (r + 1) else 4 + 4 * (q + 1)
  {
    assert (3 * q + r) / 3 == q && (3 * q + r) % 3 == r;
    assert (4 + 4 * q + r) / 4 == q + 1 && (4 + 4 * q + r) % 4 == r;
    assert (4 + 4 * q + r + 1) % 4 == r + 1;
    assert (4 + 4 * q + r + 2) % 4 == (r + 2) % 4;
  }

  /** The data blocks of the sectors of sixteen. */
  lemma BigSector(q: nat, r: nat)
    requires r < 15
    ensures DataBlock(93 + 15 * q + r) == 128 + 16 * q + r && WalkIndex(128 + 16 * q + r) == 93 + 15 * q + r
    ensures SectorOf(128 + 16 * q + r) == 32 + q && !IsTrailerBlock(128 + 16 * q + r)
    ensures Skip(128 + 16 * q + r + 1) == if r < 14 then 128 + 16 * q + (r + 1) else 128 + 16 * (q + 1)
  {
    By15(q, r);
    BigBlock(q, r);
    BigBlock(q, r + 1);
    hide SectorOf, IsTrailerBlock;
  }

  lemma By15(q: nat, r: nat)
    requires r < 15
    ensures (15 * q + r) / 15 == q && (15 * q + r) % 15 == r
  {
  }

  lemma By16(q: nat, r: nat)
    requires r < 16
    ensures (16 * q + r) / 16 == q && (16 * q + r) % 16 == r
  {
  }

  /** Block `r` of big sector number `q`. */
  lemma BigBlock(q: nat, r: nat)
    requires r < 16
    ensures var b := 128 + 16 * q + r;
            && b % 16 == r && (b - 128) / 16 == q && SectorOf(b) == 32 + q && SectorStart(b) == 128 + 16 * q
            && (IsFirstBlock(b) <==> r == 0) && (IsTrailerBlock(b) <==> r == 15)
  {
    By16(q, r);
    By16(8 + q, r);
    if r < 15 {
      By16(8 + q, r + 1);
    } else {
      By16(9 + q, 0);
    }
  }

  /** Every number names a data block of one of the two geometries. */
  lemma DataBlockFacts(k: nat)
    ensures DataBlock(k) >= 4 && SectorOf(DataBlock(k)) != 0 && !IsTrailerBlock(DataBlock(k))
    ensures WalkIndex(DataBlock(k)) == k && DataBlock(k + 1) == Skip(DataBlock(k) + 1)
  {
    hide DataBlock, Skip, SectorOf, IsTrailerBlock, WalkIndex;
    if k < 93 {
      var q, r := k / 3, k % 3;
      SmallSector(q, r);
      if r < 2 { SmallSector(q, r + 1); } else if q < 30 { SmallSector(q + 1, 0); } else { BigSector(0, 0); }
    } else {
      var q, r := (k - 93) / 15, (k - 93) % 15;
      BigSector(q, r);
      if r < 14 { BigSector(q, r + 1); } else { BigSector(q + 1, 0); }
    }
  }

  lemma {:induction false} WalkClosedForm(k: nat)
    ensures Walk(k) == DataBlock(k)
  {
    assert DataBlock(0) == 4;
    hide DataBlock, Skip;
    if k > 0 {
      WalkClosedForm(k - 1);
      DataBlockFacts(k - 1);
    }
  }

  /** The walk never touches sector 0 or a trailer, and it visits a block once. */
  lemma WalkIsSafe(k: nat)
    ensures Walk(k) >= 4 && SectorOf(Walk(k)) != 0 && !IsTrailerBlock(Walk(k))
    ensures WalkIndex(Walk(k)) == k
  {
    hide *;
    WalkClosedForm(k);
    DataBlockFacts(k);
  }

  /** It leaves out nothing else. */
  lemma WalkIsComplete(b: nat)
    requires b >= 4 && !IsTrailerBlock(b)
    ensures WalkIndex(b) >= 0 && Walk(WalkIndex(b)) == b
  {
    if b < 128 {
      var q, r := b / 4 - 1, b % 4;
      SmallBlock(q + 1, r);
      hide *;
      SmallSector(q, r);
      WalkClosedForm(3 * q + r);
    } else {
      var q, r := (b - 128) / 16, (b - 128) % 16;
      BigBlock(q, r);
      hide *;
      BigSector(q, r);
      WalkClosedForm(93 + 15 * q + r);
    }
  }

  lemma {:induction false} WalkIncreases(j: nat, k: nat)
    requires j < k
    ensures Walk(j) < Walk(k)
    decreases k
  {
    if j + 1 < k {
      WalkIncreases(j, k - 1);
    }
  }

  /** The block the driver authenticates before it comes to block `b`. */
  function SectorStart(b: nat): nat {
    if b < 128 then b - b % 4 else b - b % 16
  }

  lemma StartsAtFirstBlock(b: nat)
    ensures IsFirstBlock(b) <==> SectorStart(b) == b
    ensures !IsFirstBlock(b) ==> b > 0 && SectorStart(b) == SectorStart(b - 1)
    ensures SectorStart(b) <= b && SectorOf(SectorStart(b)) == SectorOf(b)
  {
    if b < 128 {
      StartOfSmall(b / 4, b % 4);
    } else {
      StartOfBig((b - 128) / 16, b % 16);
    }
  }

  lemma StartOfSmall(q: nat, r: nat)
    requires q < 32 && r < 4
    ensures (4 * q + r) % 4 == r && (4 * q + r) / 4 == q && (4 * q) / 4 == q
    ensures r > 0 ==> (4 * q + r - 1) % 4 == r - 1
  {
  }

  lemma StartOfBig(q: nat, r: nat)
    requires r < 16
    ensures (128 + 16 * q + r) % 16 == r && (128 + 16 * q + r - 128) / 16 == q && (128 + 16 * q - 128) / 16 == q
    ensures r > 0 ==> (128 + 16 * q + r - 1) % 16 == r - 1
  {
  }

  /** The sector that is open when the driver comes to block `b`. */
  function OpenSector(b: nat): nat {
    SectorOf(SectorStart(b) % 256)
  }

  /** A sector is entered through its first block. */
  lemma SectorIsEnteredFirst(k: nat)
    ensures k == 0 ==> IsFirstBlock(Walk(k))
    ensures k > 0 && !IsFirstBlock(Walk(k)) ==> SectorStart(Walk(k)) == SectorStart(Walk(k - 1))
  {
    StartsAtFirstBlock(Walk(k));
    if k > 0 {
      StartsAtFirstBlock(Walk(k - 1) + 1);
      TrailerEnds(Walk(k - 1) + 1);
      FirstBlockStarts(Walk(k));
    }
  }

  /** Where the walk leaves a small card, a big card, and, in commands of one byte, sector 0. */
  lemma Landmarks()
    ensures Walk(45) == 64 && Walk(213) == 256 && Walk(214) == 257 && Walk(217) == 260
  {
    hide Walk, DataBlock, Skip;
    WalkClosedForm(45);
    WalkClosedForm(213);
    WalkClosedForm(214);
    WalkClosedForm(217);
    SmallSector(15, 0);
    BigSector(8, 0);
    BigSector(8, 1);
    BigSector(8, 4);
  }

  /** The position of a block, by its number in a command: after block 255 the walk comes to 0, 1, 2, 3. */
  function Position(b: nat): int {
    if b < 4 then 213 + b else WalkIndex(b)
  }

  /** The first 217 commands name different blocks: 213 data blocks, then all of sector 0. */
  lemma CommandsDiffer(k: nat)
    requires k < 217
    ensures k >= 213 ==> Walk(k) == 256 + (k - 213)
    ensures Walk(k) % 256 == if k < 213 then Walk(k) else k - 213
    ensures k < 213 ==> Walk(k) >= 4
    ensures Position(Walk(k) % 256) == k
  {
    hide Walk, DataBlock, WalkIndex, IsTrailerBlock;
    Landmarks();
    if k < 213 {
      WalkIncreases(k, 213);
      WalkIsSafe(k);
    } else {
      WalkClosedForm(k);
      BigSector(8, k - 213);
    }
  }

  /** Within one byte a command opens the very sector the block is in. */
  lemma OwnSector(b: nat)
    requires b < 256
    ensures OpenSector(b) == SectorOf(b) && SectorStart(b) % 256 == SectorStart(b)
  {
    hide SectorOf, SectorStart;
    StartsAtFirstBlock(b);
  }

  // ---------------------------------------------------------------- the TLV

  /** Header, message and terminator, in whole blocks. */
  function BufferSize(length: nat): (n: nat)
    ensures n % BLOCK_SIZE == 0
    ensures length + 3 <= n && (length >= 0xFF ==> length + 5 <= n)
  {
    var size := if length < 0xFF then length + 3 else length + 5;
    if size % BLOCK_SIZE != 0 then (size / BLOCK_SIZE + 1) * BLOCK_SIZE else size
  }

  /** The number of blocks a message of the given length takes. */
  function BlocksFor(length: nat): (n: nat)
    ensures n >= 1 && n * BLOCK_SIZE == BufferSize(length)
  {
    BufferSize(length) / BLOCK_SIZE
  }

  function TlvHead(length: nat): seq<byte> {
    if length < 0xFF then [3, length] else [3, 0xFF, length / 0x100 % 0x100, length % 0x100]
  }

  function Zeros(n: nat): seq<byte> {
    seq(n, _ => 0)
  }

  function Tlv(message: seq<byte>): (t: seq<byte>)
    ensures |t| == BufferSize(|message|)
  {
    var t := TlvHead(|message|) + message + [0xFE];
    t + Zeros(BufferSize(|message|) - |t|)
  }

  /** Where the message TLV starts: behind null TLVs; -1 when there are only those, -2 when another comes first. */
  function StartIndex(data: Block, i: nat): (r: int)
    requires i <= BLOCK_SIZE
    ensures r >= 0 ==> i <= r < BLOCK_SIZE && data[r] == 3
    decreases BLOCK_SIZE - i
  {
    if i == BLOCK_SIZE then -1 else if data[i] == 0 then StartIndex(data, i + 1) else if data[i] == 3 then i else -2
  }

  /** The length field lies in the first block, as the reader assumes. */
  predicate LengthInBlock(data: Block) {
    var i := StartIndex(data, 0);
    0 <= i ==> i + 1 < BLOCK_SIZE && (data[i + 1] == 0xFF ==> i + 3 < BLOCK_SIZE)
  }

  datatype Found = Found(length: nat, start: nat)

  function DecodeTlv(data: Block): Option<Found>
    requires LengthInBlock(data)
  {
    var i := StartIndex(data, 0);
    if i < 0 then None
    else if data[i + 1] == 0xFF then Some(Found(0x100 * data[i + 2] as int + data[i + 3] as int, i + 4))
    else Some(Found(data[i + 1], i + 2))
  }

  /**
    The wrapping in numbers: 3, the length in one byte or behind 255 in two with the high one first, the message,
    254, and zeros to the end of a block of 16.
   */
  lemma TlvInNumbers(message: seq<byte>)
    ensures var t, n := Tlv(message), |message|;
            var at := if n < 255 then 2 else 4;
            && |t| % 16 == 0 && at + n + 1 <= |t| < at + n + 17
            && t[0] == 3 && (n < 255 ==> t[1] == n)
            && (n >= 255 ==> t[1] == 255 && t[2] == n / 256 % 256 && t[3] == n % 256)
            && t[at..at + n] == message && t[at + n] == 254
            && forall i :: at + n < i < |t| ==> t[i] == 0
  {
    SizeInNumbers(|message|);
    hide BufferSize;
    var t, head := Tlv(message), TlvHead(|message|);
    assert t == head + (message + ([0xFE] + t[|head| + |message| + 1..]));
    assert forall i :: 0 <= i < |head| ==> t[i] == head[i];
  }

  lemma SizeInNumbers(n: nat)
    ensures var needed := if n < 255 then n + 3 else n + 5;
            BufferSize(n) % 16 == 0 && needed <= BufferSize(n) < needed + 16
  {
  }

  /** Finding it: behind zeros the first byte must be 3; what follows is the length, or 255 and the length. */
  lemma LengthInNumbers(data: Block, i: nat)
    requires i < 16 && (forall j :: 0 <= j < i ==> data[j] == 0) && data[i] != 0
    ensures data[i] != 3 ==> LengthInBlock(data) && DecodeTlv(data) == None
    ensures data[i] == 3 ==> (LengthInBlock(data) <==> i < 15 && (data[i + 1] == 255 ==> i < 13))
    ensures data[i] == 3 && i < 15 && data[i + 1] != 255 ==> DecodeTlv(data) == Some(Found(data[i + 1], i + 2))
    ensures data[i] == 3 && i < 13 && data[i + 1] == 255 ==>
              DecodeTlv(data) == Some(Found(256 * data[i + 2] as int + data[i + 3] as int, i + 4))
  {
    SkipsZeros(data, 0, i);
    assert StartIndex(data, i) == if data[i] == 3 then i else -2;
    hide StartIndex;
  }

  lemma {:induction false} SkipsZeros(data: Block, j: nat, i: nat)
    requires j <= i <= 16 && forall k :: j <= k < i ==> data[k] == 0
    ensures StartIndex(data, j) == StartIndex(data, i)
    decreases i - j
  {
    if j < i {
      SkipsZeros(data, j + 1, i);
    }
  }

  /** The first block of a wrapped message leads back to it. */
  lemma TlvReadsBack(message: seq<byte>)
    requires |message| <= 0xFFFF
    ensures var t, start := Tlv(message), |TlvHead(|message|)|;
            && |t| >= BLOCK_SIZE && LengthInBlock(t[..BLOCK_SIZE])
            && DecodeTlv(t[..BLOCK_SIZE]) == Some(Found(|message|, start))
            && start + |message| <= |t| && t[start..start + |message|] == message
  {
    TlvParts(message);
    HeadReads(Tlv(message)[..BLOCK_SIZE], |message|);
    hide Tlv, TlvHead, DecodeTlv, LengthInBlock;
  }

  lemma TlvParts(message: seq<byte>)
    ensures var t, head := Tlv(message), TlvHead(|message|);
            && |head| <= BLOCK_SIZE <= |t| && |head| + |message| <= |t|
            && t[..BLOCK_SIZE][..|head|] == head && t[|head|..|head| + |message|] == message
  {
    var t, head := Tlv(message), TlvHead(|message|);
    assert t == head + (message + ([0xFE] + t[|head| + |message| + 1..]));
    assert t[..BLOCK_SIZE][..|head|] == t[..|head|];
  }

  lemma HeadReads(data: Block, length: nat)
    requires length <= 0xFFFF && data[..|TlvHead(length)|] == TlvHead(length)
    ensures LengthInBlock(data) && DecodeTlv(data) == Some(Found(length, |TlvHead(length)|))
  {
    var head := TlvHead(length);
    assert forall i :: 0 <= i < |head| ==> data[i] == data[..|head|][i] == head[i];
    assert StartIndex(data, 0) == 0;
  }

  /** And only the right head does, read from its own length and start. */
  lemma HeadIsForced(data: Block, length: nat)
    requires length <= 0xFFFF && LengthInBlock(data)
    requires DecodeTlv(data) == Some(Found(length, |TlvHead(length)|))
    ensures data[..|TlvHead(length)|] == TlvHead(length)
  {
  }

  // ---------------------------------------------------------------- what the card allows

  /** Authentication at the start of the sector of `b` succeeds. */
  predicate Opens(tag: Tag, b: nat) {
    var f := SectorStart(b) % 256;
    f < |tag.blocks| && SectorOf(f) in tag.keyed && f !in tag.mute
  }

  /** The card reads the block: it exists, in the open sector, and works. */
  predicate Reads(tag: Tag, b: nat) {
    var c := b % 256;
    Opens(tag, b) && c < |tag.blocks| && SectorOf(c) == OpenSector(b) && c !in tag.faulty && c !in tag.mute
  }

  /** The card is willing to write the block, its session permitting; the manufacturer's block it never is. */
  predicate Accepts(tag: Tag, b: nat) {
    var c := b % 256;
    0 < c < |tag.blocks| && SectorOf(c) == OpenSector(b) && c !in tag.refusing
  }

  /** The driver gets what it takes for success: a reply, at first blocks after authentication. */
  predicate Answers(tag: Tag, b: nat) {
    b % 256 !in tag.mute && (IsFirstBlock(b) ==> Opens(tag, b))
  }

  /** The `k`-th block of the walk is stored: a strict card stores nothing after a refusal, until the next sector. */
  predicate Stores(tag: Tag, k: nat) {
    Accepts(tag, Walk(k)) && (tag.strict && k > 0 && !IsFirstBlock(Walk(k)) ==> Stores(tag, k - 1))
  }

  lemma StoresBy(tag: Tag, k: nat)
    ensures Stores(tag, k) <==> Accepts(tag, Walk(k)) &&
                                (tag.strict && k > 0 && !IsFirstBlock(Walk(k)) ==> Stores(tag, k - 1))
    ensures IsFirstBlock(Walk(0))
  {
  }

  predicate AllRead(tag: Tag, n: nat) {
    forall k :: 0 <= k < n ==> Reads(tag, Walk(k))
  }

  predicate AllAccepted(tag: Tag, n: nat) {
    forall k :: 0 <= k < n ==> Accepts(tag, Walk(k))
  }

  predicate AllAnswer(tag: Tag, n: nat) {
    forall k :: 0 <= k < n ==> Answers(tag, Walk(k))
  }

  /** Without refusals every block is stored, strict card or not. */
  lemma {:induction false} AcceptedIsStored(tag: Tag, k: nat)
    requires AllAccepted(tag, k + 1)
    ensures Stores(tag, k)
  {
    hide Accepts, Walk, IsFirstBlock;
    if k > 0 {
      AcceptedIsStored(tag, k - 1);
    }
  }

  /** How many of the first `n` blocks of the walk come before the first that gets no answer. */
  function Reach(tag: Tag, n: nat, k: nat): (r: nat)
    requires k <= n
    ensures k <= r <= n
    ensures forall j :: k <= j < r ==> Answers(tag, Walk(j))
    ensures r < n ==> !Answers(tag, Walk(r))
    decreases n - k
  {
    if k < n && Answers(tag, Walk(k)) then Reach(tag, n, k + 1) else k
  }

  // ---------------------------------------------------------------- writing along the walk

  /** The part of a buffer that goes to the `k`-th block. */
  function Part(buffer: seq<byte>, k: nat): Block
    requires (k + 1) * BLOCK_SIZE <= |buffer|
  {
    buffer[k * BLOCK_SIZE..(k + 1) * BLOCK_SIZE]
  }

  /** The card after the commands for the first `m` blocks of a buffer. */
  function Written(tag: Tag, buffer: seq<byte>, m: nat): (t: Tag)
    requires m * BLOCK_SIZE <= |buffer|
    ensures |t.blocks| == |tag.blocks| && t == tag.(blocks := t.blocks)
  {
    if m == 0 then tag
    else
      var before := Written(tag, buffer, m - 1);
      if Stores(tag, m - 1) then before.(blocks := before.blocks[Walk(m - 1) % 256 := Part(buffer, m - 1)]) else before
  }

  /** Command number `j` stores into block `b`. */
  predicate StoresInto(tag: Tag, j: nat, b: nat) {
    Stores(tag, j) && Walk(j) % 256 == b
  }

  lemma WrittenStep(tag: Tag, buffer: seq<byte>, m: nat, b: nat)
    requires (m + 1) * BLOCK_SIZE <= |buffer| && b < |tag.blocks|
    ensures Written(tag, buffer, m + 1).blocks[b] ==
            if StoresInto(tag, m, b) then Part(buffer, m) else Written(tag, buffer, m).blocks[b]
  {
    hide Walk, Stores;
  }

  /** A block no command stores into is as before. */
  lemma {:induction false} NoStoreKeeps(tag: Tag, buffer: seq<byte>, m: nat, b: nat)
    requires m * BLOCK_SIZE <= |buffer| && b < |tag.blocks|
    requires forall j: nat :: j < m ==> !StoresInto(tag, j, b)
    ensures Written(tag, buffer, m).blocks[b] == tag.blocks[b]
    decreases m
  {
    hide StoresInto;
    if m > 0 {
      NoStoreKeeps(tag, buffer, m - 1, b);
      WrittenStep(tag, buffer, m - 1, b);
    }
  }

  /** Any other ends up with what the last command that stores into it carries. */
  lemma {:induction false} LastStoreWins(tag: Tag, buffer: seq<byte>, m: nat, b: nat, j: nat)
    requires j < m && m * BLOCK_SIZE <= |buffer| && b < |tag.blocks|
    requires StoresInto(tag, j, b) && forall i: nat :: j < i < m ==> !StoresInto(tag, i, b)
    ensures Written(tag, buffer, m).blocks[b] == Part(buffer, j)
    decreases m
  {
    hide StoresInto;
    WrittenStep(tag, buffer, m - 1, b);
    if j < m - 1 {
      LastStoreWins(tag, buffer, m - 1, b, j);
    }
  }

  /** Up to 217 blocks no command overwrites another's: each block holds its part if that was stored. */
  lemma WrittenBlocks(tag: Tag, buffer: seq<byte>, m: nat, b: nat)
    requires m * BLOCK_SIZE <= |buffer| && m <= 217 && b < |tag.blocks|
    ensures var k := Position(b);
            var stored := 0 <= k < m && StoresInto(tag, k, b);
            Written(tag, buffer, m).blocks[b] == if stored then Part(buffer, k) else tag.blocks[b]
  {
    hide Written, Position;
    forall j: nat | j < m ensures StoresInto(tag, j, b) ==> j == Position(b) {
      hide Stores;
      CommandsDiffer(j);
    }
    hide StoresInto;
    var k := Position(b);
    if 0 <= k < m && StoresInto(tag, k, b) {
      LastStoreWins(tag, buffer, m, b, k);
    } else {
      NoStoreKeeps(tag, buffer, m, b);
    }
  }

  /** Sector 0 and every trailer survive a write of at most 214 blocks. */
  lemma WriteSparesTheRest(tag: Tag, buffer: seq<byte>, m: nat, b: nat)
    requires m * BLOCK_SIZE <= |buffer| && m <= 214 && b < |tag.blocks| <= 256
    requires SectorOf(b) == 0 || IsTrailerBlock(b)
    ensures Written(tag, buffer, m).blocks[b] == tag.blocks[b]
  {
    hide Written, StoresInto;
    forall j: nat | j < m ensures !StoresInto(tag, j, b) {
      StoresOnlyData(tag, j, b);
    }
    NoStoreKeeps(tag, buffer, m, b);
  }

  lemma StoresOnlyData(tag: Tag, j: nat, b: nat)
    requires j < 214
    ensures StoresInto(tag, j, b) ==> SectorOf(b) != 0 && !IsTrailerBlock(b)
  {
    assert Stores(tag, j) ==> 0 < Walk(j) % 256;
    hide Stores, Walk, Position, SectorOf, IsTrailerBlock, WalkIndex;
    CommandsDiffer(j);
    WalkIsSafe(j);
  }

  /** A card whose sector 0 does not open with the NDEF key, or that is smaller, stops answering by then. */
  lemma AnswersEnd(tag: Tag, n: nat)
    requires 0 !in tag.keyed && AllAnswer(tag, n)
    ensures n <= 213
  {
    hide Walk;
    Landmarks();
    assert !Answers(tag, 256);
  }

  // ---------------------------------------------------------------- what a long write overwrites

  /** The commands for `m` blocks leave block `b` alone, whatever they carry. */
  ghost predicate Spares(tag: Tag, m: nat, b: nat)
    requires b < |tag.blocks|
  {
    forall buffer: seq<byte> :: |buffer| == m * BLOCK_SIZE ==> Written(tag, buffer, m).blocks[b] == tag.blocks[b]
  }

  lemma {:induction false} StoreShows(tag: Tag, buffer: seq<byte>, m: nat, b: nat, j: nat, v: byte)
    requires j < m && m * BLOCK_SIZE <= |buffer| && b < |tag.blocks| && StoresInto(tag, j, b)
    requires forall i :: 0 <= i < |buffer| ==> buffer[i] == v
    ensures Written(tag, buffer, m).blocks[b][0] == v
    decreases m
  {
    hide StoresInto;
    WrittenStep(tag, buffer, m - 1, b);
    if j < m - 1 {
      StoreShows(tag, buffer, m - 1, b, j, v);
    }
  }

  /** A block of any card survives every write of `m` blocks exactly if no command stores into it. */
  lemma WriteSparesIff(tag: Tag, m: nat, b: nat)
    requires b < |tag.blocks|
    ensures Spares(tag, m, b) <==> forall j: nat :: j < m ==> !StoresInto(tag, j, b)
  {
    hide Written, StoresInto;
    if j: nat :| j < m && StoresInto(tag, j, b) {
      var other: byte := if tag.blocks[b][0] == 0 then 1 else 0;
      var buffer := seq(m * BLOCK_SIZE, _ => other);
      StoreShows(tag, buffer, m, b, j, other);
      assert Written(tag, buffer, m).blocks[b] != tag.blocks[b];
    } else {
      forall buffer: seq<byte> | |buffer| == m * BLOCK_SIZE
        ensures Written(tag, buffer, m).blocks[b] == tag.blocks[b]
      {
        NoStoreKeeps(tag, buffer, m, b);
      }
    }
  }

  /** The blocks the driver never means to write that its commands nevertheless name, past block 255. */
  predicate Exposed(i: nat, r: nat) {
    i < 8 && r < 4 && (i == 0 || r == 3)
  }

  /** Command 213 and those behind it name blocks from 256 on: `n` is 16 or more. */
  lemma LaterCommand(k: nat) returns (n: nat, r: nat)
    requires k >= 213
    ensures n >= 16 && r < 15 && k == 15 * n + r - 27 && Walk(k) == 16 * n + r
    ensures Walk(k) % 256 == 16 * (n % 16) + r
  {
    hide Walk, DataBlock, Skip, SectorOf, IsTrailerBlock;
    var q := (k - 93) / 15;
    n, r := 8 + q, (k - 93) % 15;
    WalkClosedForm(k);
    BigSector(q, r);
    By256(n / 16, n % 16, r);
  }

  lemma By256(p: nat, n: nat, r: nat)
    requires n < 16 && r < 16
    ensures (16 * (16 * p + n) + r) % 256 == 16 * n + r
  {
    assert 16 * (16 * p + n) + r == 256 * p + (16 * n + r);
  }

  /** Earlier commands name data blocks. */
  lemma EarlierCommand(k: nat, b: nat)
    requires k < 213 && (SectorOf(b) == 0 || IsTrailerBlock(b))
    ensures Walk(k) % 256 != b
  {
    CommandsDiffer(k);
    WalkIsSafe(k);
  }

  /** Only commands from number 213 + 15i + r on name an exposed block. */
  lemma NamesExposed(k: nat, i: nat, r: nat)
    requires Exposed(i, r) && Walk(k) % 256 == 16 * i + r
    ensures k >= 213 + 15 * i + r && exists n: nat :: InPass(k, n, i, r)
  {
    if k < 213 {
      SmallBlock(4 * i, r);
      EarlierCommand(k, 16 * i + r);
      assert false;
    } else {
      var n, s := LaterCommand(k);
      assert n % 16 == i && s == r;
      assert InPass(k, n, i, r);
    }
  }

  predicate InPass(k: nat, n: nat, i: nat, r: nat) {
    n >= 16 && n % 16 == i && Walk(k) == 16 * n + r && k == 15 * n + r - 27
  }

  /** Block `r` of small sector number `q`. */
  lemma SmallBlock(q: nat, r: nat)
    requires q < 32 && r < 4
    ensures SectorOf(4 * q + r) == q && (IsTrailerBlock(4 * q + r) <==> r == 3)
  {
    StartOfSmall(q, r);
    if r < 3 {
      StartOfSmall(q, r + 1);
    }
  }

  predicate Writable(tag: Tag, b: nat) {
    0 < b < |tag.blocks| && b !in tag.refusing
  }

  /** Past block 255 only the first four blocks of sixteen are in the sector the driver opens for them. */
  lemma WrappedAccepts(tag: Tag, n: nat, r: nat)
    requires n >= 16 && n % 16 < 8 && r < 15
    ensures Accepts(tag, 16 * n + r) <==> r < 4 && Writable(tag, 16 * (n % 16) + r)
    ensures IsFirstBlock(16 * n + r) <==> r == 0
  {
    var i := n % 16;
    By256(n / 16, i, r);
    By256(n / 16, i, 0);
    BigBlock(n - 8, r);
    hide SectorStart, IsFirstBlock, IsTrailerBlock;
    SmallBlock(4 * i, 0);
    SmallBlock(4 * i + r / 4, r % 4);
  }

  lemma BeforeInPass(k: nat, n: nat, r: nat)
    requires n >= 16 && 0 < r < 15 && k == 15 * n + r - 27
    ensures Walk(k - 1) == 16 * n + (r - 1)
  {
    hide Walk;
    var n', r' := LaterCommand(k - 1);
    assert n' == n && r' == r - 1;
  }

  /** Such a block is stored if the card writes it and, when refusals count, those before it in its sector. */
  lemma {:induction false} WrappedStores(tag: Tag, k: nat, n: nat, r: nat)
    requires n >= 16 && n % 16 < 8 && r < 4 && Walk(k) == 16 * n + r && k == 15 * n + r - 27
    ensures Stores(tag, k) <==> WritableUpTo(tag, n % 16, r)
    decreases r
  {
    WrappedAccepts(tag, n, r);
    StoresBy(tag, k);
    hide Accepts, IsFirstBlock, Writable, Walk, Stores;
    if r > 0 {
      BeforeInPass(k, n, r);
      WrappedStores(tag, k - 1, n, r - 1);
    }
  }

  predicate WritableUpTo(tag: Tag, i: nat, r: nat) {
    Writable(tag, 16 * i + r) && (tag.strict && r > 0 ==> WritableUpTo(tag, i, r - 1))
  }

  /** The first command that names an exposed block. */
  lemma OwnCommand(tag: Tag, i: nat, r: nat)
    requires i < 8 && r < 4
    ensures StoresInto(tag, 213 + 15 * i + r, 16 * i + r) <==> WritableUpTo(tag, i, r)
  {
    hide Walk, Stores, WritableUpTo;
    var n, s := LaterCommand(213 + 15 * i + r);
    WrappedStores(tag, 213 + 15 * i + r, n, r);
  }

  /** And any other that does. */
  lemma LaterStores(tag: Tag, j: nat, i: nat, r: nat)
    requires Exposed(i, r) && StoresInto(tag, j, 16 * i + r)
    ensures j >= 213 + 15 * i + r && WritableUpTo(tag, i, r)
  {
    hide Walk, Stores, WritableUpTo;
    NamesExposed(j, i, r);
    var n: nat :| InPass(j, n, i, r);
    WrappedStores(tag, j, n, r);
  }

  /** The manufacturer's block refuses. */
  lemma {:induction false} RefusedFromZero(tag: Tag, r: nat)
    requires tag.strict || r == 0
    ensures !WritableUpTo(tag, 0, r)
  {
    if r > 0 {
      RefusedFromZero(tag, r - 1);
    }
  }

  /**
    Past block 255 the commands come to blocks the driver skips: 1, 2 and 3, and the last blocks of sectors
    4, 8, ..., 28. Such a block survives every write of `m` blocks exactly if its own command is not among
    them, or the card refuses it, or, with refusals ending the session, one before it in its sector.
   */
  lemma WriteSparesExposedIff(tag: Tag, m: nat, i: nat, r: nat)
    requires Exposed(i, r) && 16 * i + r < |tag.blocks|
    ensures Spares(tag, m, 16 * i + r) <==> m <= 213 + 15 * i + r || !WritableUpTo(tag, i, r)
  {
    var b := 16 * i + r;
    OwnCommand(tag, i, r);
    hide *;
    WriteSparesIff(tag, m, b);
    forall j: nat | j < m && StoresInto(tag, j, b) ensures m > 213 + 15 * i + r && WritableUpTo(tag, i, r) {
      LaterStores(tag, j, i, r);
    }
  }

  /** In sector 0 that is: unless the write is that long, the card refuses the block, or a refusal ends the session. */
  lemma WriteSparesSectorZeroIff(tag: Tag, m: nat, b: nat)
    requires 1 <= b <= 3 && b < |tag.blocks|
    ensures Spares(tag, m, b) <==> m <= 213 + b || tag.strict || b in tag.refusing
  {
    hide Spares;
    WriteSparesExposedIff(tag, m, 0, b);
    if tag.strict {
      RefusedFromZero(tag, b);
    }
  }

  /** In the trailers of sectors 4, 8, ..., 28, which keep the keys, refusals matter that come before the trailer. */
  lemma WriteSparesTrailerIff(tag: Tag, m: nat, i: nat)
    requires 1 <= i < 8 && 16 * i + 3 < |tag.blocks|
    ensures SectorOf(16 * i + 3) == 4 * i && IsTrailerBlock(16 * i + 3)
    ensures Spares(tag, m, 16 * i + 3) <==>
            || m <= 216 + 15 * i || 16 * i + 3 in tag.refusing
            || (tag.strict && exists b :: 16 * i <= b < 16 * i + 3 && b in tag.refusing)
  {
    SmallBlock(4 * i, 3);
    WriteSparesExposedIff(tag, m, i, 3);
    hide Spares;
    assert WritableUpTo(tag, i, 3) == (Writable(tag, 16 * i + 3) && (tag.strict ==> WritableUpTo(tag, i, 2)));
    assert WritableUpTo(tag, i, 2) == (Writable(tag, 16 * i + 2) && (tag.strict ==> WritableUpTo(tag, i, 1)));
    assert WritableUpTo(tag, i, 1) == (Writable(tag, 16 * i + 1) && (tag.strict ==> WritableUpTo(tag, i, 0)));
    assert WritableUpTo(tag, i, 0) == Writable(tag, 16 * i);
  }

  /** Block 0 and all other trailers survive every write of any length on every card. */
  lemma WriteSparesTheOthers(tag: Tag, m: nat, b: nat)
    requires b < |tag.blocks| <= 256
    requires b == 0 || (IsTrailerBlock(b) && (b >= 128 || SectorOf(b) % 4 != 0))
    ensures Spares(tag, m, b)
  {
    WriteSparesIff(tag, m, b);
    hide Spares, StoresInto;
    forall j: nat | j < m ensures !StoresInto(tag, j, b) {
      NotStoredInto(tag, j, b);
    }
  }

  lemma NotStoredInto(tag: Tag, j: nat, b: nat)
    requires b < 256 && (b == 0 || (IsTrailerBlock(b) && (b >= 128 || SectorOf(b) % 4 != 0)))
    ensures !StoresInto(tag, j, b)
  {
    assert Stores(tag, j) ==> Accepts(tag, Walk(j));
    hide Stores, Walk;
    if b > 0 && Walk(j) % 256 == b {
      if j < 213 {
        EarlierCommand(j, b);
      } else {
        hide Accepts, IsTrailerBlock, SectorOf;
        var n, r := LaterCommand(j);
        NotAccepted(tag, n, r);
      }
    }
  }

  /** The trailers a later command names and the card does not take it for. */
  lemma NotAccepted(tag: Tag, n: nat, r: nat)
    requires n >= 16 && r < 15
    requires var b := 16 * (n % 16) + r; IsTrailerBlock(b) && (b >= 128 || SectorOf(b) % 4 != 0)
    ensures !Accepts(tag, 16 * n + r)
  {
    var i := n % 16;
    if i < 8 {
      hide Accepts, IsTrailerBlock, SectorOf;
      WrappedAccepts(tag, n, r);
      if r < 4 {
        SmallBlock(4 * i, r);
      }
    } else {
      BigBlock(i - 8, r);
    }
  }

  /** A card of 4 kilobytes that opens everywhere with the NDEF key. */
  function OpenCard(blocks: seq<Block>, refusing: set<int>, strict: bool): (tag: Tag)
    ensures tag.blocks == blocks && tag.refusing == refusing && tag.strict == strict && tag.mute == {}
    ensures forall sector :: 0 <= sector < 40 ==> sector in tag.keyed
  {
    var sectors := {0, 1, 2, 3, 4, 5, 6, 7, 8, 9, 10, 11, 12, 13, 14, 15, 16, 17, 18, 19,
                    20, 21, 22, 23, 24, 25, 26, 27, 28, 29, 30, 31, 32, 33, 34, 35, 36, 37, 38, 39};
    Tag(blocks, sectors, refusing, {}, {}, strict)
  }

  /** The first command that names an exposed block the card writes leaves its part of the buffer there. */
  lemma ExposedIsOverwritten(tag: Tag, buffer: seq<byte>, i: nat, r: nat, k: nat)
    requires i < 8 && r < 4 && 16 * i + r < |tag.blocks| && WritableUpTo(tag, i, r)
    requires k == 213 + 15 * i + r && (k + 1) * BLOCK_SIZE <= |buffer|
    ensures Written(tag, buffer, k + 1).blocks[16 * i + r] == Part(buffer, k)
  {
    hide *;
    OwnCommand(tag, i, r);
    WrittenStep(tag, buffer, k, 16 * i + r);
  }

  /**
    Success is reported all the same: such a card answers 232 commands, whether or not a refusal would end
    the session, and afterwards block 19, the trailer of sector 4, holds message bytes.
   */
  lemma TrailerIsOverwritten(blocks: seq<Block>, strict: bool, buffer: seq<byte>)
    requires |blocks| == 256 && |buffer| == 232 * BLOCK_SIZE
    ensures AllAnswer(OpenCard(blocks, {}, strict), 232) && IsTrailerBlock(19)
    ensures Written(OpenCard(blocks, {}, strict), buffer, 232).blocks[19] == Part(buffer, 231)
  {
    var tag := OpenCard(blocks, {}, strict);
    OpenCardAlwaysAnswers(tag, 232);
    assert WritableUpTo(tag, 1, 1) && WritableUpTo(tag, 1, 2);
    hide Walk, AllAnswer, Written, OpenCard;
    ExposedIsOverwritten(tag, buffer, 1, 3, 231);
  }

  /** Nor does a refusal of block 1 protect the trailer of sector 0 on a card whose session goes on. */
  lemma SectorZeroIsOverwritten(blocks: seq<Block>, buffer: seq<byte>)
    requires |blocks| == 256 && |buffer| == 217 * BLOCK_SIZE
    ensures AllAnswer(OpenCard(blocks, {1}, false), 217) && IsTrailerBlock(3)
    ensures Written(OpenCard(blocks, {1}, false), buffer, 217).blocks[3] == Part(buffer, 216)
  {
    var tag := OpenCard(blocks, {1}, false);
    OpenCardAlwaysAnswers(tag, 217);
    assert WritableUpTo(tag, 0, 3);
    hide Walk, AllAnswer, Written, OpenCard;
    ExposedIsOverwritten(tag, buffer, 0, 3, 216);
  }

  // ---------------------------------------------------------------- reading along the walk

  /** The first `n` blocks of the walk, one after the other. */
  function Gather(tag: Tag, n: nat): (g: seq<byte>)
    requires AllRead(tag, n)
    ensures |g| == n * BLOCK_SIZE
  {
    if n == 0 then [] else Gather(tag, n - 1) + tag.blocks[Walk(n - 1) % 256]
  }

  /** What is collected is a given buffer exactly when each block holds its part of it. */
  lemma {:induction false} GatherIs(tag: Tag, buffer: seq<byte>, n: nat)
    requires AllRead(tag, n) && n * BLOCK_SIZE <= |buffer|
    ensures Gather(tag, n) == buffer[..n * BLOCK_SIZE] <==>
            forall k: nat :: k < n ==> HoldsPart(tag, buffer, k)
  {
    hide Walk, Reads;
    if n > 0 {
      assert Reads(tag, Walk(n - 1));
      ReadsExists(tag, n - 1);
      GatherIs(tag, buffer, n - 1);
      SplitAt(Gather(tag, n - 1), tag.blocks[Walk(n - 1) % 256], buffer, (n - 1) * BLOCK_SIZE, n * BLOCK_SIZE);
      assert HoldsPart(tag, buffer, n - 1) <==> tag.blocks[Walk(n - 1) % 256] == Part(buffer, n - 1);
    }
  }

  predicate HoldsPart(tag: Tag, buffer: seq<byte>, k: nat)
    requires (k + 1) * BLOCK_SIZE <= |buffer|
  {
    Walk(k) % 256 < |tag.blocks| && tag.blocks[Walk(k) % 256] == Part(buffer, k)
  }

  lemma ReadsExists(tag: Tag, k: nat)
    requires Reads(tag, Walk(k))
    ensures Walk(k) % 256 < |tag.blocks|
  {
    hide Walk;
  }

  lemma SplitAt(a: seq<byte>, b: seq<byte>, whole: seq<byte>, i: nat, j: nat)
    requires |a| == i <= j <= |whole| && |b| == j - i
    ensures a + b == whole[..j] <==> a == whole[..i] && b == whole[i..j]
  {
    assert whole[..j] == whole[..i] + whole[i..j];
    if a + b == whole[..j] {
      assert a == (a + b)[..i] && b == (a + b)[i..];
    }
  }

  /** Reading the walk wraps too, but never gets past sector 0. */
  lemma CardEnds(tag: Tag, n: nat)
    requires |tag.blocks| <= 256 && AllRead(tag, n)
    ensures n <= 217
  {
    hide Walk;
    Landmarks();
    assert !Reads(tag, 260);
  }

  lemma CardBoundsMessage(tag: Tag, length: nat)
    requires |tag.blocks| <= 256 && AllRead(tag, BlocksFor(length))
    ensures BlocksFor(length) <= 217 && length <= 3467
  {
    CardEnds(tag, BlocksFor(length));
  }

  // ---------------------------------------------------------------- capacity

  /** A card whose data blocks all work: the message sectors of a card of 1 or 4 kilobytes. */
  predicate Healthy(tag: Tag) {
    && |tag.blocks| in {64, 256}
    && forall b :: 4 <= b < |tag.blocks| && !IsTrailerBlock(b) ==>
         SectorOf(b) in tag.keyed && b !in tag.refusing && b !in tag.faulty && b !in tag.mute
  }

  function Capacity(tag: Tag): nat {
    if |tag.blocks| == 64 then 715 else 3403
  }

  /** The data blocks of a healthy card do everything right. */
  lemma HealthyBlock(tag: Tag, k: nat)
    requires Healthy(tag) && k < 213 && Walk(k) < |tag.blocks|
    ensures Reads(tag, Walk(k)) && Accepts(tag, Walk(k)) && Answers(tag, Walk(k))
  {
    WalkIsSafe(k);
    HealthyData(tag, Walk(k));
  }

  lemma HealthyData(tag: Tag, b: nat)
    requires Healthy(tag) && 4 <= b < |tag.blocks| && !IsTrailerBlock(b)
    ensures Reads(tag, b) && Accepts(tag, b) && Answers(tag, b)
  {
    hide SectorOf, SectorStart, IsTrailerBlock;
    OwnSector(b);
    StartsAtFirstBlock(b);
    StartIsData(b);
  }

  lemma StartIsData(b: nat)
    requires 4 <= b
    ensures 4 <= SectorStart(b) <= b && !IsTrailerBlock(SectorStart(b))
  {
    StartsAtFirstBlock(b);
    var size := if b < 128 then 4 else 16;
    assert b == size * (b / size) + b % size;
    assert (size * (b / size)) % size == 0;
    assert b >= 128 ==> size * (b / size) >= 128;
  }

  lemma NothingPastTheEnd(tag: Tag)
    requires |tag.blocks| in {64, 256}
    ensures !Accepts(tag, |tag.blocks|)
  {
  }

  lemma PastTheEnd(tag: Tag)
    requires |tag.blocks| in {64, 256} && 0 !in tag.keyed
    ensures !Answers(tag, |tag.blocks|)
  {
  }

  lemma CardLimit(size: nat, limit: nat)
    requires (size == 64 && limit == 45) || (size == 256 && limit == 213)
    ensures Walk(limit) == size
  {
    Landmarks();
  }

  /** A healthy card stores and reads back a message exactly when it has at most 715 or 3403 bytes. */
  lemma FitsIff(tag: Tag, length: nat)
    requires Healthy(tag)
    ensures AllRead(tag, BlocksFor(length)) && AllAccepted(tag, BlocksFor(length)) <==> length <= Capacity(tag)
  {
    var limit, n := if |tag.blocks| == 64 then 45 else 213, BlocksFor(length);
    assert n <= limit <==> length <= Capacity(tag);
    assert |tag.blocks| in {64, 256};
    hide Walk, Healthy, Reads, Accepts, Capacity, BlocksFor;
    CardLimit(|tag.blocks|, limit);
    forall k: nat | k < limit ensures Reads(tag, Walk(k)) && Accepts(tag, Walk(k)) {
      WalkIncreases(k, limit);
      HealthyBlock(tag, k);
    }
    NothingPastTheEnd(tag);
  }

  /** Writing reports success exactly then, too, on a card whose sector 0 has another key, as formatted cards do. */
  lemma HealthyWriteIff(tag: Tag, length: nat)
    requires Healthy(tag) && 0 !in tag.keyed
    ensures AllAnswer(tag, BlocksFor(length)) <==> length <= Capacity(tag)
  {
    var limit, n := if |tag.blocks| == 64 then 45 else 213, BlocksFor(length);
    assert n <= limit <==> length <= Capacity(tag);
    assert |tag.blocks| in {64, 256};
    hide Walk, Healthy, Capacity, BlocksFor, Answers;
    CardLimit(|tag.blocks|, limit);
    forall k: nat | k < limit ensures Answers(tag, Walk(k)) {
      WalkIncreases(k, limit);
      HealthyBlock(tag, k);
    }
    PastTheEnd(tag);
  }

  /** But on a big card that opens everywhere with the NDEF key, writing reports success for any length. */
  lemma OpenCardAlwaysAnswers(tag: Tag, n: nat)
    requires |tag.blocks| == 256 && tag.mute == {} && forall sector :: 0 <= sector < 40 ==> sector in tag.keyed
    ensures AllAnswer(tag, n)
  {
    hide Walk;
    forall k: nat | k < n ensures Answers(tag, Walk(k)) {
      assert SectorOf(SectorStart(Walk(k)) % 256) < 40;
    }
  }

  // ---------------------------------------------------------------- the whole way

  datatype ReadResult =
    | NotFormatted                              // sector 1 does not open
    | Unreadable                                // block 4 cannot be read
    | BadTlv                                    // block 4 does not start a message
    | Beyond                                    // its length field lies behind the 16 bytes that were read
    | Message(data: seq<byte>, numBytes: nat)   // the bytes handed to the parser

  /** What the first block says is to be read can be read. */
  predicate Readable(tag: Tag) {
    Reads(tag, 4) &&
    (LengthInBlock(tag.blocks[4]) ==>
       var t := DecodeTlv(tag.blocks[4]); t.Some? ==> AllRead(tag, BlocksFor(t.value.length)))
  }

  function ReadTag(tag: Tag): ReadResult
    requires Readable(tag)
  {
    if !LengthInBlock(tag.blocks[4]) then Beyond
    else
      match DecodeTlv(tag.blocks[4])
      case None => BadTlv
      case Some(t) => Message(Gather(tag, BlocksFor(t.length))[t.start..], t.length)
  }

  /** The message, then what the buffer holds behind it. */
  function MessageAndRest(message: seq<byte>): seq<byte> {
    message + [0xFE] + Zeros(BufferSize(|message|) - |TlvHead(|message|)| - |message| - 1)
  }

  /** Reading the card hands exactly this message to the parser. */
  predicate ReadsBack(tag: Tag, message: seq<byte>) {
    Readable(tag) && ReadTag(tag) == Message(MessageAndRest(message), |message|)
  }

  lemma TlvDecides(tag: Tag, message: seq<byte>)
    requires |message| <= 0xFFFF && Reads(tag, 4) && AllRead(tag, BlocksFor(|message|))
    requires tag.blocks[4] == Tlv(message)[..BLOCK_SIZE]
    ensures Readable(tag)
    ensures ReadTag(tag) == Message(Gather(tag, BlocksFor(|message|))[|TlvHead(|message|)|..], |message|)
  {
    TlvReadsBack(message);
    hide Tlv, TlvHead, DecodeTlv, LengthInBlock, Reads, AllRead, BlocksFor, Gather;
  }

  /** A message is read back exactly when the blocks of its walk hold its wrapping. */
  lemma ReadsBackIffHeld(tag: Tag, message: seq<byte>)
    requires |tag.blocks| <= 256 && AllRead(tag, BlocksFor(|message|))
    ensures ReadsBack(tag, message) <==> Gather(tag, BlocksFor(|message|)) == Tlv(message)
  {
    hide *;
    if Gather(tag, BlocksFor(|message|)) == Tlv(message) {
      HeldIsReadBack(tag, message);
    }
    if ReadsBack(tag, message) {
      ReadBackIsHeld(tag, message);
    }
  }

  lemma TlvIsHeadFirst(message: seq<byte>)
    ensures Tlv(message) == TlvHead(|message|) + MessageAndRest(message)
  {
    hide TlvHead;
  }

  lemma HeldIsReadBack(tag: Tag, message: seq<byte>)
    requires |tag.blocks| <= 256 && AllRead(tag, BlocksFor(|message|))
    requires Gather(tag, BlocksFor(|message|)) == Tlv(message)
    ensures ReadsBack(tag, message)
  {
    CardBoundsMessage(tag, |message|);
    FirstGathered(tag, BlocksFor(|message|));
    TlvIsHeadFirst(message);
    hide Tlv, TlvHead, MessageAndRest, BlocksFor, Gather, AllRead, Reads;
    assert Tlv(message)[|TlvHead(|message|)|..] == MessageAndRest(message);
    TlvDecides(tag, message);
  }

  lemma ReadBackIsHeld(tag: Tag, message: seq<byte>)
    requires |tag.blocks| <= 256 && AllRead(tag, BlocksFor(|message|)) && ReadsBack(tag, message)
    ensures Gather(tag, BlocksFor(|message|)) == Tlv(message)
  {
    var head, g := TlvHead(|message|), Gather(tag, BlocksFor(|message|));
    CardBoundsMessage(tag, |message|);
    FoundInFirst(tag, message);
    FirstGathered(tag, BlocksFor(|message|));
    TlvIsHeadFirst(message);
    hide Tlv, TlvHead, MessageAndRest, BlocksFor, Gather, AllRead, Reads, ReadsBack, DecodeTlv, LengthInBlock;
    HeadIsForced(tag.blocks[4], |message|);
    assert g == g[..|head|] + g[|head|..];
    assert g[..|head|] == g[..BLOCK_SIZE][..|head|];
  }

  lemma FoundInFirst(tag: Tag, message: seq<byte>)
    requires AllRead(tag, BlocksFor(|message|)) && ReadsBack(tag, message)
    ensures 4 < |tag.blocks| && LengthInBlock(tag.blocks[4]) && |TlvHead(|message|)| <= BLOCK_SIZE
    ensures DecodeTlv(tag.blocks[4]) == Some(Found(|message|, |TlvHead(|message|)|))
    ensures Gather(tag, BlocksFor(|message|))[|TlvHead(|message|)|..] == MessageAndRest(message)
  {
    var g := Gather(tag, BlocksFor(|message|));
    RestHasLength(message);
    FirstGathered(tag, BlocksFor(|message|));
    hide TlvHead, MessageAndRest, BlocksFor, Gather, AllRead, Reads;
    var t := DecodeTlv(tag.blocks[4]).value;
    assert |g[t.start..]| == |MessageAndRest(message)|;
  }

  lemma RestHasLength(message: seq<byte>)
    ensures |MessageAndRest(message)| + |TlvHead(|message|)| == BlocksFor(|message|) * BLOCK_SIZE
    ensures |TlvHead(|message|)| <= BLOCK_SIZE
  {
  }

  lemma FirstGathered(tag: Tag, n: nat)
    requires n >= 1 && AllRead(tag, n)
    ensures Reads(tag, 4) && 4 < |tag.blocks| && Gather(tag, n)[..BLOCK_SIZE] == tag.blocks[4]
  {
    assert Walk(0) == 4 && Reads(tag, Walk(0));
    hide Reads;
    GatherIs(tag, Gather(tag, n), n);
    assert Gather(tag, n)[..n * BLOCK_SIZE] == Gather(tag, n);
    assert HoldsPart(tag, Gather(tag, n), 0);
  }

  /**
    The driver takes any reply to a write for success. What it wrote is then read back exactly when each
    block of the walk was stored, or was refused while holding the same bytes already.
   */
  lemma WriteIsReadBackIff(tag: Tag, message: seq<byte>)
    requires |tag.blocks| <= 256 && AllRead(tag, BlocksFor(|message|))
    ensures var n := BlocksFor(|message|);
            ReadsBack(Written(tag, Tlv(message), n), message) <==>
            forall k: nat :: k < n ==> Stores(tag, k) || HoldsPart(tag, Tlv(message), k)
  {
    var n, tlv := BlocksFor(|message|), Tlv(message);
    var t := Written(tag, tlv, n);
    CardBoundsMessage(tag, |message|);
    hide Written, Tlv, BlocksFor, Stores, Gather, ReadsBack, Walk;
    assert AllRead(t, n);
    ReadsBackIffHeld(t, message);
    GatherIs(t, tlv, n);
    assert tlv[..n * BLOCK_SIZE] == tlv;
    forall k: nat | k < n ensures HoldsPart(t, tlv, k) <==> Stores(tag, k) || HoldsPart(tag, tlv, k) {
      CommandsDiffer(k);
      ReadsExists(tag, k);
      WrittenBlocks(tag, tlv, n, Walk(k) % 256);
    }
  }

  /** What is read from a card a message was written to without refusals: that message, and what lies behind it. */
  lemma WrittenMessageIsRead(tag: Tag, message: seq<byte>)
    requires |tag.blocks| <= 256 && AllRead(tag, BlocksFor(|message|)) && AllAccepted(tag, BlocksFor(|message|))
    ensures ReadsBack(Written(tag, Tlv(message), BlocksFor(|message|)), message)
  {
    var n := BlocksFor(|message|);
    hide Written, Tlv, BlocksFor, Stores, ReadsBack, AllRead, Accepts;
    WriteIsReadBackIff(tag, message);
    forall k: nat | k < n ensures Stores(tag, k) {
      AcceptedIsStored(tag, k);
    }
  }

  /** A blank card that refuses block 4 answers every command of a short write, and keeps nothing of it. */
  lemma RefusalGoesUnnoticed()
    ensures var blank := seq<Block>(64, _ => Zeros(BLOCK_SIZE));
            var tag := Tag(blank, {1}, {4}, {}, {}, false);
            && AllRead(tag, BlocksFor(0)) && AllAnswer(tag, BlocksFor(0))
            && !ReadsBack(Written(tag, Tlv([]), BlocksFor(0)), [])
  {
    var blank := seq<Block>(64, _ => Zeros(BLOCK_SIZE));
    var tag := Tag(blank, {1}, {4}, {}, {}, false);
    assert BlocksFor(0) == 1 && Walk(0) == 4;
    assert Tlv([])[0] == 3;
    assert !Stores(tag, 0) && !HoldsPart(tag, Tlv([]), 0);
    WriteIsReadBackIff(tag, []);
  }

  /**
    Any message of up to four records that the card stores is handed to the parser; it comes back as it was
    exactly if it is not empty, all its records are expressible and all identifiers commute.
   */
  lemma TagRoundTrip(tag: Tag, records: seq<Record>)
    requires |records| <= MAX_NDEF_RECORDS
    requires |tag.blocks| <= 256
    requires AllRead(tag, BlocksFor(|Encode(records)|)) && AllAccepted(tag, BlocksFor(|Encode(records)|))
    ensures var m := Encode(records);
            var t := Written(tag, Tlv(m), BlocksFor(|m|));
            && Readable(t) && ReadTag(t).Message?
            && (records != [] && AllExpressible(records) ==>
                  Decode(ReadTag(t).data, ReadTag(t).numBytes) == Some(RereadAll(records)))
            && (Decode(ReadTag(t).data, ReadTag(t).numBytes) == Some(records) <==>
                && records != [] && AllExpressible(records)
                && forall i :: 0 <= i < |records| ==> IdCommutes(records[i]))
  {
    var m := Encode(records);
    var behind := MessageAndRest(m)[|m|..];
    assert MessageAndRest(m) == m + behind;
    WrittenMessageIsRead(tag, m);
    hide Encode, Decode, Written, Readable, ReadTag, MessageAndRest;
    if AllExpressible(records) {
      MessageRoundTrip(records, behind);
    }
    MessageIsExactIff(records, behind);
  }
}
