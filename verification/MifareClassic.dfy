/** The Mifare Classic driver: writing a message to a card block by block, and reading it back. */
module MifareClassic {
  import opened Machine
  import opened TagLayout
  import N = Ndef
  import O = NdefMessage

  /**
    The card behind the reader. Reading and writing a block need its sector to be the one authenticated
    last. Commands carry the low byte of a block number. A block in `mute` brings no reply at all; any
    other refusal is a reply, whose status byte only authentication and reading look at.
   */
  class Card {
    var blocks: seq<Block>
    const keyed: set<int>
    const refusing: set<int>
    const faulty: set<int>
    const mute: set<int>
    const strict: bool
    var session: int

    constructor (tag: Tag)
      requires |tag.blocks| <= 256
      ensures Valid() && View() == tag
    {
      this.blocks, this.keyed, this.refusing, this.faulty := tag.blocks, tag.keyed, tag.refusing, tag.faulty;
      this.mute, this.strict, session := tag.mute, tag.strict, -1;
    }

    ghost predicate Valid()
      reads this
    {
      |blocks| <= 256
    }

    ghost function View(): Tag
      reads this
    {
      Tag(blocks, keyed, refusing, faulty, mute, strict)
    }

    /** Succeeds on a good status byte. */
    method AuthenticateBlock(block: nat) returns (ok: bool)
      requires Valid()
      modifies `session
      ensures var b := block % 256; ok <==> b < |blocks| && SectorOf(b) in keyed && b !in mute
      ensures session == if ok then SectorOf(block % 256) else -1
    {
      var b := block % 256;
      ok := b < |blocks| && SectorOf(b) in keyed && b !in mute;
      session := if ok then SectorOf(b) else -1;
    }

    /** Succeeds on a good status byte. */
    method ReadDataBlock(block: nat) returns (ok: bool, data: Block)
      requires Valid()
      modifies `session
      ensures var b := block % 256;
              && (ok <==> b < |blocks| && SectorOf(b) == old(session) && b !in faulty && b !in mute)
              && (ok ==> data == blocks[b])
      ensures session == if ok || !strict then old(session) else -1
    {
      var b := block % 256;
      ok, data := b < |blocks| && SectorOf(b) == session && b !in faulty && b !in mute, Zeros(BLOCK_SIZE);
      if ok {
        data := blocks[b];
      } else if strict {
        session := -1;
      }
    }

    /** Succeeds on any reply: a refused block counts as written. */
    method WriteDataBlock(block: nat, data: Block) returns (ok: bool)
      requires Valid()
      modifies `blocks, `session
      ensures var b := block % 256;
              var stored := 0 < b < |old(blocks)| && SectorOf(b) == old(session) && b !in refusing && b !in mute;
              && (ok <==> b !in mute)
              && blocks == (if stored then old(blocks)[b := data] else old(blocks))
              && session == if stored || !strict then old(session) else -1
    {
      var b := block % 256;
      var stored := 0 < b < |blocks| && SectorOf(b) == session && b !in refusing && b !in mute;
      if stored {
        blocks := blocks[b := data];
      } else if strict {
        session := -1;
      }
      ok := b !in mute;
    }
  }

  method GetBufferSize(messageLength: nat) returns (bufferSize: nat)
    ensures bufferSize == BufferSize(messageLength)
    ensures var needed := messageLength + |TlvHead(messageLength)| + 1;
            bufferSize % BLOCK_SIZE == 0 && needed <= bufferSize < needed + BLOCK_SIZE
  {
    bufferSize := messageLength;
    if messageLength < 0xFF {
      bufferSize := bufferSize + 3;
    } else {
      bufferSize := bufferSize + 5;
    }
    if bufferSize % BLOCK_SIZE != 0 {
      bufferSize := (bufferSize / BLOCK_SIZE + 1) * BLOCK_SIZE;
    }
  }

  method GetNdefStartIndex(data: Block) returns (index: int)
    ensures index == StartIndex(data, 0)
    ensures index >= 0 ==> index < BLOCK_SIZE && data[index] == 3 && forall i :: 0 <= i < index ==> data[i] == 0
    ensures index >= 0 || index == -1 || index == -2
    ensures index == -1 <==> forall i :: 0 <= i < BLOCK_SIZE ==> data[i] == 0
  {
    for i := 0 to BLOCK_SIZE
      invariant forall j :: 0 <= j < i ==> data[j] == 0
      invariant StartIndex(data, i) == StartIndex(data, 0)
    {
      if data[i] != 0 {
        if data[i] == 3 {
          return i;
        }
        return -2;
      }
    }
    return -1;
  }

  method DecodeTlvOf(data: Block) returns (found: bool, messageLength: nat, messageStartIndex: nat)
    requires LengthInBlock(data)
    ensures found == DecodeTlv(data).Some?
    ensures found ==> DecodeTlv(data) == N.Some(Found(messageLength, messageStartIndex))
  {
    var i := GetNdefStartIndex(data);
    found, messageLength, messageStartIndex := false, 0, 0;
    if i >= 0 {
      found := true;
      if data[i + 1] == 0xFF {
        messageLength := 0x100 * data[i + 2] as int + data[i + 3] as int;
        messageStartIndex := i + 4;
      } else {
        messageLength := data[i + 1];
        messageStartIndex := i + 2;
      }
    }
  }

  lemma TlvIs(message: seq<byte>, t: seq<byte>)
    requires |t| == BufferSize(|message|)
    requires var head := TlvHead(|message|);
             && |head| + |message| < |t| && t[..|head|] == head && t[|head|..|head| + |message|] == message
             && t[|head| + |message|] == 0xFE && forall i :: |head| + |message| < i < |t| ==> t[i] == 0
    ensures t == Tlv(message)
  {
    hide TlvHead, BufferSize;
    var head := TlvHead(|message|);
    var end := |head| + |message|;
    assert t[end + 1..] == Zeros(|t| - (end + 1));
    assert t == t[..|head|] + t[|head|..end] + [t[end]] + t[end + 1..];
  }

  lemma WalkStep(k: nat)
    ensures Walk(k + 1) == Skip(Walk(k) + 1)
  {
  }

  /** What a card answers, stores and reads depends on its defects, not on its content. */
  lemma {:induction false} StoresIgnoresContent(tag: Tag, t: Tag, k: nat)
    requires t == tag.(blocks := t.blocks) && |t.blocks| == |tag.blocks|
    ensures Stores(t, k) == Stores(tag, k) && Answers(t, Walk(k)) == Answers(tag, Walk(k))
    ensures k > 0 ==> SessionAfter(t, k) == SessionAfter(tag, k)
  {
    if k > 0 {
      StoresIgnoresContent(tag, t, k - 1);
    }
    hide Walk;
  }

  lemma ReachesAll(tag: Tag, n: nat)
    requires AllAnswer(tag, n)
    ensures Reach(tag, n, 0) == n
  {
  }

  /** A card whose blocks can be read along the walk answers the commands there. */
  lemma ReadIsAnswered(tag: Tag, n: nat)
    requires AllRead(tag, n)
    ensures AllAnswer(tag, n)
  {
    hide Walk;
    forall k | 0 <= k < n ensures Answers(tag, Walk(k)) {
      assert Reads(tag, Walk(k));
    }
  }

  lemma StartOfWalk(tag: Tag, buffer: seq<byte>, n: nat)
    requires n * BLOCK_SIZE <= |buffer|
    ensures Walk(0) == 4 && IsFirstBlock(4) && Written(tag, buffer, 0) == tag
    ensures Reach(tag, n, n) == n && AllAnswer(tag, 0)
  {
  }

  /** The session a write leaves behind when it has come past `k` blocks. */
  function SessionAfter(tag: Tag, k: nat): int
    requires k > 0
  {
    if tag.strict && !Stores(tag, k - 1) then -1 else OpenSector(Walk(k - 1))
  }

  /** Either the `k`-th block brings no answer and writing stops there, or it goes on behind it. */
  lemma AfterBlock(tag: Tag, buffer: seq<byte>, n: nat, k: nat)
    requires n * BLOCK_SIZE <= |buffer| && k < n && AllAnswer(tag, k)
    ensures k > 0 && !IsFirstBlock(Walk(k)) ==> OpenSector(Walk(k)) == OpenSector(Walk(k - 1))
    ensures if Answers(tag, Walk(k)) then AllAnswer(tag, k + 1) && Reach(tag, n, k) == Reach(tag, n, k + 1)
            else !AllAnswer(tag, n) && Reach(tag, n, k) == k
  {
    SectorIsEnteredFirst(k);
    hide Walk, SectorOf, IsFirstBlock, SectorStart, Answers;
  }

  /** Writing has come past `k` of `n` blocks, and the card is as it is by then. */
  ghost predicate Writing(before: Tag, now: Tag, buffer: seq<byte>, n: nat, k: nat) {
    && k <= n && n * BLOCK_SIZE <= |buffer| && AllAnswer(before, k)
    && Reach(before, n, 0) == Reach(before, n, k) && now == Written(before, buffer, k)
  }

  /** One more command: it brings no answer and that is the end of it, or the card stores the block if it does. */
  lemma NextWritten(before: Tag, now: Tag, buffer: seq<byte>, n: nat, k: nat)
    requires Writing(before, now, buffer, n, k) && k < n
    ensures k > 0 && !IsFirstBlock(Walk(k)) ==> OpenSector(Walk(k)) == OpenSector(Walk(k - 1))
    ensures k > 0 ==> SessionAfter(now, k) == SessionAfter(before, k)
    ensures SessionAfter(now, k + 1) == SessionAfter(before, k + 1)
    ensures !Answers(now, Walk(k)) ==> !AllAnswer(before, n) && now == Written(before, buffer, Reach(before, n, 0))
    ensures Stores(now, k) ==> Walk(k) % 256 < |now.blocks|
    ensures Answers(now, Walk(k)) ==>
              var blocks := if Stores(now, k) then now.blocks[Walk(k) % 256 := Part(buffer, k)] else now.blocks;
              Writing(before, now.(blocks := blocks), buffer, n, k + 1)
  {
    AfterBlock(before, buffer, n, k);
    StoresIgnoresContent(before, now, k);
    hide Walk, SectorOf, IsFirstBlock, SectorStart, Answers, Stores, OpenSector, Reach;
  }

  lemma WritingEnds(before: Tag, now: Tag, buffer: seq<byte>, n: nat)
    requires Writing(before, now, buffer, n, n)
    ensures AllAnswer(before, n) && now == Written(before, buffer, Reach(before, n, 0))
  {
    hide Written;
  }

  /** The same for reading, on a card that lets all `n` blocks be read. */
  lemma AfterRead(tag: Tag, n: nat, k: nat)
    requires k < n && AllRead(tag, n)
    ensures Reads(tag, Walk(k)) && Walk(k) % 256 < |tag.blocks|
    ensures Gather(tag, k + 1) == Gather(tag, k) + tag.blocks[Walk(k) % 256]
    ensures IsFirstBlock(Walk(k + 1)) || OpenSector(Walk(k + 1)) == OpenSector(Walk(k))
  {
    SectorIsEnteredFirst(k + 1);
    assert Reads(tag, Walk(k));
    hide Walk, SectorOf, IsFirstBlock, SectorStart;
  }

  class MifareClassic {
    const nfcShield: Card

    constructor (nfcShield: Card)
      ensures this.nfcShield == nfcShield
    {
      this.nfcShield := nfcShield;
    }

    /** Half a turn of the writing loop: authenticates at a sector's first block, then writes. */
    method WriteBlock(ghost k: nat, block: nat, data: Block) returns (ok: bool)
      requires nfcShield.Valid() && block == Walk(k)
      requires !IsFirstBlock(block) ==> k > 0 && OpenSector(block) == OpenSector(Walk(k - 1)) &&
                                        nfcShield.session == SessionAfter(nfcShield.View(), k)
      modifies nfcShield
      ensures var before := old(nfcShield.View());
              var stored := ok && Stores(before, k);
              && (ok <==> Answers(before, block))
              && nfcShield.View() ==
                 before.(blocks := if stored then before.blocks[block % 256 := data] else before.blocks)
              && (ok ==> nfcShield.session == SessionAfter(before, k + 1))
    {
      StartsAtFirstBlock(block);
      StoresBy(nfcShield.View(), k);
      hide Walk, Stores, SectorStart, SectorOf, IsFirstBlock;
      if IsFirstBlock(block) {
        var success := nfcShield.AuthenticateBlock(block);
        if !success {
          return false;
        }
      }
      ok := nfcShield.WriteDataBlock(block, data);
    }

    /** Writes a buffer of whole blocks along the walk; stops at the first block that brings no answer. */
    method WriteBlocks(buffer: array<byte>) returns (ok: bool)
      requires nfcShield.Valid() && buffer.Length % BLOCK_SIZE == 0
      modifies nfcShield
      ensures var before, n := old(nfcShield.View()), buffer.Length / BLOCK_SIZE;
              && nfcShield.View() == Written(before, buffer[..], Reach(before, n, 0))
              && (ok <==> AllAnswer(before, n))
    {
      ghost var before, n, k, data := nfcShield.View(), buffer.Length / BLOCK_SIZE, 0, buffer[..];
      var index, currentBlock: nat := 0, 4;
      StartOfWalk(before, data, n);
      assert Writing(before, before, data, n, 0);
      hide Writing, Written, Walk, Reach, SectorOf, SectorStart, IsFirstBlock, IsTrailerBlock, Stores, OpenSector,
           Answers, AllAnswer, SessionAfter;
      while index < buffer.Length
        invariant index == BLOCK_SIZE * k && k <= n && currentBlock == Walk(k)
        invariant Writing(before, nfcShield.View(), data, n, k)
        invariant IsFirstBlock(currentBlock) || (k > 0 && nfcShield.session == SessionAfter(before, k))
      {
        NextWritten(before, nfcShield.View(), data, n, k);
        ok := WriteBlock(k, currentBlock, buffer[index..index + BLOCK_SIZE]);
        if !ok {
          return false;
        }
        index := index + BLOCK_SIZE;
        WalkStep(k);
        currentBlock := currentBlock + 1;
        if IsTrailerBlock(currentBlock) {
          currentBlock := currentBlock + 1;
        }
        k := k + 1;
      }
      WritingEnds(before, nfcShield.View(), data, n);
      ok := true;
    }

    /** Wraps an encoded message in its TLV, in a buffer of zeros. */
    method WrapTlv(encoded: array<byte>, buffer: array<byte>)
      requires encoded != buffer && buffer.Length == BufferSize(encoded.Length)
      requires forall i :: 0 <= i < buffer.Length ==> buffer[i] == 0
      modifies buffer
      ensures buffer[..] == Tlv(encoded[..])
    {
      ghost var message := encoded[..];
      var start := PutTlvHead(encoded.Length, buffer);
      hide TlvHead, BufferSize;
      forall i | 0 <= i < encoded.Length {
        buffer[start + i] := encoded[i];
      }
      buffer[start + encoded.Length] := 0xFE;
      TlvIs(message, buffer[..]);
    }

    /** The type and length at the front of the buffer. */
    method PutTlvHead(length: nat, buffer: array<byte>) returns (start: nat)
      requires buffer.Length == BufferSize(length)
      modifies buffer
      ensures start == |TlvHead(length)|
      ensures start + length < buffer.Length && buffer[..start] == TlvHead(length)
      ensures forall i :: start <= i < buffer.Length ==> buffer[i] == old(buffer[i])
    {
      if length < 0xFF {
        buffer[0], buffer[1] := 3, length;
        start := 2;
      } else {
        buffer[0], buffer[1] := 3, 0xFF;
        buffer[2], buffer[3] := length / 0x100 % 0x100, length % 0x100;
        start := 4;
      }
    }

    /**
      Writes a message to the card. It reports success exactly when every sector it enters opens and no
      reply is missing, whatever the replies say; the card then holds what it stored of the message.
     */
    method Write(m: O.NdefMessage) returns (ok: bool)
      requires nfcShield.Valid() && m.Valid()
      modifies nfcShield
      ensures var before, message := old(nfcShield.View()), N.Encode(m.Records());
              var n := BlocksFor(|message|);
              && (ok <==> AllAnswer(before, n))
              && nfcShield.View() == Written(before, Tlv(message), Reach(before, n, 0))
              && (ok && AllRead(before, n) ==>
                    (ReadsBack(nfcShield.View(), message) <==>
                     forall k: nat :: k < n ==> Stores(before, k) || HoldsPart(before, Tlv(message), k)))
    {
      var size := m.GetEncodedSize();
      var encoded := new byte[size](_ => 0);
      m.Encode(encoded, 0);
      assert encoded[..] == N.Encode(m.Records());
      var bufferSize := GetBufferSize(encoded.Length);
      var buffer := new byte[bufferSize](_ => 0);
      WrapTlv(encoded, buffer);
      ghost var before, message := nfcShield.View(), N.Encode(m.Records());
      ok := WriteBlocks(buffer);
      if ok && AllRead(before, BlocksFor(|message|)) {
        ReachesAll(before, BlocksFor(|message|));
        WriteIsReadBackIff(before, message);
      }
    }

    /** Reads the blocks a message of a known length takes. A block that fails leaves its part of the buffer alone. */
    method ReadBlocks(buffer: array<byte>)
      requires nfcShield.Valid() && buffer.Length % BLOCK_SIZE == 0
      modifies nfcShield`session, buffer
      ensures AllRead(nfcShield.View(), buffer.Length / BLOCK_SIZE) ==>
                buffer[..] == Gather(nfcShield.View(), buffer.Length / BLOCK_SIZE)
    {
      ghost var tag, n, k := nfcShield.View(), buffer.Length / BLOCK_SIZE, 0;
      var index, currentBlock: nat := 0, 4;
      StartOfWalk(tag, buffer[..], n);
      hide Gather, Walk, SectorOf, SectorStart, IsFirstBlock, IsTrailerBlock, Reads, OpenSector;
      while index < buffer.Length
        invariant index == BLOCK_SIZE * k && k <= n && currentBlock == Walk(k)
        invariant AllRead(tag, n) ==> buffer[..index] == Gather(tag, k)
        invariant AllRead(tag, n) ==> IsFirstBlock(currentBlock) || nfcShield.session == OpenSector(currentBlock)
      {
        ghost var done := buffer[..index];
        if AllRead(tag, n) {
          AfterRead(tag, n, k);
        }
        ReadBlock(currentBlock, buffer, index);
        assert AllRead(tag, n) ==> buffer[..index + BLOCK_SIZE] == done + tag.blocks[Walk(k) % 256];
        index := index + BLOCK_SIZE;
        WalkStep(k);
        currentBlock := currentBlock + 1;
        if IsTrailerBlock(currentBlock) {
          currentBlock := currentBlock + 1;
        }
        k := k + 1;
      }
    }

    /** Half a turn of the reading loop: authenticates at a sector's first block, then reads into the buffer. */
    method ReadBlock(block: nat, buffer: array<byte>, index: nat)
      requires nfcShield.Valid() && index + BLOCK_SIZE <= buffer.Length
      modifies nfcShield`session, buffer
      ensures buffer[..index] == old(buffer[..index])
      ensures Reads(nfcShield.View(), block) &&
              (IsFirstBlock(block) || old(nfcShield.session) == OpenSector(block)) ==>
                && buffer[index..index + BLOCK_SIZE] == nfcShield.blocks[block % 256]
                && nfcShield.session == OpenSector(block)
    {
      StartsAtFirstBlock(block);
      hide SectorOf, SectorStart, IsFirstBlock;
      if IsFirstBlock(block) {
        var _ := nfcShield.AuthenticateBlock(block);
      }
      var success, data := nfcShield.ReadDataBlock(block);
      if success {
        forall i | 0 <= i < BLOCK_SIZE {
          buffer[index + i] := data[i];
        }
        assert buffer[index..index + BLOCK_SIZE] == data;
      }
    }

    /** Reads the card; what it hands to the parser is fixed by the card when every block involved can be read. */
    method Read() returns (result: ReadResult)
      requires nfcShield.Valid()
      modifies nfcShield`session
      ensures Readable(nfcShield.View()) ==> result == ReadTag(nfcShield.View())
      ensures result.NotFormatted? <==> !(4 < |nfcShield.blocks| && 1 in nfcShield.keyed && 4 !in nfcShield.mute)
      ensures result.Unreadable? <==> !result.NotFormatted? && 4 in nfcShield.faulty
      ensures result.Beyond? <==> Reads(nfcShield.View(), 4) && !LengthInBlock(nfcShield.blocks[4])
    {
      var currentBlock := 4;
      var success := nfcShield.AuthenticateBlock(currentBlock);
      if !success {
        return NotFormatted;
      }
      var data;
      success, data := nfcShield.ReadDataBlock(currentBlock);
      if !success {
        return Unreadable;
      }
      if !LengthInBlock(data) {
        return Beyond;
      }
      var found, messageLength, messageStartIndex := DecodeTlvOf(data);
      if !found {
        return BadTlv;
      }
      var bufferSize := GetBufferSize(messageLength);
      var buffer := new byte[bufferSize];
      ReadBlocks(buffer);
      return Message(buffer[messageStartIndex..], messageLength);
    }

    /** A client's round trip: writes a message, reads the card, and parses what it is handed. */
    method WriteThenRead(m: O.NdefMessage) returns (ok: bool, again: O.NdefMessage)
      requires nfcShield.Valid() && m.Valid()
      requires m.Records() != [] && N.AllExpressible(m.Records())
      requires var n := BlocksFor(|N.Encode(m.Records())|);
               AllRead(nfcShield.View(), n) && AllAccepted(nfcShield.View(), n)
      modifies nfcShield
      ensures ok && again.Valid() && fresh(again) && again.Records() == N.RereadAll(old(m.Records()))
      ensures again.Records() == old(m.Records()) <==>
              forall i :: 0 <= i < |old(m.Records())| ==> N.IdCommutes(old(m.Records())[i])
    {
      ghost var tag, records := nfcShield.View(), m.Records();
      ghost var n := BlocksFor(|N.Encode(records)|);
      TagRoundTrip(tag, records);
      ReadIsAnswered(tag, n);
      ReachesAll(tag, n);
      hide *;
      ok := Write(m);
      var result := Read();
      again := new O.NdefMessage.Decode(result.data, result.numBytes);
    }
  }
}
