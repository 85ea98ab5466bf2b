/** NdefRecord and NdefMessage as objects: records filled by setters, messages of up to four of them. */
module NdefMessage {
  import opened Machine
  import opened Ndef

  /** A memory with `bytes` copied to `at`. */
  ghost function Overwrite(mem: seq<byte>, at: nat, bytes: seq<byte>): (r: seq<byte>)
    requires at + |bytes| <= |mem|
    ensures |r| == |mem|
  {
    mem[..at] + bytes + mem[at + |bytes|..]
  }

  /** Writing a second piece right behind the first is writing both at once. */
  lemma OverwriteAppends(mem: seq<byte>, at: nat, a: seq<byte>, b: seq<byte>)
    requires at + |a| + |b| <= |mem|
    ensures Overwrite(Overwrite(mem, at, a), at + |a|, b) == Overwrite(mem, at, a + b)
  {
  }

  lemma OverwriteIs(mem: seq<byte>, at: nat, bytes: seq<byte>, now: seq<byte>)
    requires at + |bytes| <= |mem| == |now|
    requires forall i :: 0 <= i < |mem| ==> now[i] == if at <= i < at + |bytes| then bytes[i - at] else mem[i]
    ensures now == Overwrite(mem, at, bytes)
  {
  }

  /** Stores bytes at a pointer and moves it past them; `done` is what was written since `at`. */
  method Store(data: array<byte>, dataPtr: nat, bytes: seq<byte>,
               ghost before: seq<byte>, ghost at: nat, ghost done: seq<byte>)
    returns (next: nat)
    requires at + |done| == dataPtr && dataPtr + |bytes| <= data.Length == |before|
    requires data[..] == Overwrite(before, at, done)
    modifies data
    ensures next == dataPtr + |bytes|
    ensures data[..] == Overwrite(before, at, done + bytes)
  {
    OverwriteAppends(before, at, done, bytes);
    hide Overwrite;
    ghost var was := data[..];
    forall i | 0 <= i < |bytes| {
      data[dataPtr + i] := bytes[i];
    }
    OverwriteIs(was, dataPtr, bytes, data[..]);
    next := dataPtr + |bytes|;
  }

  /** The pieces the encoder writes one after the other. */
  lemma EncodeLayout(r: Record, first: bool, last: bool)
    ensures |EncodeRecord(r, first, last)| == EncodedSize(r)
    ensures var flags, head := [HeaderByte(r, first, last)] + [|r.kind| % 0x100], Head(r, first, last);
            var sizes, record := flags + LengthField(|r.payload|), head + r.kind + r.payload;
            && flags == [] + [HeaderByte(r, first, last)] + [|r.kind| % 0x100]
            && head == (if r.id == [] then sizes else sizes + [|r.id| % 0x100])
            && EncodeRecord(r, first, last) == (if r.id == [] then record else record + r.id)
  {
    RecordHasSize(r, first, last);
    hide HeaderByte, LengthField;
  }

  class NdefRecord {
    var tnf: byte
    var kind: seq<byte>
    var payload: seq<byte>
    var id: seq<byte>

    ghost function Value(): Record
      reads this
    {
      Record(tnf, kind, payload, id)
    }

    constructor ()
      ensures Value() == Record(0, [], [], [])
    {
      tnf, kind, payload, id := 0, [], [], [];
    }

    constructor Copy(r: Record)
      ensures Value() == r
    {
      tnf, kind, payload, id := r.tnf, r.kind, r.payload, r.id;
    }

    method SetTnf(tnf: byte)
      modifies this
      ensures Value() == old(Value()).(tnf := tnf)
    {
      this.tnf := tnf;
    }

    method SetType(bytes: seq<byte>)
      modifies this
      ensures Value() == old(Value()).(kind := bytes)
    {
      kind := bytes;
    }

    method SetPayload(bytes: seq<byte>)
      modifies this
      ensures Value() == old(Value()).(payload := bytes)
    {
      payload := bytes;
    }

    method SetId(bytes: seq<byte>)
      modifies this
      ensures Value() == old(Value()).(id := bytes)
    {
      id := bytes;
    }

    method GetEncodedSize() returns (size: nat)
      ensures forall first, last :: size == |EncodeRecord(Value(), first, last)|
      ensures size == EncodedSize(Value())
    {
      size := 2;
      if |payload| > 0xFF {
        size := size + 4;
      } else {
        size := size + 1;
      }
      if |id| != 0 {
        size := size + 1;
      }
      size := size + |kind| + |payload| + |id|;
      forall first, last ensures size == |EncodeRecord(Value(), first, last)| {
        RecordHasSize(Value(), first, last);
      }
    }

    method GetTnfByte(first: bool, last: bool) returns (value: byte)
      ensures value == HeaderByte(Value(), first, last)
    {
      value := tnf;
      if first {
        value := WithFlag(value, MB);
      }
      if last {
        value := WithFlag(value, ME);
      }
      if |payload| <= 0xFF {
        value := WithFlag(value, SR);
      }
      if |id| != 0 {
        value := WithFlag(value, IL);
      }
    }

    /** The payload's length, in the short form or in the long one. */
    method EncodeLength(data: array<byte>, at: nat, ghost before: seq<byte>, ghost start: nat, ghost done: seq<byte>)
      returns (dataPtr: nat)
      requires start + |done| == at && at + |LengthField(|payload|)| <= data.Length == |before|
      requires data[..] == Overwrite(before, start, done)
      modifies data
      ensures dataPtr == at + |LengthField(|payload|)|
      ensures data[..] == Overwrite(before, start, done + LengthField(|payload|))
    {
      hide Overwrite;
      if |payload| <= 0xFF {
        dataPtr := Store(data, at, [|payload|], before, start, done);
      } else {
        dataPtr := Store(data, at, [0, 0, |payload| / 0x100 % 0x100, |payload| % 0x100], before, start, done);
      }
    }

    /** The bytes before the type: flags and lengths. */
    method EncodeHead(data: array<byte>, at: nat, first: bool, last: bool) returns (dataPtr: nat)
      requires at + EncodedSize(Value()) <= data.Length
      modifies data
      ensures dataPtr == at + |Head(Value(), first, last)| <= data.Length
      ensures data[..] == Overwrite(old(data[..]), at, Head(Value(), first, last))
    {
      ghost var before := data[..];
      EncodeLayout(Value(), first, last);
      var header := GetTnfByte(first, last);
      ghost var flags := [] + [header] + [|kind| % 0x100];
      assert data[..] == Overwrite(before, at, []);
      hide Head, HeaderByte, Overwrite, LengthField;
      dataPtr := Store(data, at, [header], before, at, []);
      dataPtr := Store(data, dataPtr, [|kind| % 0x100], before, at, [] + [header]);
      dataPtr := EncodeLength(data, dataPtr, before, at, flags);
      if |id| != 0 {
        dataPtr := Store(data, dataPtr, [|id| % 0x100], before, at, flags + LengthField(|payload|));
      }
    }

    /** Writes the record at `at`, exactly as many bytes as its encoded size, and nothing else. */
    method Encode(data: array<byte>, at: nat, first: bool, last: bool)
      requires at + EncodedSize(Value()) <= data.Length
      modifies data
      ensures |EncodeRecord(Value(), first, last)| == EncodedSize(Value())
      ensures data[..] == Overwrite(old(data[..]), at, EncodeRecord(Value(), first, last))
    {
      ghost var head, before := Head(Value(), first, last), data[..];
      EncodeLayout(Value(), first, last);
      hide Head, HeaderByte, EncodeRecord, EncodedSize, Overwrite;
      var dataPtr := EncodeHead(data, at, first, last);
      dataPtr := Store(data, dataPtr, kind, before, at, head);
      dataPtr := Store(data, dataPtr, payload, before, at, head + kind);
      if |id| != 0 {
        dataPtr := Store(data, dataPtr, id, before, at, head + kind + payload);
      }
    }
  }

  /** The encodings of the first `i` records, `done`, have been written to `at`. */
  ghost predicate WrittenUpTo(before: seq<byte>, at: nat, records: seq<Record>, i: nat,
                              done: seq<byte>, now: seq<byte>)
  {
    && i <= |records| && done + EncodeFrom(records, i) == Encode(records)
    && at + |Encode(records)| <= |before| && now == Overwrite(before, at, done)
  }

  lemma WriteFirst(before: seq<byte>, at: nat, records: seq<Record>)
    requires at + |Encode(records)| <= |before|
    ensures WrittenUpTo(before, at, records, 0, [], before)
  {
    assert [] + Encode(records) == Encode(records);
  }

  lemma WrittenAll(before: seq<byte>, at: nat, records: seq<Record>, done: seq<byte>, now: seq<byte>)
    requires WrittenUpTo(before, at, records, |records|, done, now)
    ensures now == Overwrite(before, at, Encode(records))
  {
    assert done == Encode(records);
  }

  lemma WriteNext(before: seq<byte>, at: nat, records: seq<Record>, i: nat, done: seq<byte>, now: seq<byte>)
    requires WrittenUpTo(before, at, records, i, done, now) && i < |records|
    ensures var e := EncodeRecord(records[i], i == 0, i + 1 == |records|);
            && |e| == EncodedSize(records[i]) && at + |done| + |e| <= |now| == |before|
            && WrittenUpTo(before, at, records, i + 1, done + e, Overwrite(now, at + |done|, e))
  {
    RecordHasSize(records[i], i == 0, i + 1 == |records|);
    hide EncodeRecord, EncodedSize, Overwrite;
    var e, rest := EncodeRecord(records[i], i == 0, i + 1 == |records|), EncodeFrom(records, i + 1);
    assert done + (e + rest) == done + e + rest;
    OverwriteAppends(before, at, done, e);
  }

  /** The parser has come to `index` with the records `got`, on its way to `result`, or, after the last one, there. */
  ghost predicate Parsing(data: seq<byte>, numBytes: nat, index: nat, got: seq<Record>, done: bool,
                          result: seq<Record>)
  {
    if done then got == result else DecodeFrom(data, numBytes, index, got) == Some(result)
  }

  lemma StartParsing(data: seq<byte>, numBytes: nat, result: seq<Record>)
    requires Ndef.Decode(data, numBytes) == Some(result)
    ensures Parsing(data, numBytes, 0, [], false, result)
  {
  }

  lemma GoOnParsing(data: seq<byte>, numBytes: nat, index: nat, got: seq<Record>, result: seq<Record>)
    requires index <= numBytes && Parsing(data, numBytes, index, got, false, result)
    ensures index <= |data| && DecodeRecord(data[index..]).Some?
    ensures var p := DecodeRecord(data[index..]).value;
            Parsing(data, numBytes, index + p.used, Add(got, p.record), p.last, result)
  {
  }

  lemma StopParsing(data: seq<byte>, numBytes: nat, index: nat, got: seq<Record>, done: bool, result: seq<Record>)
    requires index > numBytes || done
    requires Parsing(data, numBytes, index, got, done, result)
    ensures got == result
  {
  }

  class NdefMessage {
    const records: array<Record>
    var recordCount: nat

    ghost predicate Valid()
      reads this
    {
      records.Length == MAX_NDEF_RECORDS && recordCount <= MAX_NDEF_RECORDS
    }

    ghost function Records(): seq<Record>
      requires Valid()
      reads this, records
    {
      records[..recordCount]
    }

    constructor ()
      ensures Valid() && fresh(records) && Records() == []
    {
      records := new Record[MAX_NDEF_RECORDS](_ => Record(0, [], [], []));
      recordCount := 0;
    }

    /** The parser: decodes `numBytes` bytes of read-only memory. */
    constructor Decode(data: seq<byte>, numBytes: nat)
      requires Ndef.Decode(data, numBytes).Some?
      ensures Valid() && fresh(records) && Some(Records()) == Ndef.Decode(data, numBytes)
    {
      records := new Record[MAX_NDEF_RECORDS](_ => Record(0, [], [], []));
      recordCount := 0;
      new;
      Parse(data, numBytes);
    }

    /** The loop of the decoding constructor. */
    method Parse(data: seq<byte>, numBytes: nat)
      requires Valid() && Records() == [] && Ndef.Decode(data, numBytes).Some?
      modifies this, records
      ensures Valid() && Some(Records()) == Ndef.Decode(data, numBytes)
    {
      ghost var result := Ndef.Decode(data, numBytes).value;
      StartParsing(data, numBytes, result);
      hide *;
      var index: nat, me := 0, false;
      while index <= numBytes && !me
        invariant Valid() && Parsing(data, numBytes, index, Records(), me, result)
        decreases numBytes + 1 - index
      {
        GoOnParsing(data, numBytes, index, Records(), result);
        index, me := ParseRecord(data, index);
      }
      StopParsing(data, numBytes, index, Records(), me, result);
    }

    /** One turn of that loop. */
    method ParseRecord(data: seq<byte>, at: nat) returns (index: nat, me: bool)
      requires Valid() && at <= |data| && DecodeRecord(data[at..]).Some?
      modifies this, records
      ensures var p := DecodeRecord(data[at..]).value;
              && Valid() && Records() == Add(old(Records()), p.record)
              && me == p.last && index == at + p.used > at
    {
      hide DecodeRecord, Add;
      var record, used;
      record, me, used := ReadRecord(data[at..]);
      index := at + used;
      var _ := AddRecord(record);
    }

    /** Half a turn of the parser's loop, on the memory from its index on: flags and lengths, up to the type. */
    static method ReadSizes(data: seq<byte>)
      returns (tnfByte: byte, typeLength: nat, payloadLength: nat, idLength: nat, index: nat)
      requires DecodeRecord(data).Some?
      ensures data != [] && tnfByte == data[0] && (!Flag(tnfByte, IL) ==> idLength == 0)
      ensures index + typeLength + idLength + payloadLength <= |data|
      ensures var idAt, payloadAt := index + typeLength, index + typeLength + idLength;
              var end := payloadAt + payloadLength;
              var r := Record(tnfByte % 8, data[index..idAt], data[payloadAt..end], data[idAt..payloadAt]);
              DecodeRecord(data) == Some(Parsed(r, Flag(tnfByte, ME), end))
    {
      hide Flag, BigEndian;
      index := 0;
      tnfByte := data[index];
      var sr, il := Flag(tnfByte, SR), Flag(tnfByte, IL);
      index := index + 1;
      typeLength := data[index];
      if sr {
        index := index + 1;
        payloadLength := data[index];
      } else {
        payloadLength := BigEndian(data[index + 1..index + 5]);
        index := index + 4;
      }
      idLength := 0;
      if il {
        index := index + 1;
        idLength := data[index];
      }
      index := index + 1;
    }

    /** The record a turn of the parser's loop reads. */
    static method ReadRecord(data: seq<byte>) returns (record: NdefRecord, me: bool, index: nat)
      requires DecodeRecord(data).Some?
      ensures DecodeRecord(data) == Some(Parsed(record.Value(), me, index)) && fresh(record)
    {
      hide DecodeRecord, Flag;
      var tnfByte, typeLength, payloadLength, idLength;
      tnfByte, typeLength, payloadLength, idLength, index := ReadSizes(data);
      me := Flag(tnfByte, ME);
      record := new NdefRecord();
      record.SetTnf(tnfByte % 8);
      record.SetType(data[index..index + typeLength]);
      index := index + typeLength;
      assert idLength == 0 ==> data[index..index + idLength] == [];
      if Flag(tnfByte, IL) {
        record.SetId(data[index..index + idLength]);
        index := index + idLength;
      }
      record.SetPayload(data[index..index + payloadLength]);
      index := index + payloadLength;
    }

    method GetEncodedSize() returns (size: nat)
      requires Valid()
      ensures size == |Ndef.Encode(Records())|
    {
      size := 0;
      for i := 0 to recordCount
        invariant size + SizeFrom(Records(), i) == SizeFrom(Records(), 0)
      {
        size := size + EncodedSize(records[i]);
      }
      EncodeHasSize(Records(), 0);
    }

    /** Writes the message at `at`: as many bytes as its encoded size, and nothing else. */
    method Encode(data: array<byte>, at: nat)
      requires Valid() && at + |Ndef.Encode(Records())| <= data.Length
      modifies data
      ensures data[..] == Overwrite(old(data[..]), at, Ndef.Encode(Records()))
    {
      ghost var before, all, done := data[..], Records(), [];
      var dataPtr := at;
      WriteFirst(before, at, all);
      hide WrittenUpTo, EncodeRecord, EncodedSize, Overwrite, Ndef.Encode;
      for i := 0 to recordCount
        invariant records[..recordCount] == all
        invariant WrittenUpTo(before, at, all, i, done, data[..]) && dataPtr == at + |done|
      {
        WriteNext(before, at, all, i, done, data[..]);
        done := done + EncodeRecord(all[i], i == 0, i + 1 == recordCount);
        assert all[i] == records[i];
        var record := new NdefRecord.Copy(records[i]);
        record.Encode(data, dataPtr, i == 0, i + 1 == recordCount);
        var size := record.GetEncodedSize();
        dataPtr := dataPtr + size;
      }
      WrittenAll(before, at, all, done, data[..]);
    }

    /** A message keeps at most four records and refuses any more. */
    method AddRecord(record: NdefRecord) returns (added: bool)
      requires Valid()
      modifies this, records
      ensures Valid() && added == (|old(Records())| < MAX_NDEF_RECORDS)
      ensures Records() == Add(old(Records()), record.Value())
    {
      if recordCount < MAX_NDEF_RECORDS {
        records[recordCount] := Record(record.tnf, record.kind, record.payload, record.id);
        recordCount := recordCount + 1;
        return true;
      }
      return false;
    }
  }
}
