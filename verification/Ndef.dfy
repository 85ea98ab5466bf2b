/**
  The wire form of NDEF messages, on values: how records are laid out in bytes and how the parser
  reads them back.
 */
module Ndef {
  import opened Machine

  const MAX_NDEF_RECORDS := 4

  const MB := 0x80
  const ME := 0x40
  const CF := 0x20
  const SR := 0x10
  const IL := 0x08

  datatype Option<T> = None | Some(value: T)

  datatype Record = Record(tnf: byte, kind: seq<byte>, payload: seq<byte>, id: seq<byte>)

  /** A record read from memory, whether it was the message's last, and how many bytes it took. */
  datatype Parsed = Parsed(record: Record, last: bool, used: nat)

  predicate Flag(v: byte, bit: int)
    requires bit > 0
  {
    v / bit % 2 == 1
  }

  /** `v | bit` for a single bit of a byte. */
  function WithFlag(v: byte, bit: int): (r: byte)
    requires bit in {MB, ME, SR, IL}
    ensures Flag(r, bit)
  {
    if Flag(v, bit) then v else v + bit
  }

  function HeaderByte(r: Record, first: bool, last: bool): byte {
    var v := if first then WithFlag(r.tnf, MB) else r.tnf;
    var v := if last then WithFlag(v, ME) else v;
    var v := if |r.payload| <= 0xFF then WithFlag(v, SR) else v;
    if r.id != [] then WithFlag(v, IL) else v
  }

  function LengthField(n: nat): seq<byte> {
    if n <= 0xFF then [n] else [0, 0, n / 0x100 % 0x100, n % 0x100]
  }

  function IdLengthField(n: nat): seq<byte> {
    if n == 0 then [] else [n % 0x100]
  }

  function Head(r: Record, first: bool, last: bool): seq<byte> {
    [HeaderByte(r, first, last), |r.kind| % 0x100] + LengthField(|r.payload|) + IdLengthField(|r.id|)
  }

  function EncodeRecord(r: Record, first: bool, last: bool): seq<byte> {
    Head(r, first, last) + r.kind + r.payload + r.id
  }

  function EncodedSize(r: Record): nat {
    2 + (if |r.payload| > 0xFF then 4 else 1) + (if |r.id| != 0 then 1 else 0)
    + (|r.kind| + |r.payload| + |r.id|)
  }

  /** The records from the `i`-th on; the first and the last of the message are marked. */
  function EncodeFrom(records: seq<Record>, i: nat): seq<byte>
    requires i <= |records|
    decreases |records| - i
  {
    if i == |records| then []
    else EncodeRecord(records[i], i == 0, i + 1 == |records|) + EncodeFrom(records, i + 1)
  }

  function SizeFrom(records: seq<Record>, i: nat): nat
    requires i <= |records|
    decreases |records| - i
  {
    if i == |records| then 0 else EncodedSize(records[i]) + SizeFrom(records, i + 1)
  }

  function Encode(records: seq<Record>): seq<byte> {
    EncodeFrom(records, 0)
  }

  function BigEndian(d: seq<byte>): nat
    requires |d| == 4
  {
    0x100_0000 * d[0] as int + 0x1_0000 * d[1] as int + 0x100 * d[2] as int + d[3] as int
  }

  /** One turn of the parser's loop, on the memory from its index on; `None` when it would read beyond it. */
  function DecodeRecord(d: seq<byte>): (p: Option<Parsed>)
    ensures p.Some? ==> 3 <= p.value.used <= |d|
  {
    if |d| < 2 then None else
      var lengthEnd := if Flag(d[0], SR) then 3 else 6;
      var start := lengthEnd + if Flag(d[0], IL) then 1 else 0;
      if |d| < start then None else
        var payloadLength := if Flag(d[0], SR) then d[2] as int else BigEndian(d[2..6]);
        var idLength := if Flag(d[0], IL) then d[lengthEnd] as int else 0;
        var idStart := start + d[1] as int;
        var payloadStart := idStart + idLength;
        var used := payloadStart + payloadLength;
        if |d| < used then None else
          Some(Parsed(Record(d[0] % 8, d[start..idStart], d[payloadStart..used], d[idStart..payloadStart]),
                      Flag(d[0], ME), used))
  }

  /** A record beyond the fourth is dropped. */
  function Add(records: seq<Record>, r: Record): seq<Record> {
    if |records| < MAX_NDEF_RECORDS then records + [r] else records
  }

  /** The parser's loop; it stops after the record marked last, or once it is beyond `numBytes`. */
  function DecodeFrom(data: seq<byte>, numBytes: nat, index: nat, records: seq<Record>): Option<seq<Record>>
    decreases numBytes + 1 - index
  {
    if index > numBytes then Some(records)
    else if index > |data| then None
    else
      match DecodeRecord(data[index..])
      case None => None
      case Some(p) =>
        if p.last then Some(Add(records, p.record))
        else DecodeFrom(data, numBytes, index + p.used, Add(records, p.record))
  }

  function Decode(data: seq<byte>, numBytes: nat): Option<seq<Record>> {
    DecodeFrom(data, numBytes, 0, [])
  }

  // ---------------------------------------------------------------- sizes

  lemma {:induction false} EncodeHasSize(records: seq<Record>, i: nat)
    requires i <= |records|
    ensures |EncodeFrom(records, i)| == SizeFrom(records, i)
    decreases |records| - i
  {
    hide EncodeRecord, EncodedSize;
    if i < |records| {
      RecordHasSize(records[i], i == 0, i + 1 == |records|);
      EncodeHasSize(records, i + 1);
    }
  }

  // ---------------------------------------------------------------- one record

  /** What the record format can express: three bits of TNF, and lengths of one, two and one bytes. */
  predicate Expressible(r: Record) {
    r.tnf < 8 && |r.kind| <= 0xFF && |r.payload| <= 0xFFFF && |r.id| <= 0xFF
  }

  predicate IdCommutes(r: Record) {
    r.id + r.payload == r.payload + r.id
  }

  /** What the parser makes of a record: the identifier is written after the payload but read before it. */
  function Reread(r: Record): Record {
    var body := r.payload + r.id;
    r.(id := body[..|r.id|], payload := body[|r.id|..])
  }

  predicate SameShape(r: Record, s: Record) {
    r.tnf == s.tnf && r.kind == s.kind && |r.payload| == |s.payload| && |r.id| == |s.id|
  }

  /** Rereading keeps the shape and the bytes in order; it is exact just when identifier and payload commute. */
  lemma RereadMovesTheId(r: Record)
    ensures SameShape(Reread(r), r)
    ensures Reread(r).id + Reread(r).payload == r.payload + r.id
    ensures Reread(r) == r <==> IdCommutes(r)
    ensures r.id == [] ==> Reread(r) == r && IdCommutes(r)
  {
    var body := r.payload + r.id;
    assert body == body[..|r.id|] + body[|r.id|..];
    if r.id + r.payload == body {
      assert body[..|r.id|] == r.id && body[|r.id|..] == r.payload;
    }
    if Reread(r) == r {
      assert r.id + r.payload == body;
    }
  }

  lemma FlagsAreIndependent(t: nat, mb: int, me: int, sr: int, il: int)
    requires t < 8 && 0 <= mb <= 1 && 0 <= me <= 1 && 0 <= sr <= 1 && 0 <= il <= 1
    ensures var h := t + MB * mb + ME * me + SR * sr + IL * il;
            && h < 0x100 && h % 8 == t && h / CF % 2 == 0
            && h / MB % 2 == mb && h / ME % 2 == me && h / SR % 2 == sr && h / IL % 2 == il
  {
    var h := t + MB * mb + ME * me + SR * sr + IL * il;
    assert h / IL == il + 2 * sr + 8 * me + 16 * mb;
    assert h / SR == sr + 4 * me + 8 * mb;
    assert h / CF == 2 * me + 4 * mb;
    assert h / ME == me + 2 * mb;
    assert h / MB == mb;
  }

  function One(b: bool): nat {
    if b then 1 else 0
  }

  lemma AddFlag(v: byte, bit: int, on: bool)
    requires bit in {MB, ME, SR, IL} && v / bit % 2 == 0
    ensures (if on then WithFlag(v, bit) else v) == v + bit * One(on)
  {
  }

  lemma NextFlagIsClear(t: nat, mb: int, me: int, sr: int)
    requires t < 8 && 0 <= mb <= 1 && 0 <= me <= 1 && 0 <= sr <= 1
    ensures t / MB % 2 == 0 && (t + MB * mb) / ME % 2 == 0 && (t + MB * mb + ME * me) / SR % 2 == 0
    ensures t + MB * mb + ME * me + SR * sr < 0x100 && (t + MB * mb + ME * me + SR * sr) / IL % 2 == 0
  {
    FlagsAreIndependent(t, 0, 0, 0, 0);
    FlagsAreIndependent(t, mb, 0, 0, 0);
    FlagsAreIndependent(t, mb, me, 0, 0);
    FlagsAreIndependent(t, mb, me, sr, 0);
  }

  /** Setting one flag after the other adds them up, since none is set yet. */
  lemma HeaderIsSum(r: Record, first: bool, last: bool)
    requires r.tnf < 8
    ensures HeaderByte(r, first, last) ==
            r.tnf + MB * One(first) + ME * One(last) + SR * One(|r.payload| <= 0xFF) + IL * One(r.id != [])
  {
    var mb, me, sr := One(first), One(last), One(|r.payload| <= 0xFF);
    NextFlagIsClear(r.tnf, mb, me, sr);
    hide WithFlag, Flag, One;
    AddFlag(r.tnf, MB, first);
    AddFlag(r.tnf + MB * mb, ME, last);
    AddFlag(r.tnf + MB * mb + ME * me, SR, |r.payload| <= 0xFF);
    AddFlag(r.tnf + MB * mb + ME * me + SR * sr, IL, r.id != []);
  }

  /** The parser's four flags and the TNF are recovered from the header byte, which never says "chunked". */
  lemma HeaderSaysIt(r: Record, first: bool, last: bool)
    requires r.tnf < 8
    ensures var h := HeaderByte(r, first, last);
            && h % 8 == r.tnf && (Flag(h, MB) <==> first) && (Flag(h, ME) <==> last) && !Flag(h, CF)
            && (Flag(h, SR) <==> |r.payload| <= 0xFF) && (Flag(h, IL) <==> r.id != [])
  {
    hide HeaderByte;
    HeaderIsSum(r, first, last);
    FlagsAreIndependent(r.tnf, One(first), One(last), One(|r.payload| <= 0xFF), One(r.id != []));
  }

  lemma LengthReadsBack(n: nat)
    requires 0xFF < n <= 0xFFFF
    ensures BigEndian(LengthField(n)) == n
  {
  }

  lemma HeadSaysIt(r: Record, first: bool, last: bool)
    requires Expressible(r)
    ensures var h, lengthEnd := Head(r, first, last), if |r.payload| <= 0xFF then 3 else 6;
            && |h| == (if r.id == [] then lengthEnd else lengthEnd + 1)
            && h[0] == HeaderByte(r, first, last) && h[1] == |r.kind|
            && (if |r.payload| <= 0xFF then h[2] as int else BigEndian(h[2..6])) == |r.payload|
            && (r.id != [] ==> h[lengthEnd] == |r.id|)
  {
    hide HeaderByte;
    if |r.payload| > 0xFF {
      LengthReadsBack(|r.payload|);
      assert Head(r, first, last)[2..6] == LengthField(|r.payload|);
    }
  }

  lemma FourParts(h: seq<byte>, kind: seq<byte>, body: seq<byte>, post: seq<byte>, m: nat)
    requires m <= |body|
    ensures var d, a := h + kind + body + post, |h| + |kind|;
            && d[..|h|] == h && d[|h|..a] == kind && d[a..a + m] == body[..m] && d[a + m..a + |body|] == body[m..]
  {
    var d := h + kind + body + post;
    assert d == h + (kind + (body + post));
    assert d[|h| + |kind|..][..|body|] == body;
    assert d[..|h|] == h && d[|h|..|h| + |kind|] == kind;
  }

  lemma PrefixReads(h: seq<byte>, d: seq<byte>)
    requires |h| <= |d| && d[..|h|] == h
    ensures forall i :: 0 <= i < |h| ==> d[i] == h[i]
    ensures |h| >= 6 ==> d[2..6] == h[2..6]
  {
    assert forall i :: 0 <= i < |h| ==> d[i] == d[..|h|][i];
    assert |h| >= 6 ==> d[2..6] == d[..|h|][2..6];
  }

  lemma ParserFindsTheParts(r: Record, first: bool, last: bool, d: seq<byte>)
    requires Expressible(r)
    requires var h, body := Head(r, first, last), r.payload + r.id;
             var a := |h| + |r.kind|;
             && a + |body| <= |d| && d[..|h|] == h && d[|h|..a] == r.kind
             && d[a..a + |r.id|] == body[..|r.id|] && d[a + |r.id|..a + |body|] == body[|r.id|..]
    ensures DecodeRecord(d) == Some(Parsed(Reread(r), last, EncodedSize(r)))
  {
    var h := Head(r, first, last);
    HeaderSaysIt(r, first, last);
    HeadSaysIt(r, first, last);
    hide Head, HeaderByte, WithFlag, Flag, BigEndian;
    PrefixReads(h, d);
  }

  lemma Regroup(a: seq<byte>, b: seq<byte>, c: seq<byte>, d: seq<byte>)
    ensures a + b + c + d == a + (b + c) + d
  {
  }

  /** Whatever follows an encoded expressible record, the parser reads its reread form and stops right behind it. */
  lemma RecordRoundTrip(r: Record, first: bool, last: bool, post: seq<byte>)
    requires Expressible(r)
    ensures DecodeRecord(EncodeRecord(r, first, last) + post) == Some(Parsed(Reread(r), last, EncodedSize(r)))
  {
    var h, body := Head(r, first, last), r.payload + r.id;
    FourParts(h, r.kind, body, post, |r.id|);
    Regroup(h + r.kind, r.payload, r.id, post);
    assert EncodeRecord(r, first, last) == h + r.kind + r.payload + r.id;
    hide *;
    ParserFindsTheParts(r, first, last, EncodeRecord(r, first, last) + post);
  }

  /** The shapes the parser can produce. */
  lemma ParsedShape(d: seq<byte>)
    requires DecodeRecord(d).Some?
    ensures var r := DecodeRecord(d).value.record;
            && |d| >= 3 && r.tnf == d[0] % 8 && |r.kind| <= 0xFF && |r.id| <= 0xFF
            && (!Flag(d[0], SR) ==> |d| >= 6 && |r.payload| == BigEndian(d[2..6]))
  {
    hide Flag, BigEndian;
  }

  /** Only expressible records keep their type, TNF and lengths. */
  lemma OnlyExpressibleRecordsKeepShape(r: Record, first: bool, last: bool, post: seq<byte>)
    ensures var p := DecodeRecord(EncodeRecord(r, first, last) + post);
            p.Some? && SameShape(p.value.record, r) <==> Expressible(r)
  {
    if Expressible(r) {
      RereadMovesTheId(r);
      RecordRoundTrip(r, first, last, post);
    } else {
      InexpressibleLosesShape(r, first, last, post);
    }
  }

  lemma InexpressibleLosesShape(r: Record, first: bool, last: bool, post: seq<byte>)
    requires !Expressible(r)
    ensures var p := DecodeRecord(EncodeRecord(r, first, last) + post);
            p.Some? ==> !SameShape(p.value.record, r)
  {
    var d := EncodeRecord(r, first, last) + post;
    if r.tnf < 8 && |r.payload| > 0xFFFF {
      HeaderSaysIt(r, first, last);
      assert d[0] == HeaderByte(r, first, last) && d[2..6] == LengthField(|r.payload|);
      assert BigEndian(d[2..6]) <= 0xFFFF;
    }
    hide DecodeRecord, EncodeRecord, HeaderByte, Flag, BigEndian;
    if DecodeRecord(d).Some? {
      ParsedShape(d);
    }
  }

  /** The identifier is lost even in a record of two bytes. */
  lemma IdIsMoved()
    ensures var r := Record(1, [], [1], [2]);
            && Expressible(r) && !IdCommutes(r)
            && forall first, last, post ::
                 DecodeRecord(EncodeRecord(r, first, last) + post) ==
                 Some(Parsed(r.(payload := [2], id := [1]), last, 6))
  {
    var r := Record(1, [], [1], [2]);
    assert Reread(r) == r.(payload := [2], id := [1]) by {
      assert r.payload + r.id == [1, 2];
    }
    hide DecodeRecord, EncodeRecord, Reread;
    forall first, last, post
      ensures DecodeRecord(EncodeRecord(r, first, last) + post) == Some(Parsed(r.(payload := [2], id := [1]), last, 6))
    {
      RecordRoundTrip(r, first, last, post);
    }
  }

  /** And a type of 256 bytes is written as none. */
  lemma LongTypeIsLost(payload: seq<byte>, id: seq<byte>, first: bool, last: bool, post: seq<byte>)
    ensures var r := Record(1, seq(256, _ => 0), payload, id);
            var p := DecodeRecord(EncodeRecord(r, first, last) + post);
            !Expressible(r) && (p.Some? ==> p.value.record.kind == [])
  {
    var r := Record(1, seq(256, _ => 0), payload, id);
    var d := EncodeRecord(r, first, last) + post;
    assert d[1] == |r.kind| % 0x100 == 0;
  }

  // ---------------------------------------------------------------- whole messages

  function RereadAll(records: seq<Record>): seq<Record> {
    seq(|records|, i requires 0 <= i < |records| => Reread(records[i]))
  }

  predicate AllExpressible(records: seq<Record>) {
    forall i :: 0 <= i < |records| ==> Expressible(records[i])
  }

  /** What the parser makes of the records from the `i`-th on, with the bytes before them already parsed. */
  function DecodeRest(records: seq<Record>, i: nat, pre: seq<byte>, post: seq<byte>): Option<seq<Record>>
    requires i <= |records|
  {
    DecodeFrom(pre + EncodeFrom(records, i) + post, |pre| + SizeFrom(records, i), |pre|, RereadAll(records[..i]))
  }

  /** What the parser has before it when it comes to the `i`-th record. */
  lemma Ahead(records: seq<Record>, i: nat, pre: seq<byte>, post: seq<byte>)
    requires i < |records|
    ensures (pre + EncodeFrom(records, i) + post)[|pre|..] ==
            EncodeRecord(records[i], i == 0, i + 1 == |records|) + (EncodeFrom(records, i + 1) + post)
  {
    hide EncodeRecord;
  }

  /** An expressible record takes one turn. */
  lemma RestTurn(records: seq<Record>, i: nat, pre: seq<byte>, post: seq<byte>)
    requires i < |records| <= MAX_NDEF_RECORDS && Expressible(records[i])
    ensures var last := i + 1 == |records|;
            DecodeRest(records, i, pre, post) ==
            if last then Some(RereadAll(records))
            else DecodeRest(records, i + 1, pre + EncodeRecord(records[i], i == 0, last), post)
  {
    hide EncodeRecord, DecodeRecord, DecodeFrom, Reread, Expressible, EncodedSize, RereadAll, Add;
    var r, last := records[i], i + 1 == |records|;
    var e, rest := EncodeRecord(r, i == 0, last), EncodeFrom(records, i + 1);
    Ahead(records, i, pre, post);
    var data, numBytes := pre + EncodeFrom(records, i) + post, |pre| + SizeFrom(records, i);
    RecordRoundTrip(r, i == 0, last, rest + post);
    RecordHasSize(r, i == 0, last);
    DecodeTurn(data, numBytes, |pre|, RereadAll(records[..i]), Parsed(Reread(r), last, |e|));
    RereadOneMore(records, i);
    assert data == pre + e + rest + post;
  }

  lemma {:induction false} RestRoundTrip(records: seq<Record>, i: nat, pre: seq<byte>, post: seq<byte>)
    requires i < |records| <= MAX_NDEF_RECORDS && AllExpressible(records)
    ensures DecodeRest(records, i, pre, post) == Some(RereadAll(records))
    decreases |records| - i
  {
    hide EncodeRecord, DecodeRest, Expressible, RereadAll;
    RestTurn(records, i, pre, post);
    if i + 1 < |records| {
      RestRoundTrip(records, i + 1, pre + EncodeRecord(records[i], i == 0, false), post);
    }
  }

  lemma DecodeTurn(data: seq<byte>, numBytes: nat, index: nat, done: seq<Record>, p: Parsed)
    requires index <= numBytes && index <= |data| && DecodeRecord(data[index..]) == Some(p)
    ensures DecodeFrom(data, numBytes, index, done)
         == if p.last then Some(Add(done, p.record))
            else DecodeFrom(data, numBytes, index + p.used, Add(done, p.record))
  {
  }

  lemma RereadOneMore(records: seq<Record>, i: nat)
    requires i < |records| <= MAX_NDEF_RECORDS
    ensures Add(RereadAll(records[..i]), Reread(records[i])) == RereadAll(records[..i + 1])
    ensures i + 1 == |records| ==> RereadAll(records[..i + 1]) == RereadAll(records)
    ensures |RereadAll(records[..i])| == i
  {
    hide Reread;
  }

  /** Encoding nothing writes nothing, and the parser, which always reads one record, then reads something else. */
  lemma EmptyMessageIsMisread(data: seq<byte>)
    ensures Decode(data, 0) != Some([])
  {
    hide DecodeRecord;
    assert data[0..] == data;
    var p := DecodeRecord(data);
    if p.Some? && !p.value.last {
      assert DecodeFrom(data, 0, p.value.used, Add([], p.value.record)) == Some(Add([], p.value.record));
    }
  }

  lemma RecordHasSize(r: Record, first: bool, last: bool)
    ensures |EncodeRecord(r, first, last)| == EncodedSize(r) >= 3
  {
  }

  lemma NonEmptyRoundTrip(records: seq<Record>, post: seq<byte>)
    requires 1 <= |records| <= MAX_NDEF_RECORDS && AllExpressible(records)
    ensures Decode(Encode(records) + post, |Encode(records)|) == Some(RereadAll(records))
  {
    hide EncodeFrom, DecodeFrom, SizeFrom, Reread, Expressible;
    EncodeHasSize(records, 0);
    RestRoundTrip(records, 0, [], post);
    assert RereadAll(records[..0]) == [];
    assert [] + Encode(records) + post == Encode(records) + post;
  }

  /** A message of up to four expressible records is parsed back, whatever follows it, unless it is empty. */
  lemma MessageRoundTrip(records: seq<Record>, post: seq<byte>)
    requires |records| <= MAX_NDEF_RECORDS && AllExpressible(records)
    ensures Decode(Encode(records) + post, |Encode(records)|) == Some(RereadAll(records)) <==> records != []
  {
    if records == [] {
      assert RereadAll(records) == [];
      EmptyMessageIsMisread(Encode(records) + post);
    } else {
      NonEmptyRoundTrip(records, post);
    }
  }

  /** Parsing an encoded message gives the message itself just when every identifier commutes with its payload. */
  lemma RoundTripIsExactIff(records: seq<Record>, post: seq<byte>)
    requires 1 <= |records| <= MAX_NDEF_RECORDS && AllExpressible(records)
    ensures Decode(Encode(records) + post, |Encode(records)|) == Some(records)
        <==> forall i :: 0 <= i < |records| ==> IdCommutes(records[i])
    ensures (forall i :: 0 <= i < |records| ==> records[i].id == []) ==>
              Decode(Encode(records) + post, |Encode(records)|) == Some(records)
  {
    MessageRoundTrip(records, post);
    hide Decode, Encode, Reread, Expressible, IdCommutes;
    forall i | 0 <= i < |records|
      ensures RereadAll(records)[i] == records[i] <==> IdCommutes(records[i])
      ensures records[i].id == [] ==> IdCommutes(records[i])
    {
      RereadMovesTheId(records[i]);
    }
    if forall i :: 0 <= i < |records| ==> IdCommutes(records[i]) {
      assert RereadAll(records) == records;
    }
  }

  /** The parser only ever adds records behind those it has. */
  lemma {:induction false} DecodeKeeps(data: seq<byte>, numBytes: nat, index: nat, done: seq<Record>)
    ensures var result := DecodeFrom(data, numBytes, index, done);
            result.Some? ==> done <= result.value
    decreases numBytes + 1 - index
  {
    hide DecodeRecord;
    if index <= numBytes && index <= |data| && DecodeRecord(data[index..]).Some? {
      var p := DecodeRecord(data[index..]).value;
      if !p.last {
        DecodeKeeps(data, numBytes, index + p.used, Add(done, p.record));
      }
    }
  }

  /** A turn that does not yield the record wanted spoils the result. */
  lemma WrongTurn(data: seq<byte>, numBytes: nat, index: nat, done: seq<Record>, records: seq<Record>, i: nat)
    requires index <= numBytes && index <= |data| && |done| == i < |records| <= MAX_NDEF_RECORDS
    requires var p := DecodeRecord(data[index..]); p.Some? ==> p.value.record != records[i]
    ensures DecodeFrom(data, numBytes, index, done) != Some(records)
  {
    hide DecodeRecord;
    var p := DecodeRecord(data[index..]);
    if p.Some? && !p.value.last {
      DecodeKeeps(data, numBytes, index + p.value.used, Add(done, p.value.record));
    }
  }

  lemma {:induction false} TurnIsLost(records: seq<Record>, i: nat, pre: seq<byte>, post: seq<byte>)
    requires i < |records| <= MAX_NDEF_RECORDS && !Expressible(records[i])
    ensures DecodeRest(records, i, pre, post) != Some(records)
  {
    hide *;
    var data, done := pre + EncodeFrom(records, i) + post, RereadAll(records[..i]);
    DecodeRestIs(records, i, pre, post);
    Ahead(records, i, pre, post);
    RereadOneMore(records, i);
    NotTheRecord(records[i], i == 0, i + 1 == |records|, EncodeFrom(records, i + 1) + post);
    WrongTurn(data, |pre| + SizeFrom(records, i), |pre|, done, records, i);
  }

  lemma DecodeRestIs(records: seq<Record>, i: nat, pre: seq<byte>, post: seq<byte>)
    requires i <= |records|
    ensures DecodeRest(records, i, pre, post) ==
            DecodeFrom(pre + EncodeFrom(records, i) + post, |pre| + SizeFrom(records, i), |pre|,
                       RereadAll(records[..i]))
  {
    hide EncodeFrom, SizeFrom, RereadAll, DecodeFrom;
  }

  lemma NotTheRecord(r: Record, first: bool, last: bool, post: seq<byte>)
    requires !Expressible(r)
    ensures var p := DecodeRecord(EncodeRecord(r, first, last) + post); p.Some? ==> p.value.record != r
  {
    InexpressibleLosesShape(r, first, last, post);
    hide EncodeRecord, DecodeRecord, Expressible;
  }

  /** Whatever it makes of the rest, the parser does not get past an inexpressible record with the right one. */
  lemma {:induction false} RestIsLost(records: seq<Record>, i: nat, k: nat, pre: seq<byte>, post: seq<byte>)
    requires i <= k < |records| <= MAX_NDEF_RECORDS
    requires AllExpressible(records[..k]) && !Expressible(records[k])
    ensures DecodeRest(records, i, pre, post) != Some(records)
    decreases k - i
  {
    hide EncodeRecord, DecodeRest, Expressible, RereadAll;
    if i < k {
      assert records[..k][i] == records[i];
      RestTurn(records, i, pre, post);
      RestIsLost(records, i + 1, k, pre + EncodeRecord(records[i], i == 0, false), post);
    } else {
      TurnIsLost(records, i, pre, post);
    }
  }

  /** The first record the format cannot express. */
  lemma {:induction false} FirstInexpressible(records: seq<Record>) returns (k: nat)
    requires !AllExpressible(records)
    ensures k < |records| && AllExpressible(records[..k]) && !Expressible(records[k])
  {
    hide Expressible;
    var n := |records| - 1;
    if AllExpressible(records[..n]) {
      k := n;
    } else {
      k := FirstInexpressible(records[..n]);
      assert records[..n][..k] == records[..k];
    }
  }

  lemma InexpressibleIsLost(records: seq<Record>, post: seq<byte>)
    requires |records| <= MAX_NDEF_RECORDS && !AllExpressible(records)
    ensures Decode(Encode(records) + post, |Encode(records)|) != Some(records)
  {
    hide EncodeFrom, DecodeFrom, SizeFrom, Reread, Expressible;
    var k := FirstInexpressible(records);
    EncodeHasSize(records, 0);
    RestIsLost(records, 0, k, [], post);
    assert RereadAll(records[..0]) == [];
    assert [] + Encode(records) + post == Encode(records) + post;
  }

  lemma NothingIsMisread(post: seq<byte>)
    ensures Decode(Encode([]) + post, |Encode([])|) != Some([])
  {
    EmptyMessageIsMisread(Encode([]) + post);
  }

  /**
    A message of up to four records comes back as it was exactly if it is not empty, the format can express
    every record, and every identifier commutes with its payload.
   */
  lemma MessageIsExactIff(records: seq<Record>, post: seq<byte>)
    requires |records| <= MAX_NDEF_RECORDS
    ensures Decode(Encode(records) + post, |Encode(records)|) == Some(records) <==>
            && records != [] && AllExpressible(records)
            && forall i :: 0 <= i < |records| ==> IdCommutes(records[i])
  {
    hide Decode, Encode, Expressible, IdCommutes, Reread;
    if records == [] {
      NothingIsMisread(post);
    } else if AllExpressible(records) {
      RoundTripIsExactIff(records, post);
    } else {
      InexpressibleIsLost(records, post);
    }
  }

  // ---------------------------------------------------------------- the wire form in numbers

  /** The header byte: 128 begins a message, 64 ends it, 16 says short, 8 says that there is an identifier. */
  lemma HeaderInNumbers(r: Record, first: bool, last: bool)
    requires r.tnf < 8
    ensures HeaderByte(r, first, last) ==
            r.tnf + (if first then 128 else 0) + (if last then 64 else 0)
            + (if |r.payload| <= 255 then 16 else 0) + (if r.id != [] then 8 else 0)
  {
    hide HeaderByte;
    HeaderIsSum(r, first, last);
  }

  /** Every byte of an encoded record: header, lengths with the high byte first, then type, payload, identifier. */
  lemma EncodedBytes(r: Record, first: bool, last: bool)
    ensures var e, k, n := EncodeRecord(r, first, last), |r.kind|, |r.payload|;
            var at := if n <= 255 then 3 else 6;
            var body := if r.id == [] then at else at + 1;
            && |e| == body + k + n + |r.id|
            && e[0] == HeaderByte(r, first, last) && e[1] == k % 256
            && (n <= 255 ==> e[2] == n)
            && (n > 255 ==> e[2] == 0 && e[3] == 0 && e[4] == n / 256 % 256 && e[5] == n % 256)
            && (r.id != [] ==> e[at] == |r.id| % 256)
            && e[body..body + k] == r.kind && e[body + k..body + k + n] == r.payload && e[body + k + n..] == r.id
  {
    hide HeaderByte;
    ThreeParts(Head(r, first, last), r.kind, r.payload, r.id);
  }

  lemma ThreeParts(h: seq<byte>, a: seq<byte>, b: seq<byte>, c: seq<byte>)
    ensures var e := h + a + b + c;
            && (forall i :: 0 <= i < |h| ==> e[i] == h[i])
            && e[|h|..|h| + |a|] == a && e[|h| + |a|..|h| + |a| + |b|] == b && e[|h| + |a| + |b|..] == c
  {
  }

  /**
    What the parser makes of the bytes it finds: 64 in the first says that the record is the last, 16 that its
    payload length has one byte rather than four, 8 that there is an identifier.
   */
  lemma ParsedBytes(d: seq<byte>)
    requires DecodeRecord(d).Some?
    ensures var p, short, named := DecodeRecord(d).value, d[0] / 16 % 2 == 1, d[0] / 8 % 2 == 1;
            var at := if short then 3 else 6;
            var body := if named then at + 1 else at;
            && body <= |d| && (p.last <==> d[0] / 64 % 2 == 1) && p.record.tnf == d[0] % 8
            && var n := if short then d[2] as int else BigEndian(d[2..6]);
            var idStart := body + d[1];
            var payloadStart := idStart + if named then d[at] as int else 0;
            && p.used == payloadStart + n <= |d| && p.record.kind == d[body..idStart]
            && p.record.id == d[idStart..payloadStart] && p.record.payload == d[payloadStart..p.used]
  {
    hide BigEndian;
  }

  /** Four bytes of a length, the highest first. */
  lemma BigEndianBytes(d: seq<byte>, i: nat)
    requires i + 4 <= |d|
    ensures BigEndian(d[i..i + 4]) ==
            16777216 * d[i] as int + 65536 * d[i + 1] as int + 256 * d[i + 2] as int + d[i + 3] as int
  {
  }

  /** A message holds four records; a fifth is dropped. */
  lemma FourRecordsAreKept(records: seq<Record>, r: Record)
    ensures Add(records, r) == if |records| < 4 then records + [r] else records
  {
  }
}
