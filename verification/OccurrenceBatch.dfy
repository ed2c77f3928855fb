/** Packed occurrence batches: records of a twelve-byte header and a payload, one
    abstract parser, and the inverse layout. */
module OccurrenceBatch {
  import opened Wrappers
  import opened Bytes

  newtype u32 = n: int | 0 <= n < 0x1_0000_0000

  const HEADER_SIZE: u32 := 12

  /** The byte order of the platform, which `memcpy` and `read_unaligned` follow. */
  datatype ByteOrder = LittleEndian | BigEndian

  /** Callback or site index, shared sequence number, payload. */
  datatype Record = Record(index: u32, sequence: u32, payload: seq<byte>)

  function Read32(order: ByteOrder, s: seq<byte>, at: nat): u32
    requires at + 4 <= |s|
  {
    if order.LittleEndian? then U32At(s, at) as u32
    else U32At([s[at + 3], s[at + 2], s[at + 1], s[at]], 0) as u32
  }

  function Write32(order: ByteOrder, n: u32): (s: seq<byte>)
    ensures |s| == 4
  {
    var s := U32(n as nat);
    if order.LittleEndian? then s else [s[3], s[2], s[1], s[0]]
  }

  lemma ReadWrite32(order: ByteOrder, n: u32, s: seq<byte>, at: nat)
    requires at + 4 <= |s| && s[at..at + 4] == Write32(order, n)
    ensures Read32(order, s, at) == n
  {
    var f := s[at..at + 4];
    assert f[0] == s[at] && f[1] == s[at + 1] && f[2] == s[at + 2] && f[3] == s[at + 3];
    U32RoundTrip(n as nat);
    if order.BigEndian? {
      assert [s[at + 3], s[at + 2], s[at + 1], s[at]] == U32(n as nat);
    } else {
      assert f == U32(n as nat);
      SameField(s, f, at, 0);
    }
  }

  lemma WriteRead32(order: ByteOrder, s: seq<byte>, at: nat)
    requires at + 4 <= |s|
    ensures Write32(order, Read32(order, s, at)) == s[at..at + 4]
  {
    var f := s[at..at + 4];
    assert f == [s[at], s[at + 1], s[at + 2], s[at + 3]];
    if order.LittleEndian? {
      U32OfRead(s[at], s[at + 1], s[at + 2], s[at + 3]);
      SameField(s, f, at, 0);
    } else {
      U32OfRead(s[at + 3], s[at + 2], s[at + 1], s[at]);
    }
  }

  lemma U32OfRead(a: byte, b: byte, c: byte, d: byte)
    ensures U32(U32At([a, b, c, d], 0)) == [a, b, c, d]
  {
    var low: nat := Val(a) + 256 * Val(b);
    var high: nat := Val(c) + 256 * Val(d);
    var n := low + 65536 * high;
    assert U32At([a, b, c, d], 0) == n;
    assert n / 256 / 256 == high && n % 256 == Val(a) && n / 256 % 256 == Val(b);
    assert U16(n) == [a, b] && U16(high) == [c, d];
  }

  /** Exactly `count` records, exactly filling the data. */
  function Parse(order: ByteOrder, data: seq<byte>, count: nat): Option<seq<Record>>
    decreases count
  {
    if count == 0 then (if data == [] then Some([]) else None)
    else if |data| < 12 || Read32(order, data, 4) as nat > |data| - 12 then None
    else
      var size := Read32(order, data, 4) as nat;
      match Parse(order, data[12 + size..], count - 1)
      case None => None
      case Some(rest) => Some([FirstRecord(order, data)] + rest)
  }

  function FirstRecord(order: ByteOrder, data: seq<byte>): Record
    requires |data| >= 12 && Read32(order, data, 4) as nat <= |data| - 12
  {
    Record(Read32(order, data, 0), Read32(order, data, 8), data[12..12 + Read32(order, data, 4) as nat])
  }

  predicate Encodable(record: Record) {
    |record.payload| < 0x1_0000_0000
  }

  function EncodeRecord(order: ByteOrder, record: Record): (data: seq<byte>)
    requires Encodable(record)
    ensures |data| == 12 + |record.payload|
  {
    Write32(order, record.index) + Write32(order, |record.payload| as u32) + Write32(order, record.sequence) + record.payload
  }

  function Encode(order: ByteOrder, records: seq<Record>): seq<byte>
    requires forall r :: r in records ==> Encodable(r)
  {
    if records == [] then [] else EncodeRecord(order, records[0]) + Encode(order, records[1..])
  }

  ghost predicate AllEncodable(records: seq<Record>) {
    forall r :: r in records ==> Encodable(r)
  }

  lemma {:induction false} EncodeConcat(order: ByteOrder, a: seq<Record>, b: seq<Record>)
    requires AllEncodable(a) && AllEncodable(b)
    ensures AllEncodable(a + b) && Encode(order, a + b) == Encode(order, a) + Encode(order, b)
  {
    hide EncodeRecord, Encodable;
    if a == [] {
      assert a + b == b;
    } else {
      assert (a + b)[1..] == a[1..] + b;
      EncodeConcat(order, a[1..], b);
    }
  }

  /** Cutting the layout where the rest begins leaves the layout of the first records. */
  lemma EncodedBefore(order: ByteOrder, records: seq<Record>, k: nat, at: nat)
    requires AllEncodable(records) && k <= |records| && at <= |Encode(order, records)|
    requires Encode(order, records[k..]) == Encode(order, records)[at..]
    ensures Encode(order, records[..k]) == Encode(order, records)[..at]
  {
    hide Encode, Encodable;
    assert records[..k] + records[k..] == records;
    EncodeConcat(order, records[..k], records[k..]);
  }

  lemma FirstOfEncoded(order: ByteOrder, record: Record, rest: seq<byte>)
    requires Encodable(record)
    ensures var data := EncodeRecord(order, record) + rest;
      && Read32(order, data, 4) as nat == |record.payload|
      && FirstRecord(order, data) == record
      && data[12 + |record.payload|..] == rest
  {
    hide Read32, Write32;
    var data := EncodeRecord(order, record) + rest;
    assert data[0..4] == Write32(order, record.index);
    assert data[4..8] == Write32(order, |record.payload| as u32);
    assert data[8..12] == Write32(order, record.sequence);
    ReadWrite32(order, record.index, data, 0);
    ReadWrite32(order, |record.payload| as u32, data, 4);
    ReadWrite32(order, record.sequence, data, 8);
    assert data[12..12 + |record.payload|] == record.payload;
  }

  /** Parsing inverts the layout, for any records. */
  lemma {:induction false} ParseEncode(order: ByteOrder, records: seq<Record>)
    requires forall r :: r in records ==> Encodable(r)
    ensures Parse(order, Encode(order, records), |records|) == Some(records)
  {
    hide EncodeRecord, FirstRecord, Read32;
    if records != [] {
      FirstOfEncoded(order, records[0], Encode(order, records[1..]));
      ParseEncode(order, records[1..]);
      assert records == [records[0]] + records[1..];
      assert |Encode(order, records)| == 12 + |records[0].payload| + |Encode(order, records[1..])|;
    }
  }

  lemma EncodedFirst(order: ByteOrder, data: seq<byte>)
    requires |data| >= 12 && Read32(order, data, 4) as nat <= |data| - 12
    ensures Encodable(FirstRecord(order, data))
    ensures EncodeRecord(order, FirstRecord(order, data)) == data[..12 + Read32(order, data, 4) as nat]
  {
    hide Read32, Write32;
    var size := Read32(order, data, 4) as nat;
    WriteRead32(order, data, 0);
    WriteRead32(order, data, 4);
    WriteRead32(order, data, 8);
    assert data[..12 + size] == data[0..4] + data[4..8] + data[8..12] + data[12..12 + size];
  }

  /** A parsed batch is nothing but the layout of its records: headers and payloads
      tile the used bytes, in order, without gaps. */
  lemma {:induction false} EncodeParse(order: ByteOrder, data: seq<byte>, count: nat)
    requires Parse(order, data, count).Some?
    ensures var records := Parse(order, data, count).value;
      |records| == count && (forall r :: r in records ==> Encodable(r)) && Encode(order, records) == data
  {
    hide EncodeRecord, FirstRecord, Read32;
    if count > 0 {
      var size := Read32(order, data, 4) as nat;
      EncodeParse(order, data[12 + size..], count - 1);
      EncodedFirst(order, data);
      var records := Parse(order, data, count).value;
      assert records[1..] == Parse(order, data[12 + size..], count - 1).value;
      assert data == data[..12 + size] + data[12 + size..];
    }
  }

  /** The layout by example: index, payload size and sequence number, four bytes each, and
      the payload, in either byte order. */
  lemma LayoutExample()
    ensures EncodeRecord(LittleEndian, Record(0x0102, 0x03040506, [7])) == [2, 1, 0, 0, 1, 0, 0, 0, 6, 5, 4, 3, 7]
    ensures EncodeRecord(BigEndian, Record(0x0102, 0x03040506, [7])) == [0, 0, 1, 2, 0, 0, 0, 1, 3, 4, 5, 6, 7]
  {
    assert U32(0x0102) == [2, 1, 0, 0];
    assert U32(1) == [1, 0, 0, 0];
    assert U32(0x03040506) == [6, 5, 4, 3];
  }
}
