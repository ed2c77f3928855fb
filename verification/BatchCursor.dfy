/** Cursor iteration and indexed access over occurrence batches, as the processor
    header (C, `u32` arithmetic) and the host interface (Rust, checked `usize`
    arithmetic) implement them. */
module BatchCursor {
  import opened Wrappers
  import opened Bytes
  import opened OccurrenceBatch

  /** A batch as it crosses the interface; a null pointer is None. The storage
      really has the capacity it announces, which the caller guarantees. */
  datatype Batch = Batch(order: ByteOrder, storage: Option<seq<byte>>, capacity: u32, used: u32, count: u32) {
    ghost predicate Valid() {
      storage.Some? ==> capacity as nat <= |storage.value|
    }

    predicate Envelope() {
      && used <= capacity
      && (count == 0 || storage.Some?)
      && (count != 0 || used == 0)
    }

    function Data(): seq<byte>
      requires Valid() && Envelope()
    {
      if storage.None? then [] else storage.value[..used]
    }
  }

  datatype Position = Position(index: nat, offset: nat)

  datatype Outcome = Malformed | AtEnd | Yielded(record: Record, next: Position)

  /** One step of iteration. */
  function Advance(b: Batch, at: Position): Outcome
    requires b.Valid()
  {
    if !b.Envelope() || at.index > b.count as nat || at.offset > b.used as nat then Malformed
    else if at.index == b.count as nat then (if at.offset == b.used as nat then AtEnd else Malformed)
    else
      var rest := b.Data()[at.offset..];
      if |rest| < 12 || Read32(b.order, rest, 4) as nat > |rest| - 12 then Malformed
      else Yielded(FirstRecord(b.order, rest), Position(at.index + 1, at.offset + 12 + Read32(b.order, rest, 4) as nat))
  }

  /** The position after k records from the start. */
  function Walk(b: Batch, k: nat): Option<Position>
    requires b.Valid()
  {
    if k == 0 then Some(Position(0, 0))
    else
      match Walk(b, k - 1)
      case None => None
      case Some(at) => (match Advance(b, at) case Yielded(_, next) => Some(next) case _ => None)
  }

  /** The records of a whole batch, if it is well formed. */
  function Records(b: Batch): Option<seq<Record>>
    requires b.Valid()
  {
    if !b.Envelope() then None else Parse(b.order, b.Data(), b.count as nat)
  }

  /** After k records the rest of the data holds the rest of the batch. */
  ghost predicate Splits(b: Batch, k: nat)
    requires b.Valid() && b.Envelope()
  {
    && k <= b.count as nat
    && (Walk(b, k).Some? ==>
          && Walk(b, k).value.index == k
          && Walk(b, k).value.offset <= b.used as nat)
    && match Records(b)
       case None => Walk(b, k).Some? ==> Parse(b.order, b.Data()[Walk(b, k).value.offset..], b.count as nat - k).None?
       case Some(records) =>
         && |records| == b.count as nat
         && Walk(b, k).Some?
         && Parse(b.order, b.Data()[Walk(b, k).value.offset..], b.count as nat - k) == Some(records[k..])
  }

  lemma SplitsAtStart(b: Batch)
    requires b.Valid() && b.Envelope()
    ensures Splits(b, 0)
  {
    hide Read32, FirstRecord;
    assert b.Data()[0..] == b.Data();
    if Records(b).Some? {
      EncodeParse(b.order, b.Data(), b.count as nat);
      assert Records(b).value[0..] == Records(b).value;
    }
  }

  lemma SplitsNext(b: Batch, k: nat)
    requires b.Valid() && b.Envelope() && k < b.count as nat && Splits(b, k)
    ensures Splits(b, k + 1)
  {
    hide Read32, FirstRecord;
    if Walk(b, k).Some? {
      var at := Walk(b, k).value;
      var rest := b.Data()[at.offset..];
      if |rest| >= 12 && Read32(b.order, rest, 4) as nat <= |rest| - 12 {
        var size := Read32(b.order, rest, 4) as nat;
        assert rest[12 + size..] == b.Data()[at.offset + 12 + size..];
        if Records(b).Some? {
          var tail := Records(b).value[k..];
          assert tail[1..] == Records(b).value[k + 1..];
        }
      }
    }
  }

  lemma {:induction false} WalkSplits(b: Batch, k: nat)
    requires b.Valid() && b.Envelope() && k <= b.count as nat
    ensures Splits(b, k)
  {
    hide Splits;
    if k == 0 {
      SplitsAtStart(b);
    } else {
      WalkSplits(b, k - 1);
      SplitsNext(b, k - 1);
    }
  }

  /** Iteration yields exactly the parsed records, in order, and then ends. */
  lemma IterationYieldsRecords(b: Batch, k: nat)
    requires b.Valid() && Records(b).Some?
    ensures |Records(b).value| == b.count as nat
    ensures k < b.count as nat ==>
      Walk(b, k).Some? && Advance(b, Walk(b, k).value).Yielded? && Advance(b, Walk(b, k).value).record == Records(b).value[k]
    ensures k == b.count as nat ==> Walk(b, k).Some? && Advance(b, Walk(b, k).value) == AtEnd
  {
    hide Read32, FirstRecord, Walk;
    WalkSplits(b, 0);
    if k <= b.count as nat {
      WalkSplits(b, k);
      if k < b.count as nat {
        assert Records(b).value[k..][0] == Records(b).value[k];
      }
    }
  }

  lemma RecordsEncodable(b: Batch)
    requires b.Valid() && Records(b).Some?
    ensures forall r :: r in Records(b).value ==> Encodable(r)
    ensures |Records(b).value| == b.count as nat && Encode(b.order, Records(b).value) == b.Data()
  {
    hide Parse, Encode, Encodable;
    EncodeParse(b.order, b.Data(), b.count as nat);
  }

  /** The cursor after k records stands behind exactly the layout of those records. */
  lemma VisitedBytes(b: Batch, k: nat)
    requires b.Valid() && Records(b).Some? && k <= b.count as nat
    ensures forall r :: r in Records(b).value ==> Encodable(r)
    ensures |Records(b).value| == b.count as nat
    ensures Walk(b, k).Some? && Walk(b, k).value.offset <= |b.Data()|
    ensures b.Data()[..Walk(b, k).value.offset] == Encode(b.order, Records(b).value[..k])
  {
    hide Encode, Encodable, Read32, FirstRecord, Walk;
    RecordsEncodable(b);
    WalkSplits(b, k);
    var records, at := Records(b).value, Walk(b, k).value.offset;
    CursorInside(b, k);
    EncodeParse(b.order, b.Data()[at..], b.count as nat - k);
    EncodedBefore(b.order, records, k, at);
  }

  lemma CursorInside(b: Batch, k: nat)
    requires b.Valid() && Records(b).Some? && Walk(b, k).Some? && Walk(b, k).value.offset <= b.used as nat
    ensures Walk(b, k).value.offset <= |b.Data()|
  {
    RecordsEncodable(b);
  }

  /** The slices the cursor steps over tile the used bytes: the first starts at zero,
      each is the layout of its record and ends where the next starts, and the last
      ends with the used bytes. */
  lemma StepsTile(b: Batch, k: nat)
    requires b.Valid() && Records(b).Some? && k < b.count as nat
    ensures |Records(b).value| == b.count as nat && Encodable(Records(b).value[k])
    ensures Walk(b, 0) == Some(Position(0, 0))
    ensures Walk(b, k).Some? && Walk(b, k + 1).Some? && Walk(b, b.count as nat).Some?
    ensures Walk(b, k).value.offset <= Walk(b, k + 1).value.offset <= |b.Data()| == b.used as nat
    ensures b.Data()[Walk(b, k).value.offset..Walk(b, k + 1).value.offset] == EncodeRecord(b.order, Records(b).value[k])
    ensures Walk(b, b.count as nat).value.offset == b.used as nat
  {
    hide Parse, Walk, EncodeRecord, Encode, Encodable, Advance, Records, Batch.Data;
    TilesFromStart(b);
    TileAt(b, k);
  }

  lemma TilesFromStart(b: Batch)
    requires b.Valid() && Records(b).Some? && b.count > 0
    ensures |b.Data()| == b.used as nat
    ensures Walk(b, 0) == Some(Position(0, 0))
    ensures Walk(b, b.count as nat).Some? && Walk(b, b.count as nat).value.offset == b.used as nat
  {
    hide Parse, Encode, Encodable, EncodeRecord;
    DataFills(b);
    IterationYieldsRecords(b, b.count as nat);
  }

  lemma TileAt(b: Batch, k: nat)
    requires b.Valid() && Records(b).Some? && k < b.count as nat
    ensures |Records(b).value| == b.count as nat && Encodable(Records(b).value[k])
    ensures Walk(b, k).Some? && Walk(b, k + 1).Some?
    ensures Walk(b, k).value.offset <= Walk(b, k + 1).value.offset <= |b.Data()|
    ensures b.Data()[Walk(b, k).value.offset..Walk(b, k + 1).value.offset] == EncodeRecord(b.order, Records(b).value[k])
  {
    hide Parse, Walk, EncodeRecord, Encode, Encodable, Advance, Records, Batch.Data;
    VisitedBytes(b, k);
    VisitedBytes(b, k + 1);
    var records := Records(b).value;
    InsideEnvelope(b);
    OneMoreEncoded(b.order, records, k);
    SliceBetween(b.Data(), Walk(b, k).value.offset, Walk(b, k + 1).value.offset,
                 Encode(b.order, records[..k]), EncodeRecord(b.order, records[k]));
  }

  lemma InsideEnvelope(b: Batch)
    requires b.Valid() && Records(b).Some?
    ensures b.Envelope()
  {
  }

  lemma SliceBetween(data: seq<byte>, from: nat, to: nat, before: seq<byte>, slice: seq<byte>)
    requires from <= |data| && to <= |data| && data[..from] == before && data[..to] == before + slice
    ensures from <= to && data[from..to] == slice
  {
    assert data[..to][from..] == data[from..to];
  }

  lemma DataFills(b: Batch)
    requires b.Valid() && b.Envelope() && b.count > 0
    ensures |b.Data()| == b.used as nat
  {
  }

  lemma OneMoreEncoded(order: ByteOrder, records: seq<Record>, k: nat)
    requires k < |records| && forall r :: r in records ==> Encodable(r)
    ensures Encode(order, records[..k + 1]) == Encode(order, records[..k]) + EncodeRecord(order, records[k])
  {
    hide EncodeRecord, Encodable;
    assert records[..k + 1] == records[..k] + [records[k]];
    EncodeConcat(order, records[..k], [records[k]]);
    assert Encode(order, [records[k]]) == EncodeRecord(order, records[k]) + Encode(order, []);
  }

  /** The step after k records from the start fails. */
  predicate FailsAfter(b: Batch, k: nat)
    requires b.Valid()
  {
    Walk(b, k).Some? && Advance(b, Walk(b, k).value) == Malformed
  }

  /** A batch is malformed exactly when some step of iterating it is. */
  lemma MalformedIffSomeStepIs(b: Batch)
    requires b.Valid()
    ensures Records(b).None? <==>
      exists k: nat :: k <= b.count as nat && FailsAfter(b, k)
  {
    hide Read32, FirstRecord, Parse;
    if !b.Envelope() {
      assert Walk(b, 0) == Some(Position(0, 0)) && FailsAfter(b, 0);
    } else if Records(b).Some? {
      forall k: nat | k <= b.count as nat
        ensures !FailsAfter(b, k)
      {
        IterationYieldsRecords(b, k);
      }
    } else {
      var k := FirstMalformed(b, b.count as nat);
    }
  }

  lemma {:induction false} FirstMalformed(b: Batch, n: nat) returns (k: nat)
    requires b.Valid() && b.Envelope() && Records(b).None? && n <= b.count as nat
    requires n == b.count as nat || Walk(b, n + 1).None?
    ensures k <= b.count as nat && FailsAfter(b, k)
    decreases n
  {
    hide Read32, FirstRecord;
    WalkSplits(b, n);
    if Walk(b, n).Some? {
      k := n;
    } else {
      k := FirstMalformed(b, n - 1);
    }
  }

  /** What indexed access must answer. */
  datatype Indexed = BatchMalformed | Absent | Found(record: Record)

  function RecordAt(b: Batch, index: nat): Indexed
    requires b.Valid()
  {
    match Records(b)
    case None => BatchMalformed
    case Some(records) => if index < |records| then Found(records[index]) else Absent
  }

  /** The caller-owned cursor. */
  class Cursor {
    var recordIndex: u32
    var byteOffset: u32

    constructor ()
      ensures recordIndex == 0 && byteOffset == 0
    {
      recordIndex, byteOffset := 0, 0;
    }

    ghost function At(): Position
      reads this
    {
      Position(recordIndex as nat, byteOffset as nat)
    }
  }

  /** `onda_processor_batch_next_record`: no `u32` addition or subtraction wraps,
      every byte read lies below the used bytes, and a step that yields nothing
      leaves the cursor alone. */
  method ProcessorNext(b: Batch, cursor: Cursor) returns (status: int, record: Option<Record>)
    requires b.Valid()
    modifies cursor
    ensures match Advance(b, old(cursor.At()))
      case Malformed => status == -1 && record == None && cursor.At() == old(cursor.At())
      case AtEnd => status == 0 && record == None && cursor.At() == old(cursor.At())
      case Yielded(r, next) => status == 1 && record == Some(r) && cursor.At() == next
  {
    hide Read32;
    if b.used > b.capacity || (b.count == 0 && b.used != 0) || (b.count != 0 && b.storage.None?)
      || cursor.recordIndex > b.count || cursor.byteOffset > b.used
    {
      return -1, None;
    }
    if cursor.recordIndex == b.count {
      return if cursor.byteOffset == b.used then 0 else -1, None;
    }
    if b.used - cursor.byteOffset < HEADER_SIZE {
      return -1, None;
    }
    var storage := b.storage.value[..b.used];
    var nextIndex := Read32(b.order, storage, cursor.byteOffset as nat);
    var nextSize := Read32(b.order, storage, cursor.byteOffset as nat + 4);
    var nextSequence := Read32(b.order, storage, cursor.byteOffset as nat + 8);
    ReadFromRest(b.order, storage, cursor.byteOffset as nat);
    if nextSize > b.used - cursor.byteOffset - HEADER_SIZE {
      return -1, None;
    }
    var payloadAt := cursor.byteOffset + HEADER_SIZE;
    var payload := storage[payloadAt as nat..payloadAt as nat + nextSize as nat];
    PayloadFromRest(storage, cursor.byteOffset as nat, nextSize as nat);
    cursor.byteOffset := cursor.byteOffset + (HEADER_SIZE + nextSize);
    cursor.recordIndex := cursor.recordIndex + 1;
    return 1, Some(Record(nextIndex, nextSequence, payload));
  }

  lemma ReadFromRest(order: ByteOrder, s: seq<byte>, at: nat)
    requires at + 12 <= |s|
    ensures Read32(order, s[at..], 0) == Read32(order, s, at)
    ensures Read32(order, s[at..], 4) == Read32(order, s, at + 4)
    ensures Read32(order, s[at..], 8) == Read32(order, s, at + 8)
  {
    var rest := s[at..];
    assert forall i :: 0 <= i < 12 ==> rest[i] == s[at + i];
  }

  lemma PayloadFromRest(s: seq<byte>, at: nat, size: nat)
    requires at + 12 + size <= |s|
    ensures s[at + 12..at + 12 + size] == s[at..][12..12 + size]
  {
  }

  /** Addition on the host's `usize`; None where it would overflow. */
  function CheckedAdd(a: nat, b: nat, usizeMax: nat): Option<nat> {
    if a + b > usizeMax then None else Some(a + b)
  }

  /** `next_batch_record`: the same step on hosts whose `usize` has 32 bits or more. */
  method HostNext(b: Batch, cursor: Cursor, usizeMax: nat) returns (result: Result<Option<Record>, ()>)
    requires b.Valid() && usizeMax >= 0xFFFF_FFFF
    modifies cursor
    ensures match Advance(b, old(cursor.At()))
      case Malformed => result == Failure(()) && cursor.At() == old(cursor.At())
      case AtEnd => result == Success(None) && cursor.At() == old(cursor.At())
      case Yielded(r, next) => result == Success(Some(r)) && cursor.At() == next
  {
    hide Read32;
    if !b.Envelope() || cursor.recordIndex > b.count || cursor.byteOffset > b.used {
      return Failure(());
    }
    if cursor.recordIndex == b.count {
      return if cursor.byteOffset == b.used then Success(None) else Failure(());
    }
    if b.storage.None? {
      return Failure(());
    }
    var recordOffset := cursor.byteOffset as nat;
    var headerEnd := CheckedAdd(recordOffset, 12, usizeMax);
    if headerEnd.None? || headerEnd.value > b.used as nat {
      return Failure(());
    }
    var storage := b.storage.value[..b.used];
    var recordIndex := Read32(b.order, storage, recordOffset);
    var payloadSize := Read32(b.order, storage, recordOffset + 4);
    var sequence := Read32(b.order, storage, recordOffset + 8);
    ReadFromRest(b.order, storage, recordOffset);
    var recordEnd := CheckedAdd(headerEnd.value, payloadSize as nat, usizeMax);
    if recordEnd.None? || recordEnd.value > b.used as nat {
      return Failure(());
    }
    var payload := storage[headerEnd.value..recordEnd.value];
    PayloadFromRest(storage, recordOffset, payloadSize as nat);
    cursor.byteOffset := recordEnd.value as u32;
    cursor.recordIndex := cursor.recordIndex + 1;
    return Success(Some(Record(recordIndex, sequence, payload)));
  }

  /** `onda_processor_batch_record_at`. On malformed input the out-parameters may
      already have been written; `written` is what they hold. */
  method ProcessorRecordAt(b: Batch, index: u32) returns (status: int, written: Option<Record>)
    requires b.Valid()
    ensures match RecordAt(b, index as nat)
      case BatchMalformed => status == -1
      case Absent => status == 0 && written == None
      case Found(r) => status == 1 && written == Some(r)
  {
    hide Read32, FirstRecord, Parse;
    var cursor := new Cursor();
    var found := 0;
    written := None;
    var current: u32 := 0;
    while current < b.count
      invariant current <= b.count
      invariant Walk(b, current as nat) == Some(cursor.At())
      invariant RecordAt(b, index as nat).Found? && index < current ==> found == 1 && written == Some(RecordAt(b, index as nat).record)
      invariant index >= current ==> found == 0 && written == None
      invariant found == 0 || found == 1
    {
      if Records(b).Some? {
        IterationYieldsRecords(b, current as nat);
      }
      var status', record := ProcessorNext(b, cursor);
      if status' != 1 {
        return -1, written;
      }
      if current == index {
        written := record;
        found := 1;
      }
      current := current + 1;
    }
    EndOfWalk(b, cursor.At());
    return if cursor.byteOffset == b.used then found else -1, written;
  }

  /** At the end of the walk the batch is well formed exactly when it is used up. */
  lemma EndOfWalk(b: Batch, at: Position)
    requires b.Valid() && Walk(b, b.count as nat) == Some(at)
    ensures Records(b).Some? <==> at.offset == b.used as nat
    ensures Records(b).Some? ==> |Records(b).value| == b.count as nat
  {
    hide Read32, FirstRecord;
    if b.Envelope() {
      WalkSplits(b, b.count as nat);
      assert b.Data()[at.offset..] == [] <==> at.offset == |b.Data()|;
    } else if b.count > 0 {
      OutsideEnvelope(b, b.count as nat);
    }
  }

  lemma {:induction false} OutsideEnvelope(b: Batch, k: nat)
    requires b.Valid() && !b.Envelope() && k > 0
    ensures Walk(b, k).None?
  {
    if k > 1 {
      OutsideEnvelope(b, k - 1);
    }
  }

  /** `batch_record_at`. */
  method HostRecordAt(b: Batch, index: u32, usizeMax: nat) returns (result: Result<Option<Record>, ()>)
    requires b.Valid() && usizeMax >= 0xFFFF_FFFF
    ensures match RecordAt(b, index as nat)
      case BatchMalformed => result == Failure(())
      case Absent => result == Success(None)
      case Found(r) => result == Success(Some(r))
  {
    hide Read32, FirstRecord, Parse;
    if !b.Envelope() {
      return Failure(());
    }
    var cursor := new Cursor();
    var selected: Option<Record> := None;
    var recordIndex: u32 := 0;
    while recordIndex < b.count
      invariant recordIndex <= b.count
      invariant Walk(b, recordIndex as nat) == Some(cursor.At())
      invariant RecordAt(b, index as nat).Found? && index < recordIndex ==> selected == Some(RecordAt(b, index as nat).record)
      invariant index >= recordIndex ==> selected == None
    {
      if Records(b).Some? {
        IterationYieldsRecords(b, recordIndex as nat);
      }
      var next := HostNext(b, cursor, usizeMax);
      if next.Failure? || next.value.None? {
        return Failure(());
      }
      if recordIndex == index {
        selected := next.value;
      }
      recordIndex := recordIndex + 1;
    }
    EndOfWalk(b, cursor.At());
    WalkSplits(b, b.count as nat);
    var last := HostNext(b, cursor, usizeMax);
    if last == Success(None) {
      return Success(selected);
    }
    return Failure(());
  }

  lemma NothingEncoded(order: ByteOrder, records: seq<Record>)
    requires forall r :: r in records ==> Encodable(r)
    ensures records == [] ==> Encode(order, records) == []
  {
  }

  /** Decoding inverts encoding, whatever spare capacity follows: a batch whose used
      bytes are the layout of a list of records holds exactly that list. */
  lemma EncodedBatchHoldsRecords(b: Batch, records: seq<Record>)
    requires b.Valid() && b.storage.Some? && b.used <= b.capacity
    requires forall r :: r in records ==> Encodable(r)
    requires b.storage.value[..b.used] == Encode(b.order, records) && b.count as nat == |records|
    ensures Records(b) == Some(records)
  {
    NothingEncoded(b.order, records);
    hide Parse, Encode;
    ParseEncode(b.order, records);
  }

  /** A batch laid out as these records: they fill the used part of its storage, one behind
      the other, and their number is the announced one. */
  ghost predicate LaidOut(b: Batch, records: seq<Record>)
    requires b.Valid()
  {
    && |records| == b.count as nat
    && (forall r :: r in records ==> Encodable(r))
    && |Encode(b.order, records)| == b.used as nat <= b.capacity as nat
    && (records != [] ==> b.storage.Some?)
    && (b.storage.Some? ==> b.storage.value[..b.used] == Encode(b.order, records))
  }

  /** A batch holds exactly the records it is laid out as. */
  lemma HoldsExactly(b: Batch, records: seq<Record>)
    requires b.Valid()
    ensures Records(b) == Some(records) <==> LaidOut(b, records)
  {
    hide Parse, Encodable, EncodeRecord;
    if Records(b) == Some(records) {
      RecordsEncodable(b);
    }
    if |records| == b.count as nat && (forall r :: r in records ==> Encodable(r)) {
      ParseEncode(b.order, records);
      if b.count == 0 {
        assert Encode(b.order, records) == [];
      }
    }
  }

  /** Indexed access answers with the record of that index in the layout, with nothing past
      the last one, and refuses a batch that is no layout. */
  lemma IndexedExactly(b: Batch, records: seq<Record>, index: nat)
    requires b.Valid()
    ensures LaidOut(b, records) ==> RecordAt(b, index) == if index < |records| then Found(records[index]) else Absent
    ensures RecordAt(b, index) == BatchMalformed <==> forall rs :: !LaidOut(b, rs)
  {
    hide LaidOut, Records;
    HoldsExactly(b, records);
    if Records(b).Some? {
      HoldsExactly(b, Records(b).value);
    } else {
      forall rs ensures !LaidOut(b, rs) {
        HoldsExactly(b, rs);
      }
    }
  }

  /** One step from any cursor whatever: it yields a record exactly if the cursor is within
      the batch and the record's layout stands at the offset, within the used bytes; it is
      the end exactly behind the last record and the last byte. */
  lemma StepExactly(b: Batch, at: Position, r: Record, next: Position)
    requires b.Valid()
    ensures Advance(b, at) == Yielded(r, next) <==>
      && b.used <= b.capacity && b.storage.Some? && at.index < b.count as nat
      && Encodable(r)
      && at.offset + 12 + |r.payload| <= b.used as nat
      && b.storage.value[at.offset..at.offset + 12 + |r.payload|] == EncodeRecord(b.order, r)
      && next == Position(at.index + 1, at.offset + 12 + |r.payload|)
    ensures Advance(b, at) == AtEnd <==>
      && b.used <= b.capacity && (b.count != 0 ==> b.storage.Some?) && (b.count == 0 ==> b.used == 0)
      && at == Position(b.count as nat, b.used as nat)
  {
    hide Read32, FirstRecord, EncodeRecord;
    if b.Envelope() && b.storage.Some? && at.index < b.count as nat && at.offset <= b.used as nat {
      var rest := b.Data()[at.offset..];
      if |rest| >= 12 && Read32(b.order, rest, 4) as nat <= |rest| - 12 {
        var size := Read32(b.order, rest, 4) as nat;
        EncodedFirst(b.order, rest);
        PayloadSize(b.order, rest);
        DataSlice(b, at.offset, 12 + size);
      }
      if Encodable(r) && 12 + |r.payload| <= |rest| && rest[..12 + |r.payload|] == EncodeRecord(b.order, r) {
        FirstOfEncoded(b.order, r, rest[12 + |r.payload|..]);
        assert rest == EncodeRecord(b.order, r) + rest[12 + |r.payload|..];
      }
      if at.offset + 12 + |r.payload| <= b.used as nat {
        DataSlice(b, at.offset, 12 + |r.payload|);
      }
    }
  }

  lemma DataSlice(b: Batch, at: nat, n: nat)
    requires b.Valid() && b.Envelope() && b.storage.Some? && at + n <= b.used as nat
    ensures b.Data()[at..][..n] == b.storage.value[at..at + n]
  {
  }

  lemma PayloadSize(order: ByteOrder, data: seq<byte>)
    requires |data| >= 12 && Read32(order, data, 4) as nat <= |data| - 12
    ensures |FirstRecord(order, data).payload| == Read32(order, data, 4) as nat
  {
  }
}
