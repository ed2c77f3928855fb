/** What `readZip` guarantees about any byte string, and the corruption of a
    written archive it always refuses. */
module ZipGuarantees {
  import opened Wrappers
  import opened Bytes
  import opened Text
  import opened ArchivePaths
  import opened ZipFormat
  import opened ZipWriter
  import opened ZipReader
  import opened ZipRoundTrip
  import Crc32
  import Sorting

  /** Where the walk over the central directory stands after k records. */
  function RecordCursor(bytes: seq<byte>, start: nat, k: nat): nat {
    if k == 0 then start
    else
      var cursor := RecordCursor(bytes, start, k - 1);
      if cursor + 46 > |bytes| then cursor else RecordEnd(bytes, cursor)
  }

  /** An entry agrees with the central record at a cursor, which lies inside the
      archive: signature, name, declared size and checksum. */
  ghost predicate MatchesRecord(bytes: seq<byte>, cursor: nat, member: Member) {
    && cursor + 46 <= |bytes|
    && RecordEnd(bytes, cursor) <= |bytes|
    && U32At(bytes, cursor) == CENTRAL_SIGNATURE
    && RecordName(bytes, cursor).Some?
    && member.path == Portable(RecordName(bytes, cursor).value)
    && member.directory == IsDirectory(RecordName(bytes, cursor).value)
    && |member.contents| == U32At(bytes, cursor + 24)
    && Crc32.Checksum(member.contents) == U32At(bytes, cursor + 16)
    && (member.directory ==> member.contents == [])
  }

  /** Taken so far: every member matches its record, within the byte budget. */
  ghost predicate Sound(unicode: Unicode, bytes: seq<byte>, start: nat, members: seq<Member>) {
    && (forall k :: 0 <= k < |members| ==> MatchesRecord(bytes, RecordCursor(bytes, start, k), members[k]))
    && Readable(unicode, members)
    && TotalContents(members) <= MAX_ARCHIVE_BYTES
  }

  lemma RecordSound(runtime: Runtime, bytes: seq<byte>, progress: Progress)
    requires ReadRecord(runtime, bytes, progress).Success?
    requires Readable(runtime.unicode, progress.members)
    requires TotalContents(progress.members) <= MAX_ARCHIVE_BYTES
    ensures var next := ReadRecord(runtime, bytes, progress).value;
      && |next.members| == |progress.members| + 1
      && next.members[..|progress.members|] == progress.members
      && MatchesRecord(bytes, progress.cursor, next.members[|progress.members|])
      && next.cursor == RecordEnd(bytes, progress.cursor)
      && Readable(runtime.unicode, next.members)
      && TotalContents(next.members) <= MAX_ARCHIVE_BYTES
  {
    hide U32At, U16At, RecordName, PortablePath, Crc32.Checksum, Extract, AcceptsPath, Readable, Subarray;
    var next := ReadRecord(runtime, bytes, progress).value;
    var member := next.members[|progress.members|];
    assert next.members == progress.members + [member];
    ReadableSnoc(runtime.unicode, progress.members, member);
  }

  lemma {:induction false} RecordsSound(runtime: Runtime, bytes: seq<byte>, start: nat, count: nat)
    requires ReadRecords(runtime, bytes, start, count).Success?
    ensures var progress := ReadRecords(runtime, bytes, start, count).value;
      && |progress.members| == count
      && progress.cursor == RecordCursor(bytes, start, count)
      && Sound(runtime.unicode, bytes, start, progress.members)
  {
    hide ReadRecord, MatchesRecord, Readable, RecordEnd;
    if count == 0 {
      NothingIsReadable(runtime.unicode);
    } else {
      RecordsSound(runtime, bytes, start, count - 1);
      var earlier := ReadRecords(runtime, bytes, start, count - 1).value;
      RecordSound(runtime, bytes, earlier);
      var members := ReadRecords(runtime, bytes, start, count).value.members;
      forall k | 0 <= k < count
        ensures MatchesRecord(bytes, RecordCursor(bytes, start, k), members[k])
      {
        if k < count - 1 {
          assert members[k] == members[..count - 1][k] == earlier.members[k];
        }
      }
      assert earlier.cursor + 46 <= |bytes| by { InBounds(bytes, earlier.cursor, members[count - 1]); }
    }
  }

  lemma InBounds(bytes: seq<byte>, cursor: nat, member: Member)
    requires MatchesRecord(bytes, cursor, member)
    ensures cursor + 46 <= |bytes|
  {
  }

  /** Whatever the bytes: either reading fails, or it took as many entries as the
      end record counts, each matching its record in size and checksum, together
      within the byte budget and on a portable, collision-free set of paths, and
      the map returned holds exactly the files among them. */
  lemma ReadZipSound(runtime: Runtime, bytes: seq<byte>)
    requires ReadResult(runtime, bytes).Success?
    ensures |bytes| <= MAX_ARCHIVE_BYTES
    ensures exists end: nat ::
      && IsEndOffset(bytes, end)
      && |ReadMembers(runtime, bytes).value| == FileCount(bytes, end) <= MAX_ARCHIVE_FILES
      && Sound(runtime.unicode, bytes, CentralOffset(bytes, end), ReadMembers(runtime, bytes).value)
    ensures Holds(ReadResult(runtime, bytes).value, ReadMembers(runtime, bytes).value)
  {
    hide ReadRecords, FilesOf, U32At, U16At, Holds, MatchesRecord, PortablePath, CollisionFree, TotalContents;
    FindEndCorrect(bytes, |bytes| - 22);
    var end := FindEnd(bytes, |bytes| - 22).value;
    RecordsSound(runtime, bytes, CentralOffset(bytes, end), FileCount(bytes, end));
    var members := ReadMembers(runtime, bytes).value;
    ReadableDistinct(runtime.unicode, members);
    FilesOfHolds(members);
  }

  /** Position `at` holds a byte of the contents of the k-th file laid out. */
  ghost predicate IsDataByte(files: seq<ZipFile>, k: nat, at: nat) {
    && k < |files|
    && var data := LocalSize(files[..k]) + 30 + |files[k].Name()|;
      data <= at < data + |files[k].bytes|
  }

  lemma FieldUntouched(s: seq<byte>, at: nat, b: byte, i: nat)
    requires at < |s| && i + 4 <= |s|
    ensures (at < i || i + 4 <= at) ==> U32At(s[at := b], i) == U32At(s, i)
    ensures (at < i || i + 2 <= at) ==> U16At(s[at := b], i) == U16At(s, i)
  {
  }

  /** A record after the changed byte still describes the same entry. */
  lemma RecordUntouched(files: seq<ZipFile>, k: nat, at: nat, b: byte)
    requires k < |files| && WithinLimits(files) && at < LocalSize(files)
    ensures var a, c := Archive(files), CursorOf(files, k);
      && at < |a|
      && c + 46 <= |a|
      && U16At(a[at := b], c + 10) == 0
      && U32At(a[at := b], c + 16) == files[k].Crc()
      && U32At(a[at := b], c + 20) == |files[k].bytes|
      && U32At(a[at := b], c + 24) == |files[k].bytes|
      && U32At(a[at := b], c + 42) == LocalSize(files[..k])
      && RecordEnd(a[at := b], c) == CursorOf(files, k + 1)
  {
    hide U32At, U16At, Archive, LocalSize, CentralSize, Crc32.Checksum, Encode, RecordName, Clean;
    SizesWithinLimits(files, k);
    RecordFields(files, k);
    var a, c := Archive(files), CursorOf(files, k);
    assert at < c;
    FieldUntouched(a, at, b, c + 10);
    FieldUntouched(a, at, b, c + 16);
    FieldUntouched(a, at, b, c + 20);
    FieldUntouched(a, at, b, c + 24);
    FieldUntouched(a, at, b, c + 28);
    FieldUntouched(a, at, b, c + 30);
    FieldUntouched(a, at, b, c + 32);
    FieldUntouched(a, at, b, c + 42);
  }

  /** A stored entry whose contents do not have the recorded checksum is refused. */
  lemma MismatchRefused(inflate: Option<seq<byte> -> Stream>, bytes: seq<byte>, c: nat, l: nat, data: nat,
                        contents: seq<byte>, maxBytes: int)
    requires c + 46 <= |bytes| && U32At(bytes, c + 42) == l && l + 30 <= data && data + |contents| <= |bytes|
    requires U16At(bytes, c + 10) == 0 && U32At(bytes, c + 20) == |contents|
    requires data == l + 30 + U16At(bytes, l + 26) + U16At(bytes, l + 28)
    requires bytes[data..data + |contents|] == contents && U32At(bytes, c + 16) != Crc32.Checksum(contents)
    ensures ReadContents(inflate, bytes, c, maxBytes).Failure?
  {
    hide U32At, U16At, Crc32.Checksum, Inflated;
  }

  /** The entry whose data byte changed is refused: its checksum cannot match. */
  lemma CorruptContentsRefused(inflate: Option<seq<byte> -> Stream>, files: seq<ZipFile>, k: nat, at: nat, b: byte, maxBytes: int)
    requires WithinLimits(files) && IsDataByte(files, k, at) && at < |Archive(files)| && Archive(files)[at] != b
    ensures CursorOf(files, k) + 46 <= |Archive(files)|
    ensures ReadContents(inflate, Archive(files)[at := b], CursorOf(files, k), maxBytes).Failure?
  {
    hide U32At, U16At, Archive, LocalSize, CentralSize, Crc32.Checksum, Encode, ReadContents, RecordEnd;
    var a, f, l := Archive(files), files[k], LocalSize(files[..k]);
    var data := l + 30 + |f.Name()|;
    LocalSizeEnd(files, k);
    RecordUntouched(files, k, at, b);
    DataFields(files, k);
    FieldUntouched(a, at, b, l);
    FieldUntouched(a, at, b, l + 26);
    FieldUntouched(a, at, b, l + 28);
    SliceChanged(a, data, f.bytes, at, b);
    Crc32.ChecksumDetects(f.bytes, at - data, b);
    MismatchRefused(inflate, a[at := b], CursorOf(files, k), l, data, f.bytes[at - data := b], maxBytes);
  }

  lemma SliceChanged(a: seq<byte>, data: nat, contents: seq<byte>, at: nat, b: byte)
    requires data <= at < data + |contents| <= |a| && a[data..data + |contents|] == contents
    ensures a[at := b][data..data + |contents|] == contents[at - data := b]
    ensures contents[at - data] == a[at]
  {
    assert a[at] == a[data..data + |contents|][at - data];
  }

  lemma LocalSizeEnd(files: seq<ZipFile>, k: nat)
    requires k < |files|
    ensures LocalSize(files[..k]) + 30 + |files[k].Name()| + |files[k].bytes| <= LocalSize(files)
  {
    hide LocalSize, Encode;
    var soFar := files[..k + 1];
    assert soFar[..|soFar| - 1] == files[..k] && soFar[|soFar| - 1] == files[k];
    LocalSizeStep(soFar);
    LocalSizeMonotone(files, k + 1);
  }

  /** The walk either stops with an error or stands where the writer put the record. */
  lemma {:induction false} CorruptWalk(runtime: Runtime, files: seq<ZipFile>, at: nat, b: byte, k: nat)
    requires WithinLimits(files) && at < LocalSize(files) && at < |Archive(files)| && k <= |files|
    ensures var r := ReadRecords(runtime, Archive(files)[at := b], LocalSize(files), k);
      r.Success? ==> r.value.cursor == CursorOf(files, k)
  {
    hide Archive, LocalSize, RecordEnd, RecordName, ReadContents, AcceptsPath, WithinLimits, CursorOf, U32At;
    if k == 0 {
      CursorStart(files);
    } else {
      CorruptWalk(runtime, files, at, b, k - 1);
      RecordUntouched(files, k - 1, at, b);
    }
  }

  /** The end record of an archive after a change before the central directory. */
  lemma EndUntouched(files: seq<ZipFile>, at: nat, b: byte)
    requires WithinLimits(files) && at < LocalSize(files)
    ensures at < |Archive(files)|
    ensures var a, end := Archive(files)[at := b], |Archive(files)| - 22;
      && FindEnd(a, end) == Some(end)
      && FileCount(a, end) == |files|
      && CentralOffset(a, end) == LocalSize(files)
  {
    hide U32At, U16At, LocalParts, CentralParts, EndRecord;
    EndOfArchive(files);
    var a, end := Archive(files), |Archive(files)| - 22;
    FieldUntouched(a, at, b, end);
    FieldUntouched(a, at, b, end + 10);
    FieldUntouched(a, at, b, end + 16);
    assert U32At(a, end) == END_SIGNATURE by { EndSignature(files); }
  }

  lemma EndSignature(files: seq<ZipFile>)
    ensures U32At(Archive(files), |Archive(files)| - 22) == END_SIGNATURE
  {
    EndOfArchive(files);
    FindEndSignature(Archive(files), |Archive(files)| - 22);
  }

  lemma FindEndSignature(bytes: seq<byte>, from: nat)
    requires from + 22 <= |bytes| && FindEnd(bytes, from) == Some(from)
    ensures U32At(bytes, from) == END_SIGNATURE
  {
  }

  lemma CorruptDataRefused(runtime: Runtime, files: seq<ZipFile>, k: nat, at: nat, b: byte)
    requires WithinLimits(files) && IsDataByte(files, k, at) && at < |Archive(files)| && Archive(files)[at] != b
    ensures ReadMembers(runtime, Archive(files)[at := b]).Failure?
  {
    hide Archive, ReadContents, RecordEnd, RecordName, AcceptsPath, FindEnd, FileCount, CentralOffset, U32At, LocalSize, WithinLimits, CursorOf, TotalContents;
    var a := Archive(files)[at := b];
    LocalSizeEnd(files, k);
    EndUntouched(files, at, b);
    CorruptWalk(runtime, files, at, b, k);
    var walked := ReadRecords(runtime, a, LocalSize(files), k);
    if walked.Success? {
      CorruptContentsRefused(runtime.inflate, files, k, at, b, MAX_ARCHIVE_BYTES - TotalContents(walked.value.members));
      assert ReadRecord(runtime, a, walked.value).Failure?;
      assert ReadRecords(runtime, a, LocalSize(files), k + 1).Failure?;
      ReadRecordsSticks(runtime, a, LocalSize(files), k + 1, |files|);
    } else {
      ReadRecordsSticks(runtime, a, LocalSize(files), k, |files|);
    }
  }

  /** Integrity: changing any one data byte of any file in any archive the writer
      produced makes every reader refuse it. */
  lemma OneByteCorruptionIsRefused(unicode: Unicode, inputs: seq<ZipFile>, runtime: Runtime, k: nat, at: nat, b: byte)
    requires CreateResult(unicode, inputs).Success?
    requires IsDataByte(SortedFiles(unicode, inputs), k, at)
    ensures var archive := CreateResult(unicode, inputs).value;
      && at < |archive|
      && (b != archive[at] ==> ReadResult(runtime, archive[at := b]).Failure?)
  {
    hide CreateResult, SortedFiles, Archive, ReadMembers, WithinLimits;
    var files := SortedFiles(unicode, inputs);
    AcceptedWithinLimits(unicode, inputs);
    LocalSizeEnd(files, k);
    SizesWithinLimits(files, k);
    if b != Archive(files)[at] {
      CorruptDataRefused(runtime, files, k, at, b);
    }
  }

  /** Unicode services that change nothing, for concrete examples. */
  function PlainUnicode(): Unicode {
    Unicode((s: Str) => s, (s: Str) => s, (a: Str, b: Str) => false)
  }

  /** The round trip is not unconditional: a path that starts with a byte-order
      mark is accepted by the writer but comes back without the mark. */
  lemma MarkedPathIsNotReturned(runtime: Runtime)
    requires runtime.unicode == PlainUnicode()
    ensures var inputs := [ZipFile([0xFEFF, 0x61], [])];
      && CreateResult(runtime.unicode, inputs).Success?
      && ReadResult(runtime, CreateResult(runtime.unicode, inputs).value) != Success(FilesPutIn(inputs))
  {
    var path: Str := [0xFEFF, 0x61];
    var file := ZipFile(path, []);
    var inputs := [file];
    MarkedPathPortable();
    MarkedPathArchive(runtime.unicode, file);
    assert !IsDirectory(inputs[0].path) && !Lossless(inputs[0].path);
    assert !FilePathsLossless(inputs);
    hide CreateResult, ReadResult, FilesOf, PortablePath, Archive;
    RoundTripExactly(runtime, inputs);
  }

  lemma MarkedPathPortable()
    ensures PortablePath(PlainUnicode(), [0xFEFF, 0x61]) && |Encode([0xFEFF, 0x61])| == 4
  {
    var path: Str := [0xFEFF, 0x61];
    assert path[1..] == [0x61] && path[1..][1..] == [];
    assert Scalars(path[1..]) == [0x61] + Scalars(path[1..][1..]);
    assert Scalars(path) == [0xFEFF] + Scalars(path[1..]);
    assert Scalars(path) == [0xFEFF, 0x61];
    var cs: seq<Scalar> := [0xFEFF, 0x61];
    assert cs[1..] == [0x61] && cs[1..][1..] == [];
    assert EncodeScalars(cs[1..]) == EncodeScalar(0x61) + EncodeScalars(cs[1..][1..]);
    assert EncodeScalars(cs) == EncodeScalar(0xFEFF) + EncodeScalars(cs[1..]);
    assert |EncodeScalar(0xFEFF)| == 3 && |EncodeScalar(0x61)| == 1;
    var none: Str := [];
    var first: Str := [0xFEFF];
    assert none + [0xFEFF] == first && first + [0x61] == path;
    assert ComponentsFrom(path[1..][1..], path) == [path];
    assert ComponentsFrom(path[1..], first) == ComponentsFrom(path[1..][1..], path);
    assert ComponentsFrom(path, none) == ComponentsFrom(path[1..], first);
    assert Components(path) == [path];
  }

  lemma MarkedPathArchive(unicode: Unicode, file: ZipFile)
    requires file.path == [0xFEFF, 0x61] && file.bytes == [] && |file.Name()| == 4
    requires PortablePath(unicode, file.path)
    ensures CreateResult(unicode, [file]).Success?
  {
    hide PortablePath, Encode, Crc32.Checksum, LocalHeader, CentralHeader, EndRecord;
    var inputs := [file];
    AcceptedFiles(unicode, inputs);
    assert Acceptable(unicode, file);
    assert SortedFiles(unicode, inputs) == inputs by {
      Sorting.SortPermutes(inputs, (a: ZipFile, b: ZipFile) => unicode.collatesBefore(a.path, b.path));
      var sorted := SortedFiles(unicode, inputs);
      assert sorted[0] in multiset(inputs);
    }
    LocalSizeStep(inputs);
    assert inputs[..0] == [];
    assert CentralParts(inputs) == CentralParts([]) + [CentralHeader(file.Name(), file.Crc(), 0, LocalSize([]))];
    ConcatSnoc([], CentralHeader(file.Name(), file.Crc(), 0, LocalSize([])));
    assert LocalSize([]) == 0 && LocalSize(inputs) == 34;
    assert [] + [CentralHeader(file.Name(), file.Crc(), 0, 0)] == [CentralHeader(file.Name(), file.Crc(), 0, 0)];
    assert CentralSize(inputs) == 50;
    assert |Archive(inputs)| == 34 + 50 + 22;
  }
}
