/** `readZip`: find the end record, walk the central directory and take every
    entry back, checking paths, bounds, sizes, checksums and the byte budget. */
module ZipReader {
  import opened Wrappers
  import opened Bytes
  import opened Text
  import opened ArchivePaths
  import opened ZipFormat
  import Crc32

  /** A decompressor's output: the chunks it yields before it ends or fails. */
  datatype Stream = Stream(chunks: seq<seq<byte>>, fails: bool)

  /** The services of the JavaScript runtime; some browsers cannot decompress. */
  datatype Runtime = Runtime(unicode: Unicode, inflate: Option<seq<byte> -> Stream>)

  /** One entry taken from an archive. */
  datatype Member = Member(path: Str, directory: bool, contents: seq<byte>) {
    function PathEntry(unicode: Unicode): Entry {
      Entry(unicode.collisionKey(path), directory)
    }
  }

  function MemberEntries(unicode: Unicode, members: seq<Member>): (entries: seq<Entry>)
    ensures |entries| == |members|
    ensures forall i :: 0 <= i < |members| ==> entries[i] == members[i].PathEntry(unicode)
  {
    if members == [] then []
    else MemberEntries(unicode, members[..|members| - 1]) + [members[|members| - 1].PathEntry(unicode)]
  }

  function TotalContents(members: seq<Member>): nat {
    if members == [] then 0
    else TotalContents(members[..|members| - 1]) + |members[|members| - 1].contents|
  }

  /** The returned `Map`: files only, directories are omitted. */
  function FilesOf(members: seq<Member>): map<Str, seq<byte>> {
    if members == [] then map[]
    else
      var earlier := FilesOf(members[..|members| - 1]);
      var last := members[|members| - 1];
      if last.directory then earlier else earlier[last.path := last.contents]
  }

  /** The last offset at which an end record can start and its signature stands. */
  predicate IsEndOffset(bytes: seq<byte>, at: nat) {
    && at + 22 <= |bytes| <= at + 65557
    && U32At(bytes, at) == END_SIGNATURE
    && forall later :: at < later && later + 22 <= |bytes| ==> U32At(bytes, later) != END_SIGNATURE
  }

  function FindEnd(bytes: seq<byte>, from: int): (at: Option<nat>)
    requires from + 22 <= |bytes|
    ensures at.Some? ==> at.value <= from
    decreases from + 1
  {
    if from < 0 || from + 65557 < |bytes| then None
    else if U32At(bytes, from) == END_SIGNATURE then Some(from)
    else FindEnd(bytes, from - 1)
  }

  /** The backward scan finds the last end signature in reach, or there is none. */
  lemma {:induction false} FindEndCorrect(bytes: seq<byte>, from: int)
    requires from + 22 <= |bytes|
    requires forall later :: 0 <= later && from < later && later + 22 <= |bytes| ==> U32At(bytes, later) != END_SIGNATURE
    ensures FindEnd(bytes, from).Some? ==> IsEndOffset(bytes, FindEnd(bytes, from).value)
    ensures FindEnd(bytes, from).None? ==> forall at: nat :: !IsEndOffset(bytes, at)
    decreases from + 1
  {
    if from < 0 || from + 65557 < |bytes| || U32At(bytes, from) == END_SIGNATURE {
    } else {
      FindEndCorrect(bytes, from - 1);
    }
  }

  method FindEndRecord(bytes: seq<byte>) returns (at: Option<nat>)
    ensures at == FindEnd(bytes, |bytes| - 22)
    ensures at.Some? ==> IsEndOffset(bytes, at.value)
    ensures at.None? ==> forall other: nat :: !IsEndOffset(bytes, other)
  {
    FindEndCorrect(bytes, |bytes| - 22);
    var minimum := if |bytes| > 65557 then |bytes| - 65557 else 0;
    var offset := |bytes| - 22;
    while offset >= minimum
      invariant offset + 22 <= |bytes|
      invariant FindEnd(bytes, offset) == FindEnd(bytes, |bytes| - 22)
      decreases offset
    {
      if U32At(bytes, offset) == END_SIGNATURE {
        return Some(offset);
      }
      offset := offset - 1;
    }
    return None;
  }

  /** Chunks are taken while they fit the budget and the declared size. */
  function Consume(chunks: seq<seq<byte>>, maxBytes: int, expectedBytes: nat): Result<seq<byte>, ZipError> {
    if chunks == [] then Success([])
    else
      match Consume(chunks[..|chunks| - 1], maxBytes, expectedBytes)
      case Failure(error) => Failure(error)
      case Success(output) =>
        var total := |output| + |chunks[|chunks| - 1]|;
        if total > maxBytes then Failure(ExpandedTooLarge)
        else if total > expectedBytes then Failure(ExpandsBeyondDeclaredSize)
        else Success(output + chunks[|chunks| - 1])
  }

  function Inflated(inflate: Option<seq<byte> -> Stream>, data: seq<byte>, maxBytes: int, expectedBytes: nat)
    : Result<seq<byte>, ZipError>
  {
    if inflate.None? then Failure(DecompressionUnavailable)
    else
      var stream := inflate.value(data);
      match Consume(stream.chunks, maxBytes, expectedBytes)
      case Failure(error) => Failure(error)
      case Success(output) => if stream.fails then Failure(DecompressionFailed) else Success(output)
  }

  /** Inflation succeeds exactly when everything yielded fits both limits, and
      then returns the chunks in order. */
  lemma {:induction false} ConsumeConcatenates(chunks: seq<seq<byte>>, maxBytes: int, expectedBytes: nat)
    requires 0 <= maxBytes
    ensures Consume(chunks, maxBytes, expectedBytes).Success? <==>
      |Concat(chunks)| <= maxBytes && |Concat(chunks)| <= expectedBytes
    ensures Consume(chunks, maxBytes, expectedBytes).Success? ==>
      Consume(chunks, maxBytes, expectedBytes).value == Concat(chunks)
  {
    if chunks != [] {
      var last := |chunks| - 1;
      ConsumeConcatenates(chunks[..last], maxBytes, expectedBytes);
      ConcatSnoc(chunks[..last], chunks[last]);
      assert chunks == chunks[..last] + [chunks[last]];
    }
  }

  lemma {:induction false} ConsumeSticks(chunks: seq<seq<byte>>, k: nat, maxBytes: int, expectedBytes: nat)
    requires k <= |chunks| && Consume(chunks[..k], maxBytes, expectedBytes).Failure?
    ensures Consume(chunks, maxBytes, expectedBytes) == Consume(chunks[..k], maxBytes, expectedBytes)
  {
    if k == |chunks| {
      assert chunks[..k] == chunks;
    } else {
      assert chunks[..|chunks| - 1][..k] == chunks[..k];
      ConsumeSticks(chunks[..|chunks| - 1], k, maxBytes, expectedBytes);
    }
  }

  lemma NothingConsumed(maxBytes: int, expectedBytes: nat)
    ensures Consume([], maxBytes, expectedBytes) == Success([])
  {
  }

  lemma ConsumeStep(chunks: seq<seq<byte>>, k: nat, before: seq<byte>, maxBytes: int, expectedBytes: nat)
    requires k < |chunks| && Consume(chunks[..k], maxBytes, expectedBytes) == Success(before)
    ensures var total := |before| + |chunks[k]|;
      if total > maxBytes then Consume(chunks, maxBytes, expectedBytes) == Failure(ExpandedTooLarge)
      else if total > expectedBytes then Consume(chunks, maxBytes, expectedBytes) == Failure(ExpandsBeyondDeclaredSize)
      else Consume(chunks[..k + 1], maxBytes, expectedBytes) == Success(before + chunks[k])
  {
    var soFar := chunks[..k + 1];
    assert soFar[..|soFar| - 1] == chunks[..k] && soFar[|soFar| - 1] == chunks[k];
    if |before| + |chunks[k]| > maxBytes || |before| + |chunks[k]| > expectedBytes {
      ConsumeSticks(chunks, k + 1, maxBytes, expectedBytes);
    }
  }

  /** `inflateRaw`: every chunk is written inside the buffer of the declared size. */
  method InflateRaw(inflate: Option<seq<byte> -> Stream>, data: seq<byte>, maxBytes: int, expectedBytes: nat)
    returns (result: Result<seq<byte>, ZipError>)
    ensures result == Inflated(inflate, data, maxBytes, expectedBytes)
  {
    hide Consume;
    if inflate.None? {
      return Failure(DecompressionUnavailable);
    }
    var stream := inflate.value(data);
    NothingConsumed(maxBytes, expectedBytes);
    assert stream.chunks[..0] == [];
    var output := new byte[expectedBytes](_ => 0);
    var totalBytes := 0;
    for k := 0 to |stream.chunks|
      invariant totalBytes <= expectedBytes
      invariant Consume(stream.chunks[..k], maxBytes, expectedBytes) == Success(output[..totalBytes])
    {
      var value := stream.chunks[k];
      ghost var before := output[..totalBytes];
      ConsumeStep(stream.chunks, k, before, maxBytes, expectedBytes);
      totalBytes := totalBytes + |value|;
      if totalBytes > maxBytes {
        return Failure(ExpandedTooLarge);
      }
      if totalBytes > expectedBytes {
        return Failure(ExpandsBeyondDeclaredSize);
      }
      Set(output, value, totalBytes - |value|);
      assert output[..totalBytes] == before + value;
    }
    assert stream.chunks[..|stream.chunks|] == stream.chunks;
    if stream.fails {
      return Failure(DecompressionFailed);
    }
    return Success(output[..totalBytes]);
  }

  /** Where the walk stands: the next central record, and what has been taken. */
  datatype Progress = Progress(cursor: nat, members: seq<Member>)

  /** The end of the central record at a cursor. */
  function RecordEnd(bytes: seq<byte>, cursor: nat): nat
    requires cursor + 46 <= |bytes|
  {
    cursor + 46 + U16At(bytes, cursor + 28) + U16At(bytes, cursor + 30) + U16At(bytes, cursor + 32)
  }

  function RecordName(bytes: seq<byte>, cursor: nat): Option<Str>
    requires cursor + 46 <= |bytes| && RecordEnd(bytes, cursor) <= |bytes|
  {
    Decode(bytes[cursor + 46..cursor + 46 + U16At(bytes, cursor + 28)])
  }

  function Extract(inflate: Option<seq<byte> -> Stream>, compression: nat, data: seq<byte>, maxBytes: int, expectedBytes: nat)
    : Result<seq<byte>, ZipError>
  {
    if compression == 0 then Success(data)
    else if compression == 8 then Inflated(inflate, data, maxBytes, expectedBytes)
    else Failure(UnsupportedMethod)
  }

  /** The contents of the entry described at a cursor, read through its local header. */
  function ReadContents(inflate: Option<seq<byte> -> Stream>, bytes: seq<byte>, cursor: nat, maxBytes: int)
    : Result<seq<byte>, ZipError>
    requires cursor + 46 <= |bytes|
  {
    var expectedCrc := U32At(bytes, cursor + 16);
    var compressedSize := U32At(bytes, cursor + 20);
    var uncompressedSize := U32At(bytes, cursor + 24);
    var localOffset := U32At(bytes, cursor + 42);
    if localOffset + 30 > |bytes| || U32At(bytes, localOffset) != LOCAL_SIGNATURE then Failure(LocalHeaderInvalid)
    else
      var dataOffset := localOffset + 30 + U16At(bytes, localOffset + 26) + U16At(bytes, localOffset + 28);
      var compressed := Subarray(bytes, dataOffset, dataOffset + compressedSize);
      if |compressed| != compressedSize then Failure(EntryTruncated)
      else if uncompressedSize > maxBytes then Failure(ExpandedTooLarge)
      else
        match Extract(inflate, U16At(bytes, cursor + 10), compressed, maxBytes, uncompressedSize)
        case Failure(error) => Failure(error)
        case Success(contents) =>
          if |contents| != uncompressedSize || Crc32.Checksum(contents) != expectedCrc then Failure(IntegrityFailure)
          else Success(contents)
  }

  ghost predicate AcceptsPath(unicode: Unicode, members: seq<Member>, member: Member) {
    PortablePath(unicode, member.path) && RegisterAll(MemberEntries(unicode, members + [member])).Some?
  }

  /** One round of the loop over the central directory. */
  ghost function ReadRecord(runtime: Runtime, bytes: seq<byte>, progress: Progress): Result<Progress, ZipError> {
    var cursor := progress.cursor;
    if cursor + 46 > |bytes| || U32At(bytes, cursor) != CENTRAL_SIGNATURE then Failure(CentralDirectoryInvalid)
    else if RecordEnd(bytes, cursor) > |bytes| then Failure(CentralDirectoryTruncated)
    else
      match RecordName(bytes, cursor)
      case None => Failure(NameUndecodable)
      case Some(name) =>
        if !AcceptsPath(runtime.unicode, progress.members, Member(Portable(name), IsDirectory(name), [])) then
          Failure(PathRejected)
        else
          match ReadContents(runtime.inflate, bytes, cursor, MAX_ARCHIVE_BYTES - TotalContents(progress.members))
          case Failure(error) => Failure(error)
          case Success(contents) =>
            if IsDirectory(name) && contents != [] then Failure(DirectoryNotEmpty)
            else
              Success(Progress(
                        RecordEnd(bytes, cursor),
                        progress.members + [Member(Portable(name), IsDirectory(name), contents)]))
  }

  ghost function ReadRecords(runtime: Runtime, bytes: seq<byte>, start: nat, count: nat): Result<Progress, ZipError> {
    if count == 0 then Success(Progress(start, []))
    else
      match ReadRecords(runtime, bytes, start, count - 1)
      case Failure(error) => Failure(error)
      case Success(progress) => ReadRecord(runtime, bytes, progress)
  }

  function FileCount(bytes: seq<byte>, end: nat): nat
    requires end + 22 <= |bytes|
  {
    U16At(bytes, end + 10)
  }

  function CentralOffset(bytes: seq<byte>, end: nat): nat
    requires end + 22 <= |bytes|
  {
    U32At(bytes, end + 16)
  }

  /** The entries of an archive, or why it is refused. */
  ghost function ReadMembers(runtime: Runtime, bytes: seq<byte>): Result<seq<Member>, ZipError> {
    if |bytes| > MAX_ARCHIVE_BYTES then Failure(ArchiveTooLarge)
    else
      FindEndCorrect(bytes, |bytes| - 22);
      match FindEnd(bytes, |bytes| - 22)
      case None => Failure(NotAnArchive)
      case Some(end) =>
        if FileCount(bytes, end) > MAX_ARCHIVE_FILES then Failure(TooManyFiles)
        else if CentralOffset(bytes, end) + U32At(bytes, end + 12) > end then Failure(CentralDirectoryInvalid)
        else
          match ReadRecords(runtime, bytes, CentralOffset(bytes, end), FileCount(bytes, end))
          case Failure(error) => Failure(error)
          case Success(progress) => Success(progress.members)
  }

  ghost function ReadResult(runtime: Runtime, bytes: seq<byte>): Result<map<Str, seq<byte>>, ZipError> {
    match ReadMembers(runtime, bytes)
    case Failure(error) => Failure(error)
    case Success(members) => Success(FilesOf(members))
  }

  lemma MemberEntriesSnoc(unicode: Unicode, members: seq<Member>, member: Member)
    ensures MemberEntries(unicode, members + [member]) == MemberEntries(unicode, members) + [member.PathEntry(unicode)]
  {
    assert (members + [member])[..|members|] == members;
  }

  /** Reading the contents of one entry: bounds, method, budget, size and checksum. */
  method ReadEntry(inflate: Option<seq<byte> -> Stream>, bytes: seq<byte>, cursor: nat, remainingBytes: int)
    returns (result: Result<seq<byte>, ZipError>)
    requires cursor + 46 <= |bytes|
    ensures result == ReadContents(inflate, bytes, cursor, remainingBytes)
  {
    hide U16At, U32At, Subarray, Inflated, Crc32.Checksum;
    var compression := U16At(bytes, cursor + 10);
    var expectedCrc := U32At(bytes, cursor + 16);
    var compressedSize := U32At(bytes, cursor + 20);
    var uncompressedSize := U32At(bytes, cursor + 24);
    var localOffset := U32At(bytes, cursor + 42);
    if localOffset + 30 > |bytes| || U32At(bytes, localOffset) != LOCAL_SIGNATURE {
      return Failure(LocalHeaderInvalid);
    }
    var localNameLength := U16At(bytes, localOffset + 26);
    var localExtraLength := U16At(bytes, localOffset + 28);
    var dataOffset := localOffset + 30 + localNameLength + localExtraLength;
    var compressed := Subarray(bytes, dataOffset, dataOffset + compressedSize);
    if |compressed| != compressedSize {
      return Failure(EntryTruncated);
    }
    if uncompressedSize > remainingBytes {
      return Failure(ExpandedTooLarge);
    }
    var contents: Result<seq<byte>, ZipError> := Failure(UnsupportedMethod);
    if compression == 0 {
      contents := Success(compressed);
    } else if compression == 8 {
      contents := InflateRaw(inflate, compressed, remainingBytes, uncompressedSize);
    }
    if contents.Failure? {
      return contents;
    }
    var crc := Crc32.Crc32(contents.value);
    if |contents.value| != uncompressedSize || crc != expectedCrc {
      return Failure(IntegrityFailure);
    }
    return contents;
  }

  /** Registering one more member's path. */
  lemma RegisterOneMore(unicode: Unicode, members: seq<Member>, paths: map<Str, bool>, member: Member)
    requires RegisterAll(MemberEntries(unicode, members)) == Some(paths)
    ensures RegisterAll(MemberEntries(unicode, members + [member])) ==
      var key := unicode.collisionKey(member.path);
      if Admits(paths, Entry(key, member.directory)) then Some(paths[key := member.directory]) else None
  {
    hide Admits;
    MemberEntriesSnoc(unicode, members, member);
    var entries := MemberEntries(unicode, members);
    var more := entries + [member.PathEntry(unicode)];
    assert more[..|more| - 1] == entries && more[|more| - 1] == member.PathEntry(unicode);
  }

  /** One round of the loop: the paths registered so far are those of the members taken. */
  method ReadNext(runtime: Runtime, bytes: seq<byte>, cursor: nat, archivePaths: PathRegistry, totalBytes: nat, ghost members: seq<Member>)
    returns (result: Result<(nat, Member), ZipError>)
    requires RegisterAll(MemberEntries(runtime.unicode, members)) == Some(archivePaths.paths)
    requires totalBytes == TotalContents(members)
    modifies archivePaths
    ensures result.Failure? ==> ReadRecord(runtime, bytes, Progress(cursor, members)) == Failure(result.error)
    ensures result.Success? ==>
      && ReadRecord(runtime, bytes, Progress(cursor, members)) == Success(Progress(result.value.0, members + [result.value.1]))
      && RegisterAll(MemberEntries(runtime.unicode, members + [result.value.1])) == Some(archivePaths.paths)
  {
    hide U16At, U32At, RecordEnd, RecordName, ReadContents, PortablePath, IsDirectory, Portable, Admits;
    hide RegisterAll, MemberEntries, TotalContents;
    if cursor + 46 > |bytes| || U32At(bytes, cursor) != CENTRAL_SIGNATURE {
      return Failure(CentralDirectoryInvalid);
    }
    var recordEnd := RecordEnd(bytes, cursor);
    if recordEnd > |bytes| {
      return Failure(CentralDirectoryTruncated);
    }
    var name := RecordName(bytes, cursor);
    if name.None? {
      return Failure(NameUndecodable);
    }
    var directory := IsDirectory(name.value);
    var path := Portable(name.value);
    ghost var probe := Member(path, directory, []);
    ghost var registered := archivePaths.paths;
    RegisterOneMore(runtime.unicode, members, registered, probe);
    var accepted := PortablePath(runtime.unicode, path);
    if accepted {
      accepted := archivePaths.Register(runtime.unicode, path, directory);
    }
    assert accepted <==> AcceptsPath(runtime.unicode, members, probe);
    if !accepted {
      return Failure(PathRejected);
    }
    var contents := ReadEntry(runtime.inflate, bytes, cursor, MAX_ARCHIVE_BYTES - totalBytes);
    if contents.Failure? {
      return Failure(contents.error);
    }
    if directory && contents.value != [] {
      return Failure(DirectoryNotEmpty);
    }
    RegisterOneMore(runtime.unicode, members, registered, Member(path, directory, contents.value));
    return Success((recordEnd, Member(path, directory, contents.value)));
  }

  lemma NoMembers(unicode: Unicode)
    ensures RegisterAll(MemberEntries(unicode, [])) == Some(map[])
    ensures TotalContents([]) == 0 && FilesOf([]) == map[]
  {
  }

  lemma OneMoreMember(members: seq<Member>, member: Member)
    ensures TotalContents(members + [member]) == TotalContents(members) + |member.contents|
    ensures FilesOf(members + [member]) ==
      if member.directory then FilesOf(members) else FilesOf(members)[member.path := member.contents]
  {
    var taken := members + [member];
    assert taken[..|taken| - 1] == members && taken[|taken| - 1] == member;
  }

  method ReadZip(runtime: Runtime, bytes: seq<byte>) returns (result: Result<map<Str, seq<byte>>, ZipError>)
    ensures result == ReadResult(runtime, bytes)
  {
    hide ReadRecord, U32At, FindEnd, Admits, FileCount, FilesOf, TotalContents, MemberEntries, RegisterAll, IsEndOffset;
    NoMembers(runtime.unicode);
    if |bytes| > MAX_ARCHIVE_BYTES {
      return Failure(ArchiveTooLarge);
    }
    var endOffset := FindEndRecord(bytes);
    if endOffset.None? {
      return Failure(NotAnArchive);
    }
    var end := endOffset.value;
    var fileCount := FileCount(bytes, end);
    var centralSize := U32At(bytes, end + 12);
    var centralOffset := CentralOffset(bytes, end);
    if fileCount > MAX_ARCHIVE_FILES {
      return Failure(TooManyFiles);
    }
    if centralOffset + centralSize > end {
      return Failure(CentralDirectoryInvalid);
    }
    var files: map<Str, seq<byte>> := map[];
    var archivePaths := new PathRegistry();
    var cursor := centralOffset;
    var totalBytes := 0;
    ghost var members: seq<Member> := [];
    for index := 0 to fileCount
      invariant ReadRecords(runtime, bytes, centralOffset, index) == Success(Progress(cursor, members))
      invariant RegisterAll(MemberEntries(runtime.unicode, members)) == Some(archivePaths.paths)
      invariant totalBytes == TotalContents(members)
      invariant files == FilesOf(members)
    {
      var next := ReadNext(runtime, bytes, cursor, archivePaths, totalBytes, members);
      if next.Failure? {
        ReadRecordsSticks(runtime, bytes, centralOffset, index + 1, fileCount);
        return Failure(next.error);
      }
      var (recordEnd, member) := next.value;
      ghost var taken := members + [member];
      OneMoreMember(members, member);
      totalBytes := totalBytes + |member.contents|;
      if !member.directory {
        files := files[member.path := member.contents];
      }
      cursor := recordEnd;
      members := taken;
    }
    return Success(files);
  }

  lemma {:induction false} ReadRecordsSticks(runtime: Runtime, bytes: seq<byte>, start: nat, k: nat, count: nat)
    requires k <= count && ReadRecords(runtime, bytes, start, k).Failure?
    ensures ReadRecords(runtime, bytes, start, count) == ReadRecords(runtime, bytes, start, k)
  {
    hide ReadRecord;
    if k < count {
      ReadRecordsSticks(runtime, bytes, start, k, count - 1);
    }
  }
}
