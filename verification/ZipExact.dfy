/** Exactly which byte strings `readZip` accepts and what it returns, by field offsets
    and code units alone; and exactly which inputs `createZip` archives. */
module ZipExact {
  import opened Wrappers
  import opened Bytes
  import opened Text
  import opened ArchivePaths
  import opened PathShape
  import opened ZipFormat
  import opened ZipWriter
  import opened ZipReader
  import opened ZipRoundTrip
  import Crc32
  import Sorting

  // ------------------------------------------------------------ one entry

  /** What stored or deflated data holds: itself, or everything a decompressor yields
      from it before it ends without failing. */
  ghost predicate Unpacks(inflate: Option<seq<byte> -> Stream>, compression: nat, data: seq<byte>,
                          contents: seq<byte>) {
    || (compression == 0 && contents == data)
    || (compression == 8 && inflate.Some? && !inflate.value(data).fails && contents == Concat(inflate.value(data).chunks))
  }

  /** The contents of the entry whose central record stands at c: the local header it
      points to, the data after the local name and extra field, and the recorded size
      and checksum. */
  ghost predicate ContentsAt(inflate: Option<seq<byte> -> Stream>, bytes: seq<byte>, c: nat, contents: seq<byte>)
    requires c + 46 <= |bytes|
  {
    var l, n := U32At(bytes, c + 42), U32At(bytes, c + 20);
    && l + 30 <= |bytes|
    && U32At(bytes, l) == 0x04034b50
    && var d := l + 30 + U16At(bytes, l + 26) + U16At(bytes, l + 28);
    && (n == 0 || d + n <= |bytes|)
    && Unpacks(inflate, U16At(bytes, c + 10), if n == 0 then [] else bytes[d..d + n], contents)
    && |contents| == U32At(bytes, c + 24)
    && Crc32.Checksum(contents) == U32At(bytes, c + 16)
  }

  /** The entry whose central record stands at c. A directory's name carries a slash. */
  ghost predicate MemberAt(inflate: Option<seq<byte> -> Stream>, bytes: seq<byte>, c: nat, member: Member) {
    && c + 46 <= |bytes|
    && U32At(bytes, c) == 0x02014b50
    && c + 46 + U16At(bytes, c + 28) + U16At(bytes, c + 30) + U16At(bytes, c + 32) <= |bytes|
    && Decode(bytes[c + 46..c + 46 + U16At(bytes, c + 28)]) ==
       Some(if member.directory then member.path + [0x2F] else member.path)
    && ContentsAt(inflate, bytes, c, member.contents)
    && (member.directory ==> member.contents == [])
  }

  /** Reading an entry gives exactly the contents laid out for it that fit the budget;
      in particular a deflated entry is read as what its data inflates to, and no other
      compression method is read at all. */
  lemma ContentsExactly(inflate: Option<seq<byte> -> Stream>, bytes: seq<byte>, c: nat, maxBytes: int,
                        contents: seq<byte>)
    requires c + 46 <= |bytes|
    ensures ReadContents(inflate, bytes, c, maxBytes) == Success(contents) <==>
      ContentsAt(inflate, bytes, c, contents) && |contents| <= maxBytes
  {
    hide U32At, U16At, Crc32.Checksum, Extract, Concat;
    var l, n, size := U32At(bytes, c + 42), U32At(bytes, c + 20), U32At(bytes, c + 24);
    if l + 30 <= |bytes| && U32At(bytes, l) == 0x04034b50 {
      var d := l + 30 + U16At(bytes, l + 26) + U16At(bytes, l + 28);
      var data := Subarray(bytes, d, d + n);
      DataExactly(bytes, d, n);
      if |data| == n && size <= maxBytes {
        ExtractExactly(inflate, U16At(bytes, c + 10), data, maxBytes, size, contents);
      }
    }
  }

  lemma DataExactly(bytes: seq<byte>, d: nat, n: nat)
    ensures |Subarray(bytes, d, d + n)| == n <==> n == 0 || d + n <= |bytes|
    ensures n == 0 || d + n <= |bytes| ==> Subarray(bytes, d, d + n) == if n == 0 then [] else bytes[d..d + n]
  {
  }

  lemma ExtractExactly(inflate: Option<seq<byte> -> Stream>, compression: nat, data: seq<byte>, maxBytes: int,
                       size: nat, contents: seq<byte>)
    requires size <= maxBytes
    ensures Extract(inflate, compression, data, maxBytes, size) == Success(contents) && |contents| == size <==>
      Unpacks(inflate, compression, data, contents) && |contents| == size
  {
    hide Consume, Concat;
    if compression == 8 && inflate.Some? {
      ConsumeConcatenates(inflate.value(data).chunks, maxBytes, size);
    }
  }

  /** An entry compressed by any other method is refused. */
  lemma OtherMethodsRefused(inflate: Option<seq<byte> -> Stream>, bytes: seq<byte>, c: nat, maxBytes: int)
    requires c + 46 <= |bytes| && U16At(bytes, c + 10) != 0 && U16At(bytes, c + 10) != 8
    ensures ReadContents(inflate, bytes, c, maxBytes).Failure?
  {
    hide ReadContents, U16At, U32At, Crc32.Checksum;
    var result := ReadContents(inflate, bytes, c, maxBytes);
    if result.Success? {
      ContentsExactly(inflate, bytes, c, maxBytes, result.value);
    }
  }

  /** A deflated entry whose header, data, size and checksum are in order is read as what
      its data inflates to. */
  lemma DeflatedIsRead(inflate: seq<byte> -> Stream, bytes: seq<byte>, c: nat, data: seq<byte>, maxBytes: int)
    requires c + 46 <= |bytes| && U16At(bytes, c + 10) == 8
    requires U32At(bytes, c + 42) + 30 <= |bytes| && U32At(bytes, U32At(bytes, c + 42)) == 0x04034b50
    requires var l := U32At(bytes, c + 42);
      var d := l + 30 + U16At(bytes, l + 26) + U16At(bytes, l + 28);
      |data| == U32At(bytes, c + 20) && d + |data| <= |bytes| && bytes[d..d + |data|] == data
    requires !inflate(data).fails
    requires var contents := Concat(inflate(data).chunks);
      |contents| == U32At(bytes, c + 24) <= maxBytes && Crc32.Checksum(contents) == U32At(bytes, c + 16)
    ensures ReadContents(Some(inflate), bytes, c, maxBytes) == Success(Concat(inflate(data).chunks))
  {
    hide ReadContents, U16At, U32At, Crc32.Checksum, Concat;
    ContentsExactly(Some(inflate), bytes, c, maxBytes, Concat(inflate(data).chunks));
  }

  // ------------------------------------------------------------ the directory

  /** Where the k-th central record stands: each takes 46 bytes and the lengths of its
      name, extra field and comment. */
  function CursorAt(bytes: seq<byte>, start: nat, k: nat): nat {
    if k == 0 then start
    else
      var c := CursorAt(bytes, start, k - 1);
      if c + 46 > |bytes| then c
      else c + 46 + U16At(bytes, c + 28) + U16At(bytes, c + 30) + U16At(bytes, c + 32)
  }

  ghost predicate MembersAt(inflate: Option<seq<byte> -> Stream>, bytes: seq<byte>, start: nat, members: seq<Member>) {
    forall k :: 0 <= k < |members| ==> MemberAt(inflate, bytes, CursorAt(bytes, start, k), members[k])
  }

  function ContentsOf(members: seq<Member>): (contents: seq<seq<byte>>)
    ensures |contents| == |members|
    ensures forall k :: 0 <= k < |members| ==> contents[k] == members[k].contents
  {
    seq(|members|, k requires 0 <= k < |members| => members[k].contents)
  }

  ghost predicate AllPlain(unicode: Unicode, members: seq<Member>) {
    forall k :: 0 <= k < |members| ==> Plain(unicode, members[k].path)
  }

  /** No two paths have the same key, and no file's key is a directory above another's. */
  ghost predicate Separate(unicode: Unicode, members: seq<Member>) {
    forall i, j :: 0 <= i < |members| && 0 <= j < |members| && i != j ==> Apart(unicode, members[i], members[j])
  }

  predicate Apart(unicode: Unicode, a: Member, b: Member) {
    && unicode.collisionKey(a.path) != unicode.collisionKey(b.path)
    && (!a.directory ==> !(unicode.collisionKey(a.path) + [0x2F] <= unicode.collisionKey(b.path)))
  }

  lemma ApartIsCompatible(unicode: Unicode, a: Member, b: Member)
    ensures Compatible(a.PathEntry(unicode), b.PathEntry(unicode)) <==> Apart(unicode, a, b) && Apart(unicode, b, a)
  {
    var x, y := unicode.collisionKey(a.path), unicode.collisionKey(b.path);
    PrefixIsBelow(x, y);
    PrefixIsBelow(y, x);
  }

  lemma PrefixIsBelow(outer: Str, inner: Str)
    ensures outer + [0x2F] <= inner <==> Below(inner, outer)
  {
    if outer + [0x2F] <= inner {
      assert inner[..|outer| + 1] == outer + [0x2F];
      assert inner[..|outer|] == inner[..|outer| + 1][..|outer|];
      assert inner[|outer|] == inner[..|outer| + 1][|outer|];
    }
    if Below(inner, outer) {
      assert inner[..|outer| + 1] == outer + [0x2F];
    }
  }

  lemma SeparateIsCollisionFree(unicode: Unicode, members: seq<Member>)
    ensures CollisionFree(MemberEntries(unicode, members)) <==> Separate(unicode, members)
  {
    hide Compatible, Apart, Member.PathEntry;
    var entries := MemberEntries(unicode, members);
    forall i, j | 0 <= i < |members| && 0 <= j < |members|
      ensures Compatible(entries[i], entries[j]) <==> Apart(unicode, members[i], members[j]) && Apart(unicode, members[j], members[i])
    {
      ApartIsCompatible(unicode, members[i], members[j]);
    }
    if CollisionFree(entries) {
      forall i, j | 0 <= i < |members| && 0 <= j < |members| && i != j
        ensures Apart(unicode, members[i], members[j])
      {
        if i < j {
          assert Compatible(entries[i], entries[j]);
        } else {
          assert Compatible(entries[j], entries[i]);
        }
      }
    }
  }

  lemma ReadableExactly(unicode: Unicode, members: seq<Member>)
    ensures Readable(unicode, members) <==> AllPlain(unicode, members) && Separate(unicode, members)
  {
    hide PortablePath, Plain, CollisionFree, Separate;
    SeparateIsCollisionFree(unicode, members);
    forall k | 0 <= k < |members|
      ensures PortablePath(unicode, members[k].path) <==> Plain(unicode, members[k].path)
    {
      PortableIffPlain(unicode, members[k].path);
    }
  }

  lemma {:induction false} TotalExactly(members: seq<Member>)
    ensures TotalContents(members) == |Concat(ContentsOf(members))|
  {
    if members != [] {
      var n := |members| - 1;
      TotalExactly(members[..n]);
      assert ContentsOf(members) == ContentsOf(members[..n]) + [members[n].contents];
      ConcatSnoc(ContentsOf(members[..n]), members[n].contents);
    }
  }

  /** A name read as a portable path and a kind says the same as the kind and the path. */
  lemma NameExactly(name: Str, path: Str, directory: bool)
    requires path != [] && path[|path| - 1] != 0x2F
    ensures path == Portable(name) && directory == IsDirectory(name) <==>
      name == if directory then path + [0x2F] else path
  {
    if path == Portable(name) && directory && IsDirectory(name) {
      assert name == name[..|name| - 1] + [name[|name| - 1]];
    }
  }

  lemma PlainEnds(unicode: Unicode, path: Str)
    requires Plain(unicode, path)
    ensures path != [] && path[|path| - 1] != 0x2F
  {
  }

  /** One round of the walk takes exactly the entry at the cursor. */
  lemma RecordExactly(runtime: Runtime, bytes: seq<byte>, progress: Progress, member: Member)
    requires Readable(runtime.unicode, progress.members)
    ensures var result := ReadRecord(runtime, bytes, progress);
      result.Success? && result.value.members == progress.members + [member] <==>
      && MemberAt(runtime.inflate, bytes, progress.cursor, member)
      && Readable(runtime.unicode, progress.members + [member])
      && TotalContents(progress.members + [member]) <= MAX_ARCHIVE_BYTES
    ensures ReadRecord(runtime, bytes, progress).Success? ==>
      && progress.cursor + 46 <= |bytes|
      && ReadRecord(runtime, bytes, progress).value.cursor ==
         progress.cursor + 46 + U16At(bytes, progress.cursor + 28) + U16At(bytes, progress.cursor + 30) + U16At(bytes, progress.cursor + 32)
  {
    hide U32At, U16At, Decode, ReadContents, ContentsAt, AcceptsPath, Readable, TotalContents, Portable, IsDirectory;
    var c := progress.cursor;
    if c + 46 <= |bytes| && RecordEnd(bytes, c) <= |bytes| {
      OneMoreMember(progress.members, member);
      ReadableSnoc(runtime.unicode, progress.members, member);
      ContentsExactly(runtime.inflate, bytes, c, MAX_ARCHIVE_BYTES - TotalContents(progress.members), member.contents);
      var name := RecordName(bytes, c);
      if name.Some? {
        LastOfMore(progress.members, Member(Portable(name.value), IsDirectory(name.value), member.contents), member);
        if Readable(runtime.unicode, progress.members + [member]) {
          LastPlain(runtime.unicode, progress.members, member);
          NameExactly(name.value, member.path, member.directory);
        }
      }
    }
  }

  lemma LastPlain(unicode: Unicode, members: seq<Member>, member: Member)
    requires Readable(unicode, members + [member])
    ensures member.path != [] && member.path[|member.path| - 1] != 0x2F
  {
    hide PortablePath;
    assert (members + [member])[|members|] == member;
    PortableIffPlain(unicode, member.path);
    PlainEnds(unicode, member.path);
  }

  lemma LastOfMore(members: seq<Member>, a: Member, b: Member)
    ensures members + [a] == members + [b] <==> a == b
  {
    if members + [a] == members + [b] {
      assert (members + [a])[|members|] == (members + [b])[|members|];
    }
  }

  lemma TakesOne(runtime: Runtime, bytes: seq<byte>, progress: Progress) returns (member: Member)
    requires ReadRecord(runtime, bytes, progress).Success?
    ensures ReadRecord(runtime, bytes, progress).value.members == progress.members + [member]
  {
    hide U32At, U16At, RecordName, ReadContents, AcceptsPath, Portable, IsDirectory;
    var after := ReadRecord(runtime, bytes, progress).value.members;
    member := after[|progress.members|];
  }

  /** The first records are exactly these entries. */
  ghost predicate Holding(runtime: Runtime, bytes: seq<byte>, start: nat, members: seq<Member>) {
    && MembersAt(runtime.inflate, bytes, start, members)
    && Readable(runtime.unicode, members)
    && TotalContents(members) <= MAX_ARCHIVE_BYTES
  }

  lemma HoldingSnoc(runtime: Runtime, bytes: seq<byte>, start: nat, members: seq<Member>, member: Member)
    ensures Holding(runtime, bytes, start, members + [member]) <==>
      && Holding(runtime, bytes, start, members)
      && MemberAt(runtime.inflate, bytes, CursorAt(bytes, start, |members|), member)
      && Readable(runtime.unicode, members + [member])
      && TotalContents(members + [member]) <= MAX_ARCHIVE_BYTES
  {
    hide MemberAt, Readable, TotalContents, CursorAt;
    var more := members + [member];
    assert more[..|members|] == members && more[|members|] == member;
    assert forall k :: 0 <= k < |members| ==> more[k] == members[k];
    OneMoreMember(members, member);
    if Readable(runtime.unicode, more) {
      ReadablePrefix(runtime.unicode, more, |members|);
    }
  }

  lemma NothingHeld(runtime: Runtime, bytes: seq<byte>, start: nat)
    ensures Holding(runtime, bytes, start, [])
  {
    NothingIsReadable(runtime.unicode);
  }

  lemma NextCursor(bytes: seq<byte>, start: nat, k: nat)
    requires CursorAt(bytes, start, k) + 46 <= |bytes|
    ensures var c := CursorAt(bytes, start, k);
      CursorAt(bytes, start, k + 1) == c + 46 + U16At(bytes, c + 28) + U16At(bytes, c + 30) + U16At(bytes, c + 32)
  {
  }

  lemma {:induction false} RecordsExactly(runtime: Runtime, bytes: seq<byte>, start: nat, members: seq<Member>)
    ensures var result := ReadRecords(runtime, bytes, start, |members|);
      && (result.Success? ==> result.value.cursor == CursorAt(bytes, start, |members|) && |result.value.members| == |members|)
      && (result.Success? && result.value.members == members <==> Holding(runtime, bytes, start, members))
    decreases |members|
  {
    hide ReadRecord, MemberAt, Readable, TotalContents, Holding, CursorAt, U16At;
    if members == [] {
      NothingHeld(runtime, bytes, start);
      assert CursorAt(bytes, start, 0) == start by { CursorStart0(bytes, start); }
    } else {
      var n := |members| - 1;
      var earlier, last := members[..n], members[n];
      assert members == earlier + [last];
      RecordsExactly(runtime, bytes, start, earlier);
      HoldingSnoc(runtime, bytes, start, earlier, last);
      var result := ReadRecords(runtime, bytes, start, n);
      if result.Success? {
        RecordsExactly(runtime, bytes, start, result.value.members);
        assert Readable(runtime.unicode, result.value.members) by { HeldReadable(runtime, bytes, start, result.value.members); }
        RecordExactly(runtime, bytes, result.value, last);
        if ReadRecord(runtime, bytes, result.value).Success? {
          var taken := TakesOne(runtime, bytes, result.value);
          SamePrefix(result.value.members, taken, earlier, last);
          NextCursor(bytes, start, n);
        }
      }
    }
  }

  lemma CursorStart0(bytes: seq<byte>, start: nat)
    ensures CursorAt(bytes, start, 0) == start
  {
  }

  lemma HeldReadable(runtime: Runtime, bytes: seq<byte>, start: nat, members: seq<Member>)
    requires Holding(runtime, bytes, start, members)
    ensures Readable(runtime.unicode, members)
  {
  }

  lemma SamePrefix(a: seq<Member>, x: Member, b: seq<Member>, y: Member)
    requires |a| == |b|
    ensures a + [x] == b + [y] <==> a == b && x == y
  {
    if a + [x] == b + [y] {
      assert a == (a + [x])[..|a|] && b == (b + [y])[..|b|];
      assert x == (a + [x])[|a|] && y == (b + [y])[|b|];
    }
  }

  // ------------------------------------------------------------ the whole archive

  /** An end record at the given offset, the last in reach, that announces these entries. */
  ghost predicate EndAt(inflate: Option<seq<byte> -> Stream>, bytes: seq<byte>, end: nat, members: seq<Member>) {
    && end + 22 <= |bytes| <= end + 65557
    && U32At(bytes, end) == 0x06054b50
    && (forall later :: end < later && later + 22 <= |bytes| ==> U32At(bytes, later) != 0x06054b50)
    && |members| == U16At(bytes, end + 10) <= 8193
    && U32At(bytes, end + 16) + U32At(bytes, end + 12) <= end
    && MembersAt(inflate, bytes, U32At(bytes, end + 16), members)
  }

  /** The bytes lay out exactly these entries, stored or deflated, within the limits. */
  ghost predicate LaysOut(runtime: Runtime, bytes: seq<byte>, members: seq<Member>) {
    && |bytes| <= 268435456
    && (exists end: nat :: EndAt(runtime.inflate, bytes, end, members))
    && AllPlain(runtime.unicode, members)
    && Separate(runtime.unicode, members)
    && |Concat(ContentsOf(members))| <= 268435456
  }

  lemma EndIsFound(bytes: seq<byte>, end: nat)
    requires IsEndOffset(bytes, end)
    ensures FindEnd(bytes, |bytes| - 22) == Some(end)
  {
    hide U32At;
    FindEndCorrect(bytes, |bytes| - 22);
  }

  lemma EndExactly(inflate: Option<seq<byte> -> Stream>, bytes: seq<byte>, end: nat, members: seq<Member>)
    ensures EndAt(inflate, bytes, end, members) <==>
      && IsEndOffset(bytes, end)
      && |members| == FileCount(bytes, end) <= MAX_ARCHIVE_FILES
      && CentralOffset(bytes, end) + U32At(bytes, end + 12) <= end
      && MembersAt(inflate, bytes, CentralOffset(bytes, end), members)
  {
    hide U32At, U16At, MembersAt;
  }

  /** `readZip` takes exactly the entries laid out in the bytes, whatever their order,
      extra fields, comments and compression, and refuses every other byte string. */
  lemma ReadsExactly(runtime: Runtime, bytes: seq<byte>, members: seq<Member>)
    ensures ReadMembers(runtime, bytes) == Success(members) <==> LaysOut(runtime, bytes, members)
  {
    hide U32At, U16At, MembersAt, IsEndOffset, FileCount, CentralOffset, ReadRecords, Readable, TotalContents;
    hide AllPlain, Separate, Concat, EndAt;
    ReadableExactly(runtime.unicode, members);
    TotalExactly(members);
    FindEndCorrect(bytes, |bytes| - 22);
    if |bytes| <= MAX_ARCHIVE_BYTES && FindEnd(bytes, |bytes| - 22).Some? {
      var end := FindEnd(bytes, |bytes| - 22).value;
      EndExactly(runtime.inflate, bytes, end, members);
      RecordsExactly(runtime, bytes, CentralOffset(bytes, end), members);
      if ReadMembers(runtime, bytes) == Success(members) {
        TakesAsMany(runtime, bytes, CentralOffset(bytes, end), FileCount(bytes, end));
      }
    }
    if exists end: nat :: EndAt(runtime.inflate, bytes, end, members) {
      var end: nat :| EndAt(runtime.inflate, bytes, end, members);
      EndExactly(runtime.inflate, bytes, end, members);
      EndIsFound(bytes, end);
    }
  }

  lemma {:induction false} TakesAsMany(runtime: Runtime, bytes: seq<byte>, start: nat, count: nat)
    requires ReadRecords(runtime, bytes, start, count).Success?
    ensures |ReadRecords(runtime, bytes, start, count).value.members| == count
  {
    hide ReadRecord;
    if count > 0 {
      TakesAsMany(runtime, bytes, start, count - 1);
      var member := TakesOne(runtime, bytes, ReadRecords(runtime, bytes, start, count - 1).value);
    }
  }

  /** The map returned holds exactly the files among the entries laid out; there is one
      exactly when the bytes lay out some entries. */
  lemma ReadZipExactly(runtime: Runtime, bytes: seq<byte>, files: map<Str, seq<byte>>)
    ensures ReadResult(runtime, bytes) == Success(files) <==>
      exists members :: LaysOut(runtime, bytes, members) && Holds(files, members)
  {
    hide ReadMembers, LaysOut, FilesOf, Holds;
    if ReadResult(runtime, bytes).Success? {
      var members := ReadMembers(runtime, bytes).value;
      ReadsExactly(runtime, bytes, members);
      LaidOutHolds(runtime, bytes, members);
    }
    if exists members :: LaysOut(runtime, bytes, members) && Holds(files, members) {
      var members :| LaysOut(runtime, bytes, members) && Holds(files, members);
      ReadsExactly(runtime, bytes, members);
      LaidOutHolds(runtime, bytes, members);
      HoldsDetermines(files, FilesOf(members), members, members);
    }
  }

  lemma LaidOutHolds(runtime: Runtime, bytes: seq<byte>, members: seq<Member>)
    requires LaysOut(runtime, bytes, members)
    ensures Holds(FilesOf(members), members)
  {
    hide MemberEntries, CollisionFree, Separate, EndAt, AllPlain, Holds, FilesOf;
    SeparateIsCollisionFree(runtime.unicode, members);
    ReadableDistinct(runtime.unicode, members);
    FilesOfHolds(members);
  }

  // ------------------------------------------------------------ the writer

  /** An input as the entry its path names: a trailing slash says directory. */
  function Named(file: ZipFile): (member: Member)
    ensures file.path == if member.directory then member.path + [0x2F] else member.path
    ensures member.directory <==> file.path != [] && file.path[|file.path| - 1] == 0x2F
    ensures member.contents == file.bytes
  {
    var directory := file.path != [] && file.path[|file.path| - 1] == 0x2F;
    Member(if directory then file.path[..|file.path| - 1] else file.path, directory, file.bytes)
  }

  function AllNamed(files: seq<ZipFile>): (members: seq<Member>)
    ensures |members| == |files|
    ensures forall k :: 0 <= k < |files| ==> members[k] == Named(files[k])
  {
    seq(|files|, k requires 0 <= k < |files| => Named(files[k]))
  }

  /** The bytes an archive of the files takes: a local header, the contents and a central
      record for each, with the name twice, and the end record. */
  function SpaceTaken(files: seq<ZipFile>): nat {
    if files == [] then 22 else 76 + 2 * |Encode(files[0].path)| + |files[0].bytes| + SpaceTaken(files[1..])
  }

  lemma {:induction false} SpaceSnoc(files: seq<ZipFile>, file: ZipFile)
    ensures SpaceTaken(files + [file]) == SpaceTaken(files) + 76 + 2 * |Encode(file.path)| + |file.bytes|
  {
    hide Encode;
    if files == [] {
      assert ([] + [file])[1..] == [];
    } else {
      assert (files + [file])[1..] == files[1..] + [file];
      SpaceSnoc(files[1..], file);
    }
  }

  lemma {:induction false} SpaceOfInsert(file: ZipFile, sorted: seq<ZipFile>, smaller: (ZipFile, ZipFile) -> bool)
    ensures SpaceTaken(Sorting.Insert(file, sorted, smaller)) == SpaceTaken(sorted) + 76 + 2 * |Encode(file.path)| + |file.bytes|
  {
    hide Encode;
    if sorted == [] || smaller(file, sorted[0]) {
      assert ([file] + sorted)[1..] == sorted;
    } else {
      SpaceOfInsert(file, sorted[1..], smaller);
      var rest := Sorting.Insert(file, sorted[1..], smaller);
      assert ([sorted[0]] + rest)[1..] == rest;
    }
  }

  lemma {:induction false} SpaceOfSort(files: seq<ZipFile>, smaller: (ZipFile, ZipFile) -> bool)
    ensures SpaceTaken(Sorting.Sort(files, smaller)) == SpaceTaken(files)
  {
    hide Encode, Sorting.Insert;
    if files != [] {
      var n := |files| - 1;
      SpaceOfSort(files[..n], smaller);
      SpaceOfInsert(files[n], Sorting.Sort(files[..n], smaller), smaller);
      SpaceSnoc(files[..n], files[n]);
      assert files == files[..n] + [files[n]];
    }
  }

  lemma {:induction false} ArchiveSize(files: seq<ZipFile>)
    ensures LocalSize(files) + CentralSize(files) + 22 == SpaceTaken(files)
  {
    hide Encode, Crc32.Checksum, LocalHeader, CentralHeader, LocalSize;
    if files == [] {
      assert LocalSize([]) == 0 by { NoLocalParts(); }
    } else {
      var n := |files| - 1;
      ArchiveSize(files[..n]);
      LocalSizeStep(files);
      ConcatSnoc(CentralParts(files[..n]), HeaderOf(files, n));
      SpaceSnoc(files[..n], files[n]);
      assert files == files[..n] + [files[n]];
    }
  }

  lemma NoLocalParts()
    ensures LocalSize([]) == 0
  {
  }

  lemma NamedIsRaw(file: ZipFile)
    ensures Named(file) == RawMember(file)
  {
  }

  lemma NamedExactly(unicode: Unicode, inputs: seq<ZipFile>)
    ensures CollisionFree(Entries(unicode, inputs)) <==> Separate(unicode, AllNamed(inputs))
    ensures AllAcceptable(unicode, inputs) <==>
      AllPlain(unicode, AllNamed(inputs)) && forall k :: 0 <= k < |inputs| && Named(inputs[k]).directory ==> inputs[k].bytes == []
  {
    hide PortablePath, Plain, CollisionFree, Separate, Portable, IsDirectory;
    forall k | 0 <= k < |inputs|
      ensures Named(inputs[k]).directory == IsDirectory(inputs[k].path)
      ensures Named(inputs[k]).path == Portable(inputs[k].path)
      ensures PortablePath(unicode, Portable(inputs[k].path)) <==> Plain(unicode, Named(inputs[k]).path)
    {
      NamedIsRaw(inputs[k]);
      PortableIffPlain(unicode, Portable(inputs[k].path));
    }
    assert MemberEntries(unicode, AllNamed(inputs)) == Entries(unicode, inputs);
    SeparateIsCollisionFree(unicode, AllNamed(inputs));
    if AllAcceptable(unicode, inputs) {
      assert forall k :: 0 <= k < |inputs| ==> Acceptable(unicode, inputs[k]);
    }
  }

  /** Every input is acceptable, on its own and with the others. */
  ghost predicate AllowedTogether(unicode: Unicode, inputs: seq<ZipFile>) {
    && AllPlain(unicode, AllNamed(inputs))
    && (forall k :: 0 <= k < |inputs| && Named(inputs[k]).directory ==> inputs[k].bytes == [])
    && Separate(unicode, AllNamed(inputs))
  }

  lemma AllowedExactly(unicode: Unicode, inputs: seq<ZipFile>)
    ensures AllowedTogether(unicode, inputs) <==> Refusal(unicode, inputs).None?
  {
    hide AllPlain, CollisionFree, Separate, AllAcceptable, Named, Refusal;
    AcceptedFiles(unicode, inputs);
    NamedExactly(unicode, inputs);
  }

  /** `createZip` archives its inputs exactly when every path is plain, directories are
      empty, no two paths are in each other's way, there are at most 8193 of them and
      the archive takes at most 256 MiB. */
  lemma CreatesExactly(unicode: Unicode, inputs: seq<ZipFile>)
    ensures CreateResult(unicode, inputs).Success? <==>
      AllowedTogether(unicode, inputs) && |inputs| <= 8193 && SpaceTaken(inputs) <= 268435456
    ensures CreateResult(unicode, inputs).Success? ==> |CreateResult(unicode, inputs).value| == SpaceTaken(inputs)
  {
    hide AllowedTogether, LocalParts, CentralParts, EndRecord, SpaceTaken, Refusal;
    AllowedExactly(unicode, inputs);
    var smaller := (a: ZipFile, b: ZipFile) => unicode.collatesBefore(a.path, b.path);
    SpaceOfSort(inputs, smaller);
    ArchiveSize(Sorting.Sort(inputs, smaller));
  }

  /** An archive lists the inputs in the order of their paths, if the collation is
      consistent; paths that compare as equal keep the order they came in. */
  lemma ArchiveInOrder(unicode: Unicode, inputs: seq<ZipFile>) returns (files: seq<ZipFile>)
    requires CreateResult(unicode, inputs).Success? && Sorting.Consistent(unicode.collatesBefore)
    ensures CreateResult(unicode, inputs).value == Archive(files) && multiset(files) == multiset(inputs)
    ensures forall i, j :: 0 <= i < j < |files| ==> !unicode.collatesBefore(files[j].path, files[i].path)
  {
    hide Refusal, Archive;
    var smaller := (a: ZipFile, b: ZipFile) => unicode.collatesBefore(a.path, b.path);
    files := Sorting.Sort(inputs, smaller);
    PathsConsistent(unicode, smaller);
    Sorting.SortOrders(inputs, smaller);
    Sorting.SortPermutes(inputs, smaller);
    assert forall i, j :: 0 <= i < j < |files| ==> !smaller(files[j], files[i]);
  }

  lemma PathsConsistent(unicode: Unicode, smaller: (ZipFile, ZipFile) -> bool)
    requires Sorting.Consistent(unicode.collatesBefore)
    requires forall a, b :: smaller(a, b) == unicode.collatesBefore(a.path, b.path)
    ensures Sorting.Consistent(smaller)
  {
  }

  /** The first input that is not acceptable after those before it decides the error. */
  lemma FirstRefusalDecides(unicode: Unicode, inputs: seq<ZipFile>, k: nat)
    requires k < |inputs| && AllowedTogether(unicode, inputs[..k])
    ensures var fits := Plain(unicode, Named(inputs[k]).path) && Separate(unicode, AllNamed(inputs[..k] + [inputs[k]]));
      && (!fits ==> CreateResult(unicode, inputs) == Failure(PathRejected))
      && (fits && Named(inputs[k]).directory && inputs[k].bytes != [] ==> CreateResult(unicode, inputs) == Failure(DirectoryNotEmpty))
  {
    hide Separate, Named, Refusal, LastRefusal, Plain, AllowedTogether, Archive;
    AllowedExactly(unicode, inputs[..k]);
    RefusalStep(unicode, inputs, k);
    LastExactly(unicode, inputs[..k], inputs[k]);
  }

  /** Inputs that are all acceptable are refused for their number, or else for the size of
      the archive. */
  lemma LimitsDecide(unicode: Unicode, inputs: seq<ZipFile>)
    requires AllowedTogether(unicode, inputs)
    ensures |inputs| > 8193 ==> CreateResult(unicode, inputs) == Failure(TooManyFiles)
    ensures |inputs| <= 8193 && SpaceTaken(inputs) > 268435456 ==>
      CreateResult(unicode, inputs) == Failure(ArchiveTooLarge)
  {
    hide Refusal, AllowedTogether, LocalParts, CentralParts, EndRecord, SpaceTaken;
    AllowedExactly(unicode, inputs);
    var smaller := (a: ZipFile, b: ZipFile) => unicode.collatesBefore(a.path, b.path);
    SpaceOfSort(inputs, smaller);
    ArchiveSize(Sorting.Sort(inputs, smaller));
  }

  lemma LastExactly(unicode: Unicode, earlier: seq<ZipFile>, file: ZipFile)
    ensures LastRefusal(unicode, earlier + [file]) ==
      if !(Plain(unicode, Named(file).path) && Separate(unicode, AllNamed(earlier + [file]))) then Some(PathRejected)
      else if Named(file).directory && file.bytes != [] then Some(DirectoryNotEmpty)
      else None
  {
    hide Plain, CollisionFree, Separate, PortablePath, Portable, IsDirectory, Named, RegisterAll;
    AcceptedIffCollisionFree(Entries(unicode, earlier + [file]));
    NamedExactly(unicode, earlier + [file]);
    NamedIsRaw(file);
    PortableIffPlain(unicode, Portable(file.path));
  }
}
