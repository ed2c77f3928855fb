/** What reading gives back after writing, and the corruption reading refuses. */
module ZipRoundTrip {
  import opened Wrappers
  import opened Bytes
  import opened Text
  import opened ArchivePaths
  import opened ZipFormat
  import opened ZipWriter
  import opened ZipReader
  import Crc32
  import Sorting

  /** The bytes around the parts of file k in the local section. */
  lemma {:induction false} LocalSplit(files: seq<ZipFile>, k: nat) returns (rest: seq<byte>)
    requires k < |files|
    ensures var f := files[k];
      Concat(LocalParts(files)) ==
      Concat(LocalParts(files[..k])) + (LocalHeader(f.Name(), f.Crc(), |f.bytes|) + f.bytes) + rest
  {
    hide LocalHeader, Crc32.Checksum, Encode;
    var n := |files| - 1;
    var last := files[n];
    var header := LocalHeader(last.Name(), last.Crc(), |last.bytes|);
    var earlier := LocalParts(files[..n]);
    assert LocalParts(files) == earlier + [header] + [last.bytes];
    ConcatSnoc(earlier, header);
    ConcatSnoc(earlier + [header], last.bytes);
    if k == n {
      rest := [];
    } else {
      var inner := LocalSplit(files[..n], k);
      assert files[..n][..k] == files[..k];
      rest := inner + header + last.bytes;
    }
  }

  /** The header that describes file k. */
  function HeaderOf(files: seq<ZipFile>, k: nat): seq<byte>
    requires k < |files|
  {
    CentralHeader(files[k].Name(), files[k].Crc(), |files[k].bytes|, LocalSize(files[..k]))
  }

  lemma {:induction false} CentralSplit(files: seq<ZipFile>, k: nat) returns (rest: seq<byte>)
    requires k < |files|
    ensures Concat(CentralParts(files)) == Concat(CentralParts(files[..k])) + HeaderOf(files, k) + rest
  {
    hide CentralHeader, Crc32.Checksum, Encode, LocalSize;
    var n := |files| - 1;
    var earlier := CentralParts(files[..n]);
    assert CentralParts(files) == earlier + [HeaderOf(files, n)];
    ConcatSnoc(earlier, HeaderOf(files, n));
    if k == n {
      rest := [];
    } else {
      var inner := CentralSplit(files[..n], k);
      assert files[..n][..k] == files[..k];
      rest := inner + HeaderOf(files, n);
    }
  }

  /** Where the central record of file k stands. */
  function CursorOf(files: seq<ZipFile>, k: nat): nat
    requires k <= |files|
  {
    LocalSize(files) + CentralSize(files[..k])
  }

  /** The archive around the central record of file k. */
  lemma ArchiveAroundRecord(files: seq<ZipFile>, k: nat) returns (before: seq<byte>, after: seq<byte>)
    requires k < |files|
    ensures Archive(files) == before + HeaderOf(files, k) + after
    ensures |before| == CursorOf(files, k)
    ensures CursorOf(files, k + 1) == CursorOf(files, k) + |HeaderOf(files, k)|
  {
    hide CentralHeader, EndRecord, LocalParts, CentralParts, Concat, HeaderOf;
    var rest := CentralSplit(files, k);
    before := Concat(LocalParts(files)) + Concat(CentralParts(files[..k]));
    after := rest + EndRecord(|files|, CentralSize(files), LocalSize(files));
    CursorStep(files, k);
  }

  lemma CursorStep(files: seq<ZipFile>, k: nat)
    requires k < |files|
    ensures CursorOf(files, k + 1) == CursorOf(files, k) + |HeaderOf(files, k)|
  {
    hide CentralHeader, LocalSize, Concat;
    var soFar := files[..k + 1];
    assert soFar[..|soFar| - 1] == files[..k] && soFar[|soFar| - 1] == files[k];
    assert CentralParts(soFar) == CentralParts(files[..k]) + [HeaderOf(files, k)];
    ConcatSnoc(CentralParts(files[..k]), HeaderOf(files, k));
  }

  /** The archive around the local parts of file k. */
  lemma ArchiveAroundData(files: seq<ZipFile>, k: nat) returns (before: seq<byte>, after: seq<byte>)
    requires k < |files|
    ensures var f := files[k];
      Archive(files) == before + (LocalHeader(f.Name(), f.Crc(), |f.bytes|) + f.bytes) + after
    ensures |before| == LocalSize(files[..k])
  {
    hide LocalHeader, CentralParts, EndRecord, Crc32.Checksum, Encode;
    var rest := LocalSplit(files, k);
    before := Concat(LocalParts(files[..k]));
    after := rest + Concat(CentralParts(files)) + EndRecord(|files|, CentralSize(files), LocalSize(files));
  }

  /** The end record is the last thing in an archive, so the backward scan finds
      it at once, whatever the contents look like. */
  lemma EndOfArchive(files: seq<ZipFile>)
    ensures var end := |Archive(files)| - 22;
      && FindEnd(Archive(files), end) == Some(end)
      && FileCount(Archive(files), end) == |files| % 0x1_0000
      && U32At(Archive(files), end + 12) == CentralSize(files) % 0x1_0000_0000
      && CentralOffset(Archive(files), end) == LocalSize(files) % 0x1_0000_0000
  {
    hide U32At, U16At, EndRecord, CentralParts, LocalParts;
    var before := Concat(LocalParts(files)) + Concat(CentralParts(files));
    var record := EndRecord(|files|, CentralSize(files), LocalSize(files));
    assert Archive(files) == before + record + [];
    EndRecordFields(|files|, CentralSize(files), LocalSize(files));
    ReadInside(before, record, [], 0);
    ReadInside(before, record, [], 10);
    ReadInside(before, record, [], 12);
    ReadInside(before, record, [], 16);
  }

  /** Fields of the central record of file k, where the reader looks for them;
      under the limits every field is stored without loss. */
  lemma RecordFields(files: seq<ZipFile>, k: nat)
    requires k < |files| && |files[k].Name()| < 0x1_0000
    requires |files[k].bytes| < 0x1_0000_0000 && LocalSize(files[..k]) < 0x1_0000_0000
    ensures var a, c, f := Archive(files), CursorOf(files, k), files[k];
      && c + 46 + |f.Name()| <= |a|
      && U32At(a, c) == CENTRAL_SIGNATURE
      && U16At(a, c + 10) == 0
      && U32At(a, c + 16) == f.Crc()
      && U32At(a, c + 20) == |f.bytes|
      && U32At(a, c + 24) == |f.bytes|
      && U32At(a, c + 42) == LocalSize(files[..k])
      && RecordEnd(a, c) == CursorOf(files, k + 1) == c + 46 + |f.Name()|
      && RecordName(a, c) == Some(Clean(f.path))
  {
    hide U32At, U16At, CentralHeader, Archive, LocalSize, CentralSize, Crc32.Checksum, Encode, Decode, Clean;
    var f := files[k];
    var before, after := ArchiveAroundRecord(files, k);
    var h := HeaderOf(files, k);
    CentralHeaderFields(f.Name(), f.Crc(), |f.bytes|, LocalSize(files[..k]));
    ReadInside(before, h, after, 0);
    ReadInside(before, h, after, 10);
    ReadInside(before, h, after, 16);
    ReadInside(before, h, after, 20);
    ReadInside(before, h, after, 24);
    ReadInside(before, h, after, 28);
    ReadInside(before, h, after, 30);
    ReadInside(before, h, after, 32);
    ReadInside(before, h, after, 42);
    var a, c := Archive(files), CursorOf(files, k);
    assert a[c + 46..c + 46 + |f.Name()|] == h[46..] == f.Name();
    DecodeEncode(f.path);
  }

  lemma DataFields(files: seq<ZipFile>, k: nat)
    requires k < |files| && |files[k].Name()| < 0x1_0000
    ensures var a, l, f := Archive(files), LocalSize(files[..k]), files[k];
      var d := l + 30 + |f.Name()|;
      && d + |f.bytes| <= |a|
      && U32At(a, l) == LOCAL_SIGNATURE
      && U16At(a, l + 26) == |f.Name()|
      && U16At(a, l + 28) == 0
      && a[d..d + |f.bytes|] == f.bytes
  {
    hide U32At, U16At, LocalHeader, Archive, LocalSize, Crc32.Checksum, Encode;
    var f := files[k];
    var before, after := ArchiveAroundData(files, k);
    var header := LocalHeader(f.Name(), f.Crc(), |f.bytes|);
    LocalHeaderFields(f.Name(), f.Crc(), |f.bytes|);
    assert Archive(files) == before + header + (f.bytes + after);
    ReadInside(before, header, f.bytes + after, 0);
    ReadInside(before, header, f.bytes + after, 26);
    ReadInside(before, header, f.bytes + after, 28);
  }

  /** What the limits of the writer guarantee for every file of an archive. */
  ghost predicate WithinLimits(files: seq<ZipFile>) {
    && |files| <= MAX_ARCHIVE_FILES
    && |Archive(files)| <= MAX_ARCHIVE_BYTES
    && forall i :: 0 <= i < |files| ==> |files[i].Name()| < 0x1_0000
  }

  ghost predicate DirectoriesEmpty(files: seq<ZipFile>) {
    forall i :: 0 <= i < |files| && IsDirectory(files[i].path) ==> files[i].bytes == []
  }

  lemma SizesWithinLimits(files: seq<ZipFile>, k: nat)
    requires k < |files|
    ensures LocalSize(files[..k]) + |files[k].bytes| <= LocalSize(files) <= |Archive(files)|
    ensures CentralSize(files) <= |Archive(files)|
  {
    var soFar := files[..k + 1];
    assert soFar[..|soFar| - 1] == files[..k] && soFar[|soFar| - 1] == files[k];
    LocalSizeStep(soFar);
    LocalSizeMonotone(files, k + 1);
  }

  /** The entry a file turns into when its name is encoded and decoded again. */
  function CleanMember(f: ZipFile): Member {
    Member(Portable(Clean(f.path)), IsDirectory(Clean(f.path)), f.bytes)
  }

  function CleanMembers(files: seq<ZipFile>): (members: seq<Member>)
    ensures |members| == |files|
    ensures forall i :: 0 <= i < |files| ==> members[i] == CleanMember(files[i])
  {
    if files == [] then [] else CleanMembers(files[..|files| - 1]) + [CleanMember(files[|files| - 1])]
  }

  lemma CleanMembersPrefix(files: seq<ZipFile>, k: nat)
    requires k < |files|
    ensures CleanMembers(files[..k]) == CleanMembers(files)[..k]
    ensures CleanMembers(files[..k + 1]) == CleanMembers(files[..k]) + [CleanMember(files[k])]
  {
    hide CleanMember;
    var soFar := files[..k + 1];
    assert soFar[..|soFar| - 1] == files[..k] && soFar[|soFar| - 1] == files[k];
  }

  lemma {:induction false} ContentsFit(files: seq<ZipFile>, k: nat)
    requires k <= |files|
    ensures TotalContents(CleanMembers(files[..k])) <= LocalSize(files[..k])
  {
    hide LocalSize, Clean, Encode, Portable, IsDirectory, CleanMembers;
    if k > 0 {
      ContentsFit(files, k - 1);
      CleanMembersPrefix(files, k - 1);
      var soFar := files[..k];
      assert soFar[..|soFar| - 1] == files[..k - 1] && soFar[|soFar| - 1] == files[k - 1];
      LocalSizeStep(soFar);
    }
  }

  /** Reading the contents of file k gives them back. */
  lemma ContentsReadBack(inflate: Option<seq<byte> -> Stream>, files: seq<ZipFile>, k: nat)
    requires k < |files| && WithinLimits(files)
    ensures var c := CursorOf(files, k);
      && c + 46 <= |Archive(files)|
      && ReadContents(inflate, Archive(files), c, MAX_ARCHIVE_BYTES - TotalContents(CleanMembers(files[..k]))) == Success(files[k].bytes)
  {
    hide U32At, U16At, Archive, LocalSize, CentralSize, Crc32.Checksum, Encode, Clean, TotalContents, CleanMembers;
    SizesWithinLimits(files, k);
    RecordFields(files, k);
    DataFields(files, k);
    ContentsFit(files, k);
  }

  /** The member for file k is accepted among those before it. */
  ghost predicate Readable(unicode: Unicode, members: seq<Member>) {
    && (forall i :: 0 <= i < |members| ==> PortablePath(unicode, members[i].path))
    && CollisionFree(MemberEntries(unicode, members))
  }

  lemma ReadableSnoc(unicode: Unicode, members: seq<Member>, member: Member)
    requires Readable(unicode, members)
    ensures Readable(unicode, members + [member]) <==>
      AcceptsPath(unicode, members, Member(member.path, member.directory, []))
  {
    hide PortablePath, Compatible, RegisterAll;
    var probe := Member(member.path, member.directory, []);
    MemberEntriesSnoc(unicode, members, member);
    MemberEntriesSnoc(unicode, members, probe);
    AcceptedIffCollisionFree(MemberEntries(unicode, members + [member]));
    var all := members + [member];
    assert all[|members|] == member;
    assert forall i :: 0 <= i < |members| ==> all[i] == members[i];
  }

  lemma ReadablePrefix(unicode: Unicode, members: seq<Member>, k: nat)
    requires k <= |members| && Readable(unicode, members)
    ensures Readable(unicode, members[..k])
  {
    hide PortablePath, Compatible;
    assert MemberEntries(unicode, members[..k]) == MemberEntries(unicode, members)[..k];
    CollisionFreePrefix(MemberEntries(unicode, members), k);
  }

  /** One round over a written archive: the next file comes back, or its cleaned
      path is refused. */
  lemma RecordReadBack(runtime: Runtime, files: seq<ZipFile>, k: nat)
    requires k < |files| && WithinLimits(files)
    requires Readable(runtime.unicode, CleanMembers(files[..k]))
    requires DirectoriesEmpty(files)
    ensures ReadRecord(runtime, Archive(files), Progress(CursorOf(files, k), CleanMembers(files[..k]))) ==
      if Readable(runtime.unicode, CleanMembers(files[..k + 1]))
      then Success(Progress(CursorOf(files, k + 1), CleanMembers(files[..k + 1])))
      else Failure(PathRejected)
  {
    hide U32At, U16At, Archive, CursorOf, Encode, Clean, AcceptsPath, Readable, ReadContents, RecordEnd, RecordName, CleanMembers, LocalSize, CentralSize, TotalContents;
    CleanMembersPrefix(files, k);
    SizesWithinLimits(files, k);
    RecordFields(files, k);
    ContentsReadBack(runtime.inflate, files, k);
    ReadableSnoc(runtime.unicode, CleanMembers(files[..k]), CleanMember(files[k]));
    CleanKeepsSlash(files[k].path);
  }

  lemma {:induction false} RecordsReadBack(runtime: Runtime, files: seq<ZipFile>, k: nat)
    requires k <= |files| && WithinLimits(files)
    requires DirectoriesEmpty(files)
    ensures ReadRecords(runtime, Archive(files), LocalSize(files), k) ==
      if Readable(runtime.unicode, CleanMembers(files[..k]))
      then Success(Progress(CursorOf(files, k), CleanMembers(files[..k])))
      else Failure(PathRejected)
  {
    hide ReadRecord, Archive, Readable, WithinLimits, DirectoriesEmpty, CleanMember, CursorOf, LocalSize;
    if k == 0 {
      assert files[..0] == [];
      CursorStart(files);
      assert Readable(runtime.unicode, []) by { NothingIsReadable(runtime.unicode); }
    } else {
      RecordsReadBack(runtime, files, k - 1);
      CleanMembersPrefix(files, k - 1);
      assert CleanMembers(files[..k])[..k - 1] == CleanMembers(files[..k - 1]);
      if Readable(runtime.unicode, CleanMembers(files[..k - 1])) {
        RecordReadBack(runtime, files, k - 1);
      } else if Readable(runtime.unicode, CleanMembers(files[..k])) {
        ReadablePrefix(runtime.unicode, CleanMembers(files[..k]), k - 1);
      }
    }
  }

  lemma CursorStart(files: seq<ZipFile>)
    ensures CursorOf(files, 0) == LocalSize(files)
  {
  }

  lemma NothingIsReadable(unicode: Unicode)
    ensures Readable(unicode, [])
  {
  }

  /** Reading what was written, whatever the names: the cleaned entries come back
      when they are portable and collision-free, and are refused otherwise. */
  lemma ArchiveReadBack(runtime: Runtime, files: seq<ZipFile>)
    requires WithinLimits(files)
    requires DirectoriesEmpty(files)
    ensures ReadMembers(runtime, Archive(files)) ==
      if Readable(runtime.unicode, CleanMembers(files)) then Success(CleanMembers(files)) else Failure(PathRejected)
  {
    hide ReadRecords, Readable, FindEnd, U32At, U16At, LocalParts, CentralParts, EndRecord, CleanMembers, FileCount, CentralOffset, DirectoriesEmpty;
    EndOfArchive(files);
    RecordsReadBack(runtime, files, |files|);
    assert files[..|files|] == files;
    assert LocalSize(files) + CentralSize(files) + 22 == |Archive(files)|;
  }

  /** An input as the entry its path names. */
  function RawMember(f: ZipFile): Member {
    Member(Portable(f.path), IsDirectory(f.path), f.bytes)
  }

  function RawMembers(files: seq<ZipFile>): (members: seq<Member>)
    ensures |members| == |files|
    ensures forall i :: 0 <= i < |files| ==> members[i] == RawMember(files[i])
  {
    if files == [] then [] else RawMembers(files[..|files| - 1]) + [RawMember(files[|files| - 1])]
  }

  /** The files that were put in: every path that is not a directory, with its contents. */
  function FilesPutIn(inputs: seq<ZipFile>): map<Str, seq<byte>> {
    FilesOf(RawMembers(inputs))
  }

  ghost predicate DistinctPaths(members: seq<Member>) {
    forall i, j :: 0 <= i < j < |members| ==> members[i].path != members[j].path
  }

  /** A map that holds exactly the files among the members. */
  ghost predicate Holds(files: map<Str, seq<byte>>, members: seq<Member>) {
    && (forall m :: m in members && !m.directory ==> m.path in files && files[m.path] == m.contents)
    && (forall path :: path in files ==> exists m :: m in members && !m.directory && m.path == path)
  }

  lemma {:induction false} FilesOfHolds(members: seq<Member>)
    requires DistinctPaths(members)
    ensures Holds(FilesOf(members), members)
  {
    if members != [] {
      var n := |members| - 1;
      var earlier := members[..n];
      FilesOfHolds(earlier);
      var last := members[n];
      assert members == earlier + [last];
      forall m | m in members && !m.directory
        ensures m.path in FilesOf(members) && FilesOf(members)[m.path] == m.contents
      {
        if m in earlier {
          var i :| 0 <= i < n && earlier[i] == m;
          assert members[i].path != members[n].path;
        }
      }
      forall path | path in FilesOf(members)
        ensures exists m :: m in members && !m.directory && m.path == path
      {
        if path in FilesOf(earlier) && !(!last.directory && path == last.path) {
          var m :| m in earlier && !m.directory && m.path == path;
          assert m in members;
        } else {
          assert last in members;
        }
      }
    }
  }

  lemma HeldFile(files: map<Str, seq<byte>>, members: seq<Member>, i: nat)
    requires Holds(files, members) && i < |members| && !members[i].directory
    ensures members[i].path in files
  {
    assert members[i] in members;
  }

  lemma FindMember(files: map<Str, seq<byte>>, members: seq<Member>, path: Str) returns (i: nat)
    requires Holds(files, members) && path in files
    ensures i < |members| && !members[i].directory && members[i].path == path
  {
    var m :| m in members && !m.directory && m.path == path;
    i :| i < |members| && members[i] == m;
  }

  lemma HoldsDetermines(a: map<Str, seq<byte>>, b: map<Str, seq<byte>>, x: seq<Member>, y: seq<Member>)
    requires Holds(a, x) && Holds(b, y)
    requires forall m: Member :: !m.directory ==> (m in x <==> m in y)
    ensures a == b
  {
    assert a.Keys == b.Keys;
  }

  lemma ReadableDistinct(unicode: Unicode, members: seq<Member>)
    requires CollisionFree(MemberEntries(unicode, members))
    ensures DistinctPaths(members)
  {
    forall i, j | 0 <= i < j < |members|
      ensures members[i].path != members[j].path
    {
      assert Compatible(MemberEntries(unicode, members)[i], MemberEntries(unicode, members)[j]);
    }
  }

  /** Everything the writer accepted, said of the sorted files. */
  lemma AcceptedWithinLimits(unicode: Unicode, inputs: seq<ZipFile>)
    requires CreateResult(unicode, inputs).Success?
    ensures var files := SortedFiles(unicode, inputs);
      && CreateResult(unicode, inputs).value == Archive(files)
      && WithinLimits(files) && DirectoriesEmpty(files)
      && multiset(files) == multiset(inputs)
      && (forall f :: f in files <==> f in inputs)
      && Readable(unicode, RawMembers(inputs))
  {
    hide Archive, PortablePath, Encode, Compatible, CollisionFree, RawMembers;
    var files := SortedFiles(unicode, inputs);
    var before := (a: ZipFile, b: ZipFile) => unicode.collatesBefore(a.path, b.path);
    Sorting.SortPermutes(inputs, before);
    Sorting.SortElements(inputs, before);
    AcceptedFiles(unicode, inputs);
    forall i | 0 <= i < |files|
      ensures |files[i].Name()| < 0x1_0000
      ensures IsDirectory(files[i].path) ==> files[i].bytes == []
    {
      assert files[i] in inputs;
      var j :| 0 <= j < |inputs| && inputs[j] == files[i];
      assert Acceptable(unicode, inputs[j]);
      ShortName(unicode, inputs[j].path);
    }
    RawReadable(unicode, inputs);
  }

  lemma RawReadable(unicode: Unicode, inputs: seq<ZipFile>)
    requires forall i :: 0 <= i < |inputs| ==> Acceptable(unicode, inputs[i])
    requires CollisionFree(Entries(unicode, inputs))
    ensures Readable(unicode, RawMembers(inputs))
  {
    hide PortablePath, Compatible;
    assert MemberEntries(unicode, RawMembers(inputs)) == Entries(unicode, inputs);
    forall i | 0 <= i < |inputs|
      ensures PortablePath(unicode, RawMembers(inputs)[i].path)
    {
      assert Acceptable(unicode, inputs[i]);
    }
  }

  /** A portable path, slash included, fits the 16-bit name length. */
  lemma ShortName(unicode: Unicode, path: Str)
    requires PortablePath(unicode, Portable(path))
    ensures |Encode(path)| <= MAX_PATH_BYTES + 1 < 0x1_0000
  {
    if IsDirectory(path) {
      assert path == Portable(path) + [SLASH];
      TrailingSlash(Portable(path));
    }
  }

  function CleanEntryOf(unicode: Unicode): ZipFile -> Entry {
    f => CleanMember(f).PathEntry(unicode)
  }

  lemma CleanEntriesMapped(unicode: Unicode, files: seq<ZipFile>)
    ensures MemberEntries(unicode, CleanMembers(files)) == Sorting.Mapped(CleanEntryOf(unicode), files)
  {
    hide CleanMember, Member.PathEntry;
  }

  lemma CleanMembersWithin(files: seq<ZipFile>, inputs: seq<ZipFile>)
    requires forall f :: f in files ==> f in inputs
    ensures forall m: Member :: m in CleanMembers(files) ==> m in CleanMembers(inputs)
  {
    hide CleanMember;
    forall i | 0 <= i < |files|
      ensures CleanMembers(files)[i] in CleanMembers(inputs)
    {
      assert files[i] in inputs;
      var j :| 0 <= j < |inputs| && inputs[j] == files[i];
      assert CleanMembers(inputs)[j] == CleanMembers(files)[i];
    }
  }

  lemma CleanedPermuted(unicode: Unicode, files: seq<ZipFile>, inputs: seq<ZipFile>)
    requires multiset(files) == multiset(inputs)
    requires forall f :: f in files <==> f in inputs
    ensures Readable(unicode, CleanMembers(files)) ==> Readable(unicode, CleanMembers(inputs))
    ensures forall m: Member :: m in CleanMembers(files) ==> m in CleanMembers(inputs)
  {
    hide PortablePath, CleanMembers, CollisionFree, MemberEntries, CleanEntryOf, CleanMember;
    assert forall i :: 0 <= i < |CleanMembers(inputs)| ==> CleanMembers(inputs)[i] in CleanMembers(inputs);
    CleanMembersWithin(files, inputs);
    CleanMembersWithin(inputs, files);
    var a, b := MemberEntries(unicode, CleanMembers(files)), MemberEntries(unicode, CleanMembers(inputs));
    CleanEntriesMapped(unicode, files);
    CleanEntriesMapped(unicode, inputs);
    Sorting.MappedPermutes(CleanEntryOf(unicode), files, inputs);
    if CollisionFree(a) {
      CollisionFreePermuted(a, b);
    }
  }

  /** Reading what was written depends neither on the order of the inputs nor on
      the collation order the writer sorts by. */
  lemma ReadAfterCreate(runtime: Runtime, inputs: seq<ZipFile>)
    requires CreateResult(runtime.unicode, inputs).Success?
    ensures ReadResult(runtime, CreateResult(runtime.unicode, inputs).value) ==
      if Readable(runtime.unicode, CleanMembers(inputs)) then Success(FilesOf(CleanMembers(inputs))) else Failure(PathRejected)
  {
    hide CreateResult, SortedFiles, Archive, FilesOf, CleanMembers, CollisionFree, WithinLimits, PortablePath;
    var files := SortedFiles(runtime.unicode, inputs);
    AcceptedWithinLimits(runtime.unicode, inputs);
    ArchiveReadBack(runtime, files);
    CleanedPermuted(runtime.unicode, files, inputs);
    CleanedPermuted(runtime.unicode, inputs, files);
    if Readable(runtime.unicode, CleanMembers(inputs)) {
      ReadableDistinct(runtime.unicode, CleanMembers(inputs));
      ReadableDistinct(runtime.unicode, CleanMembers(files));
      FilesOfHolds(CleanMembers(inputs));
      FilesOfHolds(CleanMembers(files));
      HoldsDetermines(FilesOf(CleanMembers(inputs)), FilesOf(CleanMembers(files)), CleanMembers(inputs), CleanMembers(files));
    }
  }

  ghost predicate FilePathsLossless(inputs: seq<ZipFile>) {
    forall i :: 0 <= i < |inputs| && !IsDirectory(inputs[i].path) ==> Lossless(inputs[i].path)
  }

  lemma {:induction false} SameFiles(inputs: seq<ZipFile>)
    requires FilePathsLossless(inputs)
    ensures FilesOf(CleanMembers(inputs)) == FilesPutIn(inputs)
  {
    if inputs != [] {
      var n := |inputs| - 1;
      assert FilePathsLossless(inputs[..n]);
      SameFiles(inputs[..n]);
      var last := inputs[n];
      CleanIsIdentity(last.path);
      CleanKeepsSlash(last.path);
    }
  }

  function LongestPath(inputs: seq<ZipFile>): (n: nat)
    ensures forall i :: 0 <= i < |inputs| ==> |inputs[i].path| <= n
  {
    if inputs == [] then 0
    else
      var earlier := LongestPath(inputs[..|inputs| - 1]);
      var last := |inputs[|inputs| - 1].path|;
      if last > earlier then last else earlier
  }

  /** Some file's path becomes p when it is cleaned. */
  ghost predicate CleanedFrom(inputs: seq<ZipFile>, p: Str) {
    exists j :: 0 <= j < |inputs| && !IsDirectory(inputs[j].path) && Clean(inputs[j].path) == p
  }

  ghost predicate AllCleaned(inputs: seq<ZipFile>) {
    forall i :: 0 <= i < |inputs| && !IsDirectory(inputs[i].path) ==> CleanedFrom(inputs, inputs[i].path)
  }

  /** A cleaned path that cleaning would change comes from a longer path. */
  lemma ComesFromLonger(q: Str, p: Str)
    requires Clean(q) == p && WellFormed(q) && !Lossless(p)
    ensures |q| == |p| + 1
  {
    hide Clean, WellFormed;
    CleanIsIdentity(q);
    assert q != p by { CleanIsIdentity(p); }
    CleanStripsMark(q);
  }

  /** Cleaning cannot permute the file paths: a path that cleaning changes would
      have to come from a longer one, and that one from a longer one still. */
  lemma {:induction false} NoEndlessCleaning(inputs: seq<ZipFile>, k: nat)
    requires k < |inputs| && !IsDirectory(inputs[k].path) && AllCleaned(inputs)
    ensures Lossless(inputs[k].path)
    decreases LongestPath(inputs) - |inputs[k].path|
  {
    hide Clean, LongestPath, WellFormed, Lossless;
    var p := inputs[k].path;
    if !Lossless(p) {
      assert CleanedFrom(inputs, p);
      var j :| 0 <= j < |inputs| && !IsDirectory(inputs[j].path) && Clean(inputs[j].path) == p;
      var q := inputs[j].path;
      assert WellFormed(q) by {
        assert CleanedFrom(inputs, q);
        var i :| 0 <= i < |inputs| && !IsDirectory(inputs[i].path) && Clean(inputs[i].path) == q;
        CleanWellFormed(inputs[i].path);
      }
      ComesFromLonger(q, p);
      NoEndlessCleaning(inputs, j);
      CleanIsIdentity(q);
    }
  }

  lemma MemberOfFile(f: ZipFile)
    ensures !CleanMember(f).directory ==> !IsDirectory(f.path) && CleanMember(f).path == Clean(f.path)
    ensures !IsDirectory(f.path) ==> !RawMember(f).directory && RawMember(f).path == f.path
  {
    CleanKeepsSlash(f.path);
  }

  lemma DeliveredFrom(inputs: seq<ZipFile>, delivered: map<Str, seq<byte>>, i: nat)
    requires Holds(delivered, CleanMembers(inputs)) && Holds(delivered, RawMembers(inputs))
    requires i < |inputs| && !IsDirectory(inputs[i].path)
    ensures CleanedFrom(inputs, inputs[i].path)
  {
    hide Clean, IsDirectory, Portable, CleanMember, RawMember, CleanMembers, RawMembers;
    hide Holds;
    MemberOfFile(inputs[i]);
    HeldFile(delivered, RawMembers(inputs), i);
    var j := FindMember(delivered, CleanMembers(inputs), inputs[i].path);
    MemberOfFile(inputs[j]);
  }

  /** If the files that come back are those put in, every file path is a cleaned one. */
  lemma DeliveredPathsAreCleaned(inputs: seq<ZipFile>)
    requires DistinctPaths(CleanMembers(inputs)) && DistinctPaths(RawMembers(inputs))
    requires FilesOf(CleanMembers(inputs)) == FilesPutIn(inputs)
    ensures FilePathsLossless(inputs)
  {
    hide Clean, FilesOf, Lossless, CleanMembers, RawMembers, Holds;
    FilesOfHolds(CleanMembers(inputs));
    FilesOfHolds(RawMembers(inputs));
    forall i | 0 <= i < |inputs| && !IsDirectory(inputs[i].path)
      ensures CleanedFrom(inputs, inputs[i].path)
    {
      DeliveredFrom(inputs, FilesPutIn(inputs), i);
    }
    forall k | 0 <= k < |inputs| && !IsDirectory(inputs[k].path)
      ensures Lossless(inputs[k].path)
    {
      NoEndlessCleaning(inputs, k);
    }
  }

  /** Exactly when an archive gives back the files put in: every file path is
      well-formed UTF-16 without a leading byte-order mark, and the names that
      encoding yields are still portable and collision-free. */
  lemma RoundTripExactly(runtime: Runtime, inputs: seq<ZipFile>)
    requires CreateResult(runtime.unicode, inputs).Success?
    ensures ReadResult(runtime, CreateResult(runtime.unicode, inputs).value) == Success(FilesPutIn(inputs)) <==>
      FilePathsLossless(inputs) && Readable(runtime.unicode, CleanMembers(inputs))
  {
    hide CreateResult, ReadResult, FilesOf, PortablePath, CollisionFree, FilePathsLossless, CleanMembers, RawMembers, DistinctPaths;
    ReadAfterCreate(runtime, inputs);
    AcceptedWithinLimits(runtime.unicode, inputs);
    ReadableDistinct(runtime.unicode, RawMembers(inputs));
    if Readable(runtime.unicode, CleanMembers(inputs)) {
      ReadableDistinct(runtime.unicode, CleanMembers(inputs));
      if FilePathsLossless(inputs) {
        SameFiles(inputs);
      } else if FilesOf(CleanMembers(inputs)) == FilesPutIn(inputs) {
        DeliveredPathsAreCleaned(inputs);
      }
    }
  }

  /** The round trip: for paths a byte string can carry, whatever the contents,
      the order of the inputs and the collation, the files come back. */
  lemma RoundTrip(runtime: Runtime, inputs: seq<ZipFile>)
    requires CreateResult(runtime.unicode, inputs).Success?
    requires forall i :: 0 <= i < |inputs| ==> Lossless(inputs[i].path)
    ensures ReadResult(runtime, CreateResult(runtime.unicode, inputs).value) == Success(FilesPutIn(inputs))
  {
    hide CreateResult, ReadResult, FilesOf, PortablePath, CollisionFree, Lossless;
    RoundTripExactly(runtime, inputs);
    AcceptedWithinLimits(runtime.unicode, inputs);
    forall i | 0 <= i < |inputs|
      ensures CleanMembers(inputs)[i] == RawMembers(inputs)[i]
    {
      CleanIsIdentity(inputs[i].path);
    }
    assert CleanMembers(inputs) == RawMembers(inputs);
  }
}
