/** The ZIP records of sections 4.3.7, 4.3.12 and 4.3.16 of PKWARE APPNOTE 6.3.10
    as the archive writer lays them out, and the fields the reader takes back. */
module ZipFormat {
  import opened Bytes
  import opened Text
  import Crc32

  const MAX_ARCHIVE_BYTES := 256 * 1024 * 1024
  const MAX_ARCHIVE_FILES := 4096 + 4096 + 1

  const LOCAL_SIGNATURE := 0x04034b50
  const CENTRAL_SIGNATURE := 0x02014b50
  const END_SIGNATURE := 0x06054b50

  datatype ZipError =
    | PathRejected
    | DirectoryNotEmpty
    | TooManyFiles
    | ArchiveTooLarge
    | NotAnArchive
    | CentralDirectoryInvalid
    | CentralDirectoryTruncated
    | NameUndecodable
    | LocalHeaderInvalid
    | EntryTruncated
    | ExpandedTooLarge
    | ExpandsBeyondDeclaredSize
    | UnsupportedMethod
    | DecompressionUnavailable
    | DecompressionFailed
    | IntegrityFailure

  /** One entry of an archive under construction; a directory's path ends in a slash. */
  datatype ZipFile = ZipFile(path: Str, bytes: seq<byte>) {
    function Name(): seq<byte> { Encode(path) }
    function Crc(): nat { Crc32.Checksum(bytes) }
  }

  predicate IsDirectory(path: Str) {
    EndsInSlash(path)
  }

  /** A path without the slash that marks a directory. */
  function Portable(path: Str): Str {
    if IsDirectory(path) then path[..|path| - 1] else path
  }

  function LocalHeader(name: seq<byte>, crc: nat, size: nat): (h: seq<byte>)
    ensures |h| == 30 + |name|
  {
    var h := Put(Zeros(30 + |name|), 0, U32(LOCAL_SIGNATURE));
    var h := Put(Put(Put(h, 4, U16(20)), 6, U16(0x0800)), 8, U16(0));
    var h := Put(Put(Put(h, 14, U32(crc)), 18, U32(size)), 22, U32(size));
    Put(Put(h, 26, U16(|name|)), 30, name)
  }

  function CentralHeader(name: seq<byte>, crc: nat, size: nat, offset: nat): (h: seq<byte>)
    ensures |h| == 46 + |name|
  {
    var h := Put(Put(Zeros(46 + |name|), 0, U32(CENTRAL_SIGNATURE)), 4, U16(20));
    var h := Put(Put(Put(h, 6, U16(20)), 8, U16(0x0800)), 10, U16(0));
    var h := Put(Put(Put(h, 16, U32(crc)), 20, U32(size)), 24, U32(size));
    Put(Put(Put(h, 28, U16(|name|)), 42, U32(offset)), 46, name)
  }

  function EndRecord(count: nat, centralSize: nat, centralOffset: nat): (h: seq<byte>)
    ensures |h| == 22
  {
    var h := Put(Zeros(22), 0, U32(END_SIGNATURE));
    var h := Put(Put(h, 8, U16(count)), 10, U16(count));
    Put(Put(h, 12, U32(centralSize)), 16, U32(centralOffset))
  }

  /** Local headers and contents, in order. */
  function LocalParts(files: seq<ZipFile>): seq<seq<byte>> {
    if files == [] then []
    else
      var last := files[|files| - 1];
      LocalParts(files[..|files| - 1]) + [LocalHeader(last.Name(), last.Crc(), |last.bytes|), last.bytes]
  }

  /** Where the local header of the next file goes. */
  function LocalSize(files: seq<ZipFile>): nat {
    |Concat(LocalParts(files))|
  }

  function CentralParts(files: seq<ZipFile>): seq<seq<byte>> {
    if files == [] then []
    else
      var last := files[|files| - 1];
      CentralParts(files[..|files| - 1])
      + [CentralHeader(last.Name(), last.Crc(), |last.bytes|, LocalSize(files[..|files| - 1]))]
  }

  function CentralSize(files: seq<ZipFile>): nat {
    |Concat(CentralParts(files))|
  }

  /** The whole archive: local section, central directory, end record. */
  function Archive(files: seq<ZipFile>): seq<byte> {
    Concat(LocalParts(files)) + Concat(CentralParts(files))
    + EndRecord(|files|, CentralSize(files), LocalSize(files))
  }

  /** The four bytes at a position come from the last field put there. */
  lemma FieldOf32(h: seq<byte>, at: nat, n: nat)
    requires at + 4 <= |h|
    requires forall i :: 0 <= i < 4 ==> h[at + i] == U32(n)[i]
    ensures U32At(h, at) == n % 0x1_0000_0000
  {
    U32RoundTrip(n);
  }

  lemma FieldOf16(h: seq<byte>, at: nat, n: nat)
    requires at + 2 <= |h|
    requires h[at] == U16(n)[0] && h[at + 1] == U16(n)[1]
    ensures U16At(h, at) == n % 0x1_0000
  {
    U16RoundTrip(n);
  }

  /** Every field of a local header, by its offset in section 4.3.7. */
  lemma LocalHeaderFields(name: seq<byte>, crc: nat, size: nat)
    ensures var h := LocalHeader(name, crc, size);
      && U32At(h, 0) == LOCAL_SIGNATURE
      && U16At(h, 4) == 20 && U16At(h, 6) == 0x0800 && U16At(h, 8) == 0
      && U16At(h, 10) == 0 && U16At(h, 12) == 0
      && U32At(h, 14) == crc % 0x1_0000_0000
      && U32At(h, 18) == size % 0x1_0000_0000
      && U32At(h, 22) == size % 0x1_0000_0000
      && U16At(h, 26) == |name| % 0x1_0000
      && U16At(h, 28) == 0
      && h[30..] == name
  {
    LocalHeaderFront(name, crc, size);
    LocalHeaderBack(name, crc, size);
  }

  lemma LocalHeaderFront(name: seq<byte>, crc: nat, size: nat)
    ensures var h := LocalHeader(name, crc, size);
      && U32At(h, 0) == LOCAL_SIGNATURE
      && U16At(h, 4) == 20 && U16At(h, 6) == 0x0800 && U16At(h, 8) == 0
      && U16At(h, 10) == 0 && U16At(h, 12) == 0
  {
    hide Put, Zeros, U16, U32, U16At, U32At;
    var h := LocalHeader(name, crc, size);
    FieldOf32(h, 0, LOCAL_SIGNATURE);
    FieldOf16(h, 4, 20);
    FieldOf16(h, 6, 0x0800);
    FieldOf16(h, 8, 0);
    ZeroField(h, 10);
    ZeroField(h, 12);
  }

  lemma LocalHeaderBack(name: seq<byte>, crc: nat, size: nat)
    ensures var h := LocalHeader(name, crc, size);
      && U32At(h, 14) == crc % 0x1_0000_0000
      && U32At(h, 18) == size % 0x1_0000_0000
      && U32At(h, 22) == size % 0x1_0000_0000
      && U16At(h, 26) == |name| % 0x1_0000
      && U16At(h, 28) == 0
      && h[30..] == name
  {
    hide Put, Zeros, U16, U32, U16At, U32At;
    var h := LocalHeader(name, crc, size);
    FieldOf32(h, 14, crc);
    FieldOf32(h, 18, size);
    FieldOf32(h, 22, size);
    FieldOf16(h, 26, |name|);
    ZeroField(h, 28);
  }

  lemma ZeroField(h: seq<byte>, at: nat)
    requires at + 2 <= |h| && h[at] == 0 && h[at + 1] == 0
    ensures U16At(h, at) == 0
    ensures at + 4 <= |h| && h[at + 2] == 0 && h[at + 3] == 0 ==> U32At(h, at) == 0
  {
  }

  /** Every field of a central directory header, by its offset in section 4.3.12. */
  lemma CentralHeaderFields(name: seq<byte>, crc: nat, size: nat, offset: nat)
    ensures var h := CentralHeader(name, crc, size, offset);
      && U32At(h, 0) == CENTRAL_SIGNATURE
      && U16At(h, 4) == 20 && U16At(h, 6) == 20 && U16At(h, 8) == 0x0800 && U16At(h, 10) == 0
      && U16At(h, 12) == 0 && U16At(h, 14) == 0
      && U32At(h, 16) == crc % 0x1_0000_0000
      && U32At(h, 20) == size % 0x1_0000_0000
      && U32At(h, 24) == size % 0x1_0000_0000
      && U16At(h, 28) == |name| % 0x1_0000
      && U16At(h, 30) == 0 && U16At(h, 32) == 0
      && U16At(h, 34) == 0 && U16At(h, 36) == 0 && U32At(h, 38) == 0
      && U32At(h, 42) == offset % 0x1_0000_0000
      && h[46..] == name
  {
    CentralHeaderFront(name, crc, size, offset);
    CentralHeaderSizes(name, crc, size, offset);
    CentralHeaderBack(name, crc, size, offset);
  }

  lemma CentralHeaderFront(name: seq<byte>, crc: nat, size: nat, offset: nat)
    ensures var h := CentralHeader(name, crc, size, offset);
      && U32At(h, 0) == CENTRAL_SIGNATURE
      && U16At(h, 4) == 20 && U16At(h, 6) == 20 && U16At(h, 8) == 0x0800 && U16At(h, 10) == 0
      && U16At(h, 12) == 0 && U16At(h, 14) == 0
  {
    hide Put, Zeros, U16, U32, U16At, U32At;
    var h := CentralHeader(name, crc, size, offset);
    FieldOf32(h, 0, CENTRAL_SIGNATURE);
    FieldOf16(h, 4, 20);
    FieldOf16(h, 6, 20);
    FieldOf16(h, 8, 0x0800);
    FieldOf16(h, 10, 0);
    ZeroField(h, 12);
    ZeroField(h, 14);
  }

  lemma CentralHeaderSizes(name: seq<byte>, crc: nat, size: nat, offset: nat)
    ensures var h := CentralHeader(name, crc, size, offset);
      && U32At(h, 16) == crc % 0x1_0000_0000
      && U32At(h, 20) == size % 0x1_0000_0000
      && U32At(h, 24) == size % 0x1_0000_0000
      && U16At(h, 28) == |name| % 0x1_0000
  {
    hide Put, Zeros, U16, U32, U16At, U32At;
    var h := CentralHeader(name, crc, size, offset);
    FieldOf32(h, 16, crc);
    FieldOf32(h, 20, size);
    FieldOf32(h, 24, size);
    FieldOf16(h, 28, |name|);
  }

  lemma CentralHeaderBack(name: seq<byte>, crc: nat, size: nat, offset: nat)
    ensures var h := CentralHeader(name, crc, size, offset);
      && U16At(h, 30) == 0 && U16At(h, 32) == 0
      && U16At(h, 34) == 0 && U16At(h, 36) == 0 && U32At(h, 38) == 0
      && U32At(h, 42) == offset % 0x1_0000_0000
      && h[46..] == name
  {
    hide Put, Zeros, U16, U32, U16At, U32At;
    var h := CentralHeader(name, crc, size, offset);
    ZeroField(h, 30);
    ZeroField(h, 32);
    ZeroField(h, 34);
    ZeroField(h, 36);
    ZeroField(h, 38);
    FieldOf32(h, 42, offset);
  }

  /** Every field of an end record, by its offset in section 4.3.16. */
  lemma EndRecordFields(count: nat, centralSize: nat, centralOffset: nat)
    ensures var h := EndRecord(count, centralSize, centralOffset);
      && U32At(h, 0) == END_SIGNATURE
      && U16At(h, 4) == 0 && U16At(h, 6) == 0
      && U16At(h, 8) == count % 0x1_0000
      && U16At(h, 10) == count % 0x1_0000
      && U32At(h, 12) == centralSize % 0x1_0000_0000
      && U32At(h, 16) == centralOffset % 0x1_0000_0000
      && U16At(h, 20) == 0
  {
    hide Put, Zeros, U16, U32, U16At, U32At;
    var h := EndRecord(count, centralSize, centralOffset);
    FieldOf32(h, 0, END_SIGNATURE);
    ZeroField(h, 4);
    ZeroField(h, 6);
    FieldOf16(h, 8, count);
    FieldOf16(h, 10, count);
    FieldOf32(h, 12, centralSize);
    FieldOf32(h, 16, centralOffset);
    ZeroField(h, 20);
  }
}
