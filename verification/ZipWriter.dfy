/** `createZip`: accept a set of files and lay them out as one archive. */
module ZipWriter {
  import opened Wrappers
  import opened Bytes
  import opened Text
  import opened ArchivePaths
  import opened ZipFormat
  import Crc32
  import Sorting

  function EntryOf(unicode: Unicode, path: Str): Entry {
    Entry(unicode.collisionKey(Portable(path)), IsDirectory(path))
  }

  function Entries(unicode: Unicode, files: seq<ZipFile>): (entries: seq<Entry>)
    ensures |entries| == |files|
    ensures forall i :: 0 <= i < |files| ==> entries[i] == EntryOf(unicode, files[i].path)
  {
    if files == [] then []
    else Entries(unicode, files[..|files| - 1]) + [EntryOf(unicode, files[|files| - 1].path)]
  }

  /** Why the last of the inputs is refused, given that the earlier ones were not. */
  ghost function LastRefusal(unicode: Unicode, inputs: seq<ZipFile>): Option<ZipError>
    requires inputs != []
  {
    var last := inputs[|inputs| - 1];
    if !PortablePath(unicode, Portable(last.path)) || RegisterAll(Entries(unicode, inputs)).None? then
      Some(PathRejected)
    else if IsDirectory(last.path) && last.bytes != [] then Some(DirectoryNotEmpty)
    else None
  }

  /** The first input that is refused decides the error. */
  ghost function Refusal(unicode: Unicode, inputs: seq<ZipFile>): Option<ZipError> {
    if inputs == [] then None
    else
      match Refusal(unicode, inputs[..|inputs| - 1])
      case Some(error) => Some(error)
      case None => LastRefusal(unicode, inputs)
  }

  function SortedFiles(unicode: Unicode, inputs: seq<ZipFile>): seq<ZipFile> {
    Sorting.Sort(inputs, (a: ZipFile, b: ZipFile) => unicode.collatesBefore(a.path, b.path))
  }

  function Sized(archive: seq<byte>): Result<seq<byte>, ZipError> {
    if |archive| > MAX_ARCHIVE_BYTES then Failure(ArchiveTooLarge) else Success(archive)
  }

  ghost function CreateResult(unicode: Unicode, inputs: seq<ZipFile>): Result<seq<byte>, ZipError> {
    match Refusal(unicode, inputs)
    case Some(error) => Failure(error)
    case None =>
      if |inputs| > MAX_ARCHIVE_FILES then Failure(TooManyFiles)
      else Sized(Archive(SortedFiles(unicode, inputs)))
  }

  ghost predicate Acceptable(unicode: Unicode, file: ZipFile) {
    PortablePath(unicode, Portable(file.path)) && (IsDirectory(file.path) ==> file.bytes == [])
  }

  ghost predicate AllAcceptable(unicode: Unicode, files: seq<ZipFile>) {
    forall i :: 0 <= i < |files| ==> Acceptable(unicode, files[i])
  }

  lemma LastAccepted(unicode: Unicode, inputs: seq<ZipFile>)
    requires inputs != []
    ensures LastRefusal(unicode, inputs).None? <==>
      Acceptable(unicode, inputs[|inputs| - 1]) && CollisionFree(Entries(unicode, inputs))
  {
    AcceptedIffCollisionFree(Entries(unicode, inputs));
  }

  lemma AllAcceptableSnoc(unicode: Unicode, files: seq<ZipFile>)
    requires files != []
    ensures AllAcceptable(unicode, files) <==>
      AllAcceptable(unicode, files[..|files| - 1]) && Acceptable(unicode, files[|files| - 1])
  {
    var last := |files| - 1;
    if AllAcceptable(unicode, files[..last]) {
      assert forall i :: 0 <= i < last ==> files[..last][i] == files[i];
    }
  }

  /** What the writer accepts, independently of the order it looks at the files:
      portable paths, empty directories and no collision. */
  lemma {:induction false} AcceptedFiles(unicode: Unicode, inputs: seq<ZipFile>)
    ensures Refusal(unicode, inputs).None? <==>
      AllAcceptable(unicode, inputs) && CollisionFree(Entries(unicode, inputs))
  {
    if inputs != [] {
      var last := |inputs| - 1;
      AcceptedFiles(unicode, inputs[..last]);
      LastAccepted(unicode, inputs);
      AllAcceptableSnoc(unicode, inputs);
      assert Entries(unicode, inputs)[..last] == Entries(unicode, inputs[..last]);
      CollisionFreePrefix(Entries(unicode, inputs), last);
    }
  }

  lemma CollisionFreePrefix(entries: seq<Entry>, k: nat)
    requires k <= |entries|
    ensures CollisionFree(entries) ==> CollisionFree(entries[..k])
  {
  }

  method BuildLocalHeader(file: ZipFile, name: seq<byte>, crc: nat) returns (local: array<byte>)
    requires name == file.Name() && crc == file.Crc()
    ensures fresh(local) && local[..] == LocalHeader(name, crc, |file.bytes|)
  {
    local := new byte[30 + |name|](_ => 0);
    assert local[..] == Zeros(30 + |name|);
    SetUint32(local, 0, LOCAL_SIGNATURE);
    SetUint16(local, 4, 20);
    SetUint16(local, 6, 0x0800);
    SetUint16(local, 8, 0);
    SetUint32(local, 14, crc);
    SetUint32(local, 18, |file.bytes|);
    SetUint32(local, 22, |file.bytes|);
    SetUint16(local, 26, |name|);
    Set(local, name, 30);
  }

  method BuildCentralHeader(file: ZipFile, name: seq<byte>, crc: nat, offset: nat) returns (central: array<byte>)
    requires name == file.Name() && crc == file.Crc()
    ensures fresh(central) && central[..] == CentralHeader(name, crc, |file.bytes|, offset)
  {
    central := new byte[46 + |name|](_ => 0);
    assert central[..] == Zeros(46 + |name|);
    SetUint32(central, 0, CENTRAL_SIGNATURE);
    SetUint16(central, 4, 20);
    SetUint16(central, 6, 20);
    SetUint16(central, 8, 0x0800);
    SetUint16(central, 10, 0);
    SetUint32(central, 16, crc);
    SetUint32(central, 20, |file.bytes|);
    SetUint32(central, 24, |file.bytes|);
    SetUint16(central, 28, |name|);
    SetUint32(central, 42, offset);
    Set(central, name, 46);
  }

  method BuildEndRecord(count: nat, centralSize: nat, centralOffset: nat) returns (end: array<byte>)
    ensures fresh(end) && end[..] == EndRecord(count, centralSize, centralOffset)
  {
    end := new byte[22](_ => 0);
    assert end[..] == Zeros(22);
    SetUint32(end, 0, END_SIGNATURE);
    SetUint16(end, 8, count);
    SetUint16(end, 10, count);
    SetUint32(end, 12, centralSize);
    SetUint32(end, 16, centralOffset);
  }

  /** One step of the first loop of `createZip`. */
  method AcceptInput(unicode: Unicode, archivePaths: PathRegistry, file: ZipFile, ghost earlier: seq<ZipFile>)
    returns (error: Option<ZipError>)
    requires RegisterAll(Entries(unicode, earlier)) == Some(archivePaths.paths)
    modifies archivePaths
    ensures error == LastRefusal(unicode, earlier + [file])
    ensures error.None? ==> RegisterAll(Entries(unicode, earlier + [file])) == Some(archivePaths.paths)
  {
    ghost var entries := Entries(unicode, earlier + [file]);
    assert (earlier + [file])[..|earlier|] == earlier;
    assert entries[..|earlier|] == Entries(unicode, earlier);
    var directory := IsDirectory(file.path);
    var portable := Portable(file.path);
    if !PortablePath(unicode, portable) {
      return Some(PathRejected);
    }
    var accepted := archivePaths.Register(unicode, portable, directory);
    assert accepted <==> RegisterAll(entries).Some?;
    if !accepted {
      return Some(PathRejected);
    }
    if directory && file.bytes != [] {
      return Some(DirectoryNotEmpty);
    }
    return None;
  }

  lemma NothingRefused(unicode: Unicode)
    ensures Refusal(unicode, []) == None && RegisterAll(Entries(unicode, [])) == Some(map[])
  {
  }

  /** One more input: a refusal of it is the refusal of the whole. */
  lemma RefusalStep(unicode: Unicode, inputs: seq<ZipFile>, k: nat)
    requires k < |inputs| && Refusal(unicode, inputs[..k]).None?
    ensures inputs[..k + 1] == inputs[..k] + [inputs[k]]
    ensures Refusal(unicode, inputs[..k + 1]) == LastRefusal(unicode, inputs[..k] + [inputs[k]])
    ensures LastRefusal(unicode, inputs[..k] + [inputs[k]]).Some? ==>
      Refusal(unicode, inputs) == LastRefusal(unicode, inputs[..k] + [inputs[k]])
  {
    hide LastRefusal;
    var soFar := inputs[..k + 1];
    assert soFar == inputs[..k] + [inputs[k]] && soFar[..|soFar| - 1] == inputs[..k];
    if Refusal(unicode, soFar).Some? {
      RefusalSticks(unicode, inputs, k + 1);
    }
  }

  /** The first loop of `createZip`: check every input in the order given. */
  method AcceptInputs(unicode: Unicode, inputFiles: seq<ZipFile>) returns (error: Option<ZipError>)
    ensures error == Refusal(unicode, inputFiles)
  {
    hide Refusal, LastRefusal, RegisterAll, Entries;
    NothingRefused(unicode);
    assert inputFiles[..0] == [];
    var archivePaths := new PathRegistry();
    for k := 0 to |inputFiles|
      invariant Refusal(unicode, inputFiles[..k]).None?
      invariant RegisterAll(Entries(unicode, inputFiles[..k])) == Some(archivePaths.paths)
    {
      RefusalStep(unicode, inputFiles, k);
      error := AcceptInput(unicode, archivePaths, inputFiles[k], inputFiles[..k]);
      if error.Some? {
        return;
      }
    }
    assert inputFiles[..|inputFiles|] == inputFiles;
    return None;
  }

  lemma {:induction false} RefusalSticks(unicode: Unicode, inputs: seq<ZipFile>, k: nat)
    requires k <= |inputs| && Refusal(unicode, inputs[..k]).Some?
    ensures Refusal(unicode, inputs) == Refusal(unicode, inputs[..k])
  {
    if k == |inputs| {
      assert inputs[..k] == inputs;
    } else {
      assert inputs[..|inputs| - 1][..k] == inputs[..k];
      RefusalSticks(unicode, inputs[..|inputs| - 1], k);
    }
  }

  /** The loop that lays out headers and contents; None once the local section
      outgrows the limit. */
  method BuildParts(files: seq<ZipFile>) returns (parts: Option<(seq<seq<byte>>, seq<seq<byte>>, nat)>)
    ensures parts.None? ==> LocalSize(files) > MAX_ARCHIVE_BYTES
    ensures parts.Some? ==> parts.value == (LocalParts(files), CentralParts(files), LocalSize(files))
  {
    hide LocalHeader, CentralHeader, Crc32.Checksum, Encode;
    var localParts: seq<seq<byte>> := [];
    var centralParts: seq<seq<byte>> := [];
    var offset := 0;
    for k := 0 to |files|
      invariant localParts == LocalParts(files[..k])
      invariant centralParts == CentralParts(files[..k])
      invariant offset == LocalSize(files[..k])
    {
      var file := files[k];
      ghost var soFar := files[..k + 1];
      assert soFar[..|soFar| - 1] == files[..k] && soFar[|soFar| - 1] == file;
      var name := Encode(file.path);
      var crc := Crc32.Crc32(file.bytes);
      var local := BuildLocalHeader(file, name, crc);
      localParts := localParts + [local[..], file.bytes];
      assert localParts == LocalParts(soFar);
      var central := BuildCentralHeader(file, name, crc, offset);
      centralParts := centralParts + [central[..]];
      assert centralParts == CentralParts(soFar);
      LocalSizeStep(soFar);
      offset := offset + local.Length + |file.bytes|;
      if offset > MAX_ARCHIVE_BYTES {
        LocalSizeMonotone(files, k + 1);
        return None;
      }
    }
    assert files[..|files|] == files;
    return Some((localParts, centralParts, offset));
  }

  method LayOut(files: seq<ZipFile>) returns (result: Result<seq<byte>, ZipError>)
    ensures result == Sized(Archive(files))
  {
    var parts := BuildParts(files);
    if parts.None? {
      return Failure(ArchiveTooLarge);
    }
    var (localParts, centralParts, centralOffset) := parts.value;
    var centralSize := TotalLength(centralParts);
    var end := BuildEndRecord(|files|, centralSize, centralOffset);
    var archiveSize := centralOffset + centralSize + end.Length;
    if archiveSize > MAX_ARCHIVE_BYTES {
      return Failure(ArchiveTooLarge);
    }
    ConcatAppend(localParts, centralParts);
    ConcatSnoc(localParts + centralParts, end[..]);
    var output := Concatenate(localParts + centralParts + [end[..]], archiveSize);
    assert output[..] == Archive(files);
    return Success(output[..]);
  }

  method CreateZip(unicode: Unicode, inputFiles: seq<ZipFile>) returns (result: Result<seq<byte>, ZipError>)
    ensures result == CreateResult(unicode, inputFiles)
  {
    var refusal := AcceptInputs(unicode, inputFiles);
    if refusal.Some? {
      return Failure(refusal.value);
    }
    var files := SortedFiles(unicode, inputFiles);
    Sorting.SortPermutes(inputFiles, (a: ZipFile, b: ZipFile) => unicode.collatesBefore(a.path, b.path));
    if |files| > MAX_ARCHIVE_FILES {
      return Failure(TooManyFiles);
    }
    result := LayOut(files);
  }

  lemma LocalSizeStep(files: seq<ZipFile>)
    requires files != []
    ensures var last := files[|files| - 1];
      LocalSize(files) == LocalSize(files[..|files| - 1]) + 30 + |last.Name()| + |last.bytes|
  {
    var last := files[|files| - 1];
    var header := LocalHeader(last.Name(), last.Crc(), |last.bytes|);
    var earlier := LocalParts(files[..|files| - 1]);
    assert earlier + [header, last.bytes] == earlier + [header] + [last.bytes];
    ConcatSnoc(earlier, header);
    ConcatSnoc(earlier + [header], last.bytes);
  }

  lemma {:induction false} LocalSizeMonotone(files: seq<ZipFile>, k: nat)
    requires k <= |files|
    ensures LocalSize(files[..k]) <= LocalSize(files)
  {
    if k == |files| {
      assert files[..k] == files;
    } else {
      LocalSizeStep(files);
      assert files[..|files| - 1][..k] == files[..k];
      LocalSizeMonotone(files[..|files| - 1], k);
    }
  }
}
