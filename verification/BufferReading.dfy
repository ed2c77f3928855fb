/** Exactly which lists of uploads are read and what an override makes of them, upload by
    upload, without assuming that any of them is in order. */
module BufferReading {
  import opened Wrappers
  import opened Bytes
  import opened BufferOverrides

  // ------------------------------------------------------------ one upload among others

  /** What an upload's bytes validate to, if there are any and they do. */
  function Content(crate: ProjectCrate, upload: Upload): Option<Validated> {
    if upload.bytes.None? then None else crate.validate(upload.bytes.value)
  }

  ghost predicate NamedBefore(uploads: seq<Upload>, k: nat, name: BufferName)
    requires k <= |uploads|
  {
    exists j :: 0 <= j < k && uploads[j].name == Some(name)
  }

  ghost predicate HeldBefore(crate: ProjectCrate, uploads: seq<Upload>, k: nat, id: AssetId)
    requires k <= |uploads|
  {
    exists j :: 0 <= j < k && Content(crate, uploads[j]).Some? && Content(crate, uploads[j]).value.id == id
  }

  /** Upload k brings a content no earlier upload has. */
  ghost predicate IsNew(crate: ProjectCrate, uploads: seq<Upload>, k: nat)
    requires k < |uploads|
  {
    Content(crate, uploads[k]).Some? && !HeldBefore(crate, uploads, k, Content(crate, uploads[k]).value.id)
  }

  /** The bytes of the distinct contents among the first k uploads. */
  ghost function DistinctBytes(crate: ProjectCrate, uploads: seq<Upload>, k: nat): nat
    requires k <= |uploads|
  {
    if k == 0 then 0
    else
      DistinctBytes(crate, uploads, k - 1)
      + if IsNew(crate, uploads, k - 1) then Content(crate, uploads[k - 1]).value.payloadBytes else 0
  }

  /** What is wrong with upload k, given the ones before it. A content already there is
      neither decoded nor counted again. */
  ghost function ErrorAt(crate: ProjectCrate, uploads: seq<Upload>, k: nat): Option<OverrideError>
    requires k < |uploads|
  {
    if uploads[k].name.None? then Some(UnreadableName)
    else if NamedBefore(uploads, k, uploads[k].name.value) then Some(DuplicateName)
    else if uploads[k].bytes.None? then Some(MissingBytes)
    else
      match crate.validate(uploads[k].bytes.value)
      case None => Some(InvalidBuffer)
      case Some(validated) =>
        if !IsNew(crate, uploads, k) then None
        else if validated.payloadBytes > 1073741824 || DistinctBytes(crate, uploads, k) + validated.payloadBytes > 2147483648 then
          Some(OverBudget)
        else if validated.decoded.None? then Some(UndecodableBuffer)
        else None
  }

  ghost predicate NoErrorBefore(crate: ProjectCrate, uploads: seq<Upload>, k: nat)
    requires k <= |uploads|
  {
    forall j :: 0 <= j < k ==> ErrorAt(crate, uploads, j).None?
  }

  // ------------------------------------------------------------ what has been read

  /** Every name of the first k uploads is bound to the content of its own bytes, and
      every content is there once, decoded. */
  ghost predicate Holds(crate: ProjectCrate, uploads: seq<Upload>, k: nat, loaded: Loaded)
    requires k <= |uploads|
  {
    && (forall name :: name in loaded.bindings <==> NamedBefore(uploads, k, name))
    && (forall j :: 0 <= j < k && uploads[j].name.Some? && Content(crate, uploads[j]).Some? ==>
          Binds(loaded, uploads[j].name.value, Content(crate, uploads[j]).value.id))
    && (forall id :: id in loaded.assets <==> HeldBefore(crate, uploads, k, id))
    && (forall j :: 0 <= j < k && IsNew(crate, uploads, j) && Content(crate, uploads[j]).value.decoded.Some? ==>
          Keeps(loaded, Content(crate, uploads[j]).value.id, Content(crate, uploads[j]).value.decoded.value))
    && loaded.total == DistinctBytes(crate, uploads, k)
  }

  predicate Binds(loaded: Loaded, name: BufferName, id: AssetId) {
    name in loaded.bindings && loaded.bindings[name] == id
  }

  predicate Keeps(loaded: Loaded, id: AssetId, asset: Asset) {
    id in loaded.assets && loaded.assets[id] == asset
  }

  lemma NamedBeforeNext(uploads: seq<Upload>, k: nat, name: BufferName)
    requires k < |uploads|
    ensures NamedBefore(uploads, k + 1, name) <==> NamedBefore(uploads, k, name) || uploads[k].name == Some(name)
  {
  }

  lemma HeldBeforeNext(crate: ProjectCrate, uploads: seq<Upload>, k: nat, id: AssetId)
    requires k < |uploads|
    ensures HeldBefore(crate, uploads, k + 1, id) <==>
      HeldBefore(crate, uploads, k, id) || (Content(crate, uploads[k]).Some? && Content(crate, uploads[k]).value.id == id)
  {
    hide Content;
  }

  /** One more upload without an error: its name is bound, and its content kept if new. */
  lemma HoldsNext(crate: ProjectCrate, uploads: seq<Upload>, k: nat, loaded: Loaded, next: Loaded)
    requires k < |uploads| && Holds(crate, uploads, k, loaded)
    requires uploads[k].name.Some? && !NamedBefore(uploads, k, uploads[k].name.value) && Content(crate, uploads[k]).Some?
    requires var v := Content(crate, uploads[k]).value;
      && next.bindings == loaded.bindings[uploads[k].name.value := v.id]
      && (IsNew(crate, uploads, k) ==>
            v.decoded.Some? && next.assets == loaded.assets[v.id := v.decoded.value] && next.total == loaded.total + v.payloadBytes)
      && (!IsNew(crate, uploads, k) ==> next.assets == loaded.assets && next.total == loaded.total)
    ensures Holds(crate, uploads, k + 1, next)
  {
    hide Content, NamedBefore, HeldBefore;
    forall name
      ensures name in next.bindings <==> NamedBefore(uploads, k + 1, name)
    {
      NamedBeforeNext(uploads, k, name);
    }
    forall id
      ensures id in next.assets <==> HeldBefore(crate, uploads, k + 1, id)
    {
      HeldBeforeNext(crate, uploads, k, id);
    }
    forall j | 0 <= j < k && uploads[j].name.Some?
      ensures uploads[j].name.value != uploads[k].name.value
    {
      assert NamedBefore(uploads, k, uploads[j].name.value) by { NamedAt(uploads, k, j); }
    }
    forall j | 0 <= j < k && Content(crate, uploads[j]).Some?
      ensures HeldBefore(crate, uploads, k, Content(crate, uploads[j]).value.id)
    {
      HeldAt(crate, uploads, k, j);
    }
  }

  lemma NamedAt(uploads: seq<Upload>, k: nat, j: nat)
    requires j < k <= |uploads| && uploads[j].name.Some?
    ensures NamedBefore(uploads, k, uploads[j].name.value)
  {
  }

  lemma HeldAt(crate: ProjectCrate, uploads: seq<Upload>, k: nat, j: nat)
    requires j < k <= |uploads| && Content(crate, uploads[j]).Some?
    ensures HeldBefore(crate, uploads, k, Content(crate, uploads[j]).value.id)
  {
  }

  /** Reading one upload fails with what is wrong with it, or takes it in. */
  lemma ReadsNext(crate: ProjectCrate, uploads: seq<Upload>, k: nat, loaded: Loaded)
    requires crate.Lawful() && k < |uploads| && Holds(crate, uploads, k, loaded) && loaded.total <= 2147483648
    ensures var result := ReadOne(crate, loaded, uploads[k]);
      match ErrorAt(crate, uploads, k)
      case Some(error) => result == Failure(error)
      case None => result.Success? && Holds(crate, uploads, k + 1, result.value) && result.value.total <= 2147483648
  {
    hide NamedBefore, HeldBefore, ProjectCrate.Lawful, TotalBytes;
    if Content(crate, uploads[k]).Some? {
      DecodesAsAnnounced(crate, uploads[k].bytes.value);
      if ErrorAt(crate, uploads, k).None? {
        HoldsNext(crate, uploads, k, loaded, ReadOne(crate, loaded, uploads[k]).value);
      }
    }
  }

  lemma DecodesAsAnnounced(crate: ProjectCrate, bytes: seq<byte>)
    requires crate.Lawful() && crate.validate(bytes).Some?
    ensures crate.validate(bytes).value.decoded.Some? ==>
      |crate.validate(bytes).value.decoded.value.payload| == crate.validate(bytes).value.payloadBytes
  {
  }

  /** The first upload with an error decides; without one everything is read. */
  lemma {:induction false} ReadsPrefix(crate: ProjectCrate, uploads: seq<Upload>, k: nat)
    requires crate.Lawful() && k <= |uploads|
    ensures NoErrorBefore(crate, uploads, k) ==>
      && ReadAll(crate, uploads[..k]).Success?
      && Holds(crate, uploads, k, ReadAll(crate, uploads[..k]).value)
      && ReadAll(crate, uploads[..k]).value.total <= 2147483648
    ensures !NoErrorBefore(crate, uploads, k) ==>
      exists j :: 0 <= j < k && NoErrorBefore(crate, uploads, j) && ErrorAt(crate, uploads, j).Some?
        && ReadAll(crate, uploads[..k]) == Failure(ErrorAt(crate, uploads, j).value)
  {
    hide ReadOne, ErrorAt, ProjectCrate.Lawful;
    if k == 0 {
      assert Holds(crate, uploads, 0, Loaded(map[], map[], 0)) by { NothingRead(crate, uploads); }
    } else {
      hide Holds;
      ReadsPrefix(crate, uploads, k - 1);
      assert uploads[..k][..k - 1] == uploads[..k - 1];
      if NoErrorBefore(crate, uploads, k - 1) {
        ReadsNext(crate, uploads, k - 1, ReadAll(crate, uploads[..k - 1]).value);
      } else {
        var j :| 0 <= j < k - 1 && NoErrorBefore(crate, uploads, j) && ErrorAt(crate, uploads, j).Some?
          && ReadAll(crate, uploads[..k - 1]) == Failure(ErrorAt(crate, uploads, j).value);
        assert ReadAll(crate, uploads[..k]) == Failure(ErrorAt(crate, uploads, j).value);
      }
    }
  }

  lemma NothingRead(crate: ProjectCrate, uploads: seq<Upload>)
    ensures Holds(crate, uploads, 0, Loaded(map[], map[], 0))
  {
  }

  // ------------------------------------------------------------ the whole list

  /** Every upload is in order: names readable and used once, bytes that validate, every
      new content decodable within 1 GiB, all of them within 2 GiB. */
  ghost predicate InOrder(crate: ProjectCrate, uploads: seq<Upload>) {
    && |uploads| <= 4096
    && (forall k :: 0 <= k < |uploads| ==> uploads[k].name.Some?)
    && (forall j, k :: 0 <= j < k < |uploads| ==> uploads[j].name != uploads[k].name)
    && (forall k :: 0 <= k < |uploads| ==> Content(crate, uploads[k]).Some?)
    && (forall k :: 0 <= k < |uploads| && IsNew(crate, uploads, k) ==>
          && Content(crate, uploads[k]).value.decoded.Some?
          && Content(crate, uploads[k]).value.payloadBytes <= 1073741824)
    && DistinctBytes(crate, uploads, |uploads|) <= 2147483648
  }

  lemma {:induction false} DistinctBytesGrow(crate: ProjectCrate, uploads: seq<Upload>, j: nat, k: nat)
    requires j <= k <= |uploads|
    ensures DistinctBytes(crate, uploads, j) <= DistinctBytes(crate, uploads, k)
  {
    if j < k {
      DistinctBytesGrow(crate, uploads, j, k - 1);
    }
  }

  lemma {:induction false} WithinTotal(crate: ProjectCrate, uploads: seq<Upload>, k: nat)
    requires k <= |uploads| && NoErrorBefore(crate, uploads, k)
    ensures DistinctBytes(crate, uploads, k) <= 2147483648
  {
    hide IsNew;
    if k > 0 {
      WithinTotal(crate, uploads, k - 1);
      assert ErrorAt(crate, uploads, k - 1).None?;
    }
  }

  lemma NoErrorMeans(crate: ProjectCrate, uploads: seq<Upload>, k: nat)
    requires k < |uploads|
    ensures ErrorAt(crate, uploads, k).None? <==>
      && uploads[k].name.Some? && !NamedBefore(uploads, k, uploads[k].name.value)
      && Content(crate, uploads[k]).Some?
      && (IsNew(crate, uploads, k) ==>
            && Content(crate, uploads[k]).value.decoded.Some?
            && Content(crate, uploads[k]).value.payloadBytes <= 1073741824
            && DistinctBytes(crate, uploads, k) + Content(crate, uploads[k]).value.payloadBytes <= 2147483648)
  {
    hide NamedBefore, IsNew, DistinctBytes;
  }

  lemma InOrderExactly(crate: ProjectCrate, uploads: seq<Upload>)
    requires |uploads| <= 4096
    ensures InOrder(crate, uploads) <==> NoErrorBefore(crate, uploads, |uploads|)
  {
    hide IsNew, DistinctBytes, ErrorAt, NamedBefore, Content;
    forall k | 0 <= k < |uploads|
      ensures uploads[k].name.Some? ==>
        (NamedBefore(uploads, k, uploads[k].name.value) <==> exists j :: 0 <= j < k && uploads[j].name == uploads[k].name)
    {
      if uploads[k].name.Some? { NamedByName(uploads, k); }
    }
    if NoErrorBefore(crate, uploads, |uploads|) {
      forall k | 0 <= k < |uploads|
        ensures ErrorAt(crate, uploads, k).None?
      {
      }
      forall k | 0 <= k < |uploads|
        ensures uploads[k].name.Some? && !NamedBefore(uploads, k, uploads[k].name.value)
      {
        NoErrorMeans(crate, uploads, k);
      }
      forall k | 0 <= k < |uploads|
        ensures Content(crate, uploads[k]).Some?
        ensures IsNew(crate, uploads, k) ==>
          Content(crate, uploads[k]).value.decoded.Some? && Content(crate, uploads[k]).value.payloadBytes <= 1073741824
      {
        NoErrorMeans(crate, uploads, k);
      }
      WithinTotal(crate, uploads, |uploads|);
    }
    if InOrder(crate, uploads) {
      forall k | 0 <= k < |uploads|
        ensures ErrorAt(crate, uploads, k).None?
      {
        DistinctBytesGrow(crate, uploads, k + 1, |uploads|);
        NextBytes(crate, uploads, k);
        NoErrorMeans(crate, uploads, k);
      }
    }
  }

  lemma NamedByName(uploads: seq<Upload>, k: nat)
    requires k < |uploads| && uploads[k].name.Some?
    ensures NamedBefore(uploads, k, uploads[k].name.value) <==> exists j :: 0 <= j < k && uploads[j].name == uploads[k].name
  {
  }

  lemma NextBytes(crate: ProjectCrate, uploads: seq<Upload>, k: nat)
    requires k < |uploads|
    ensures IsNew(crate, uploads, k) ==>
      DistinctBytes(crate, uploads, k + 1) == DistinctBytes(crate, uploads, k) + Content(crate, uploads[k]).value.payloadBytes
  {
  }

  /** Reading succeeds exactly on uploads that are all in order, and then binds every name
      to the content of its own bytes and keeps every distinct content once, decoded.
      Otherwise the error is that of the first upload that is not in order. */
  lemma ReadsUploadsExactly(crate: ProjectCrate, uploads: seq<Upload>)
    requires crate.Lawful()
    ensures ReadResult(crate, uploads).Success? <==> InOrder(crate, uploads)
    ensures ReadResult(crate, uploads).Success? ==> Holds(crate, uploads, |uploads|, ReadResult(crate, uploads).value)
    ensures |uploads| > 4096 ==> ReadResult(crate, uploads) == Failure(TooManyBuffers)
    ensures |uploads| <= 4096 && ReadResult(crate, uploads).Failure? ==>
      exists k :: 0 <= k < |uploads| && NoErrorBefore(crate, uploads, k)
        && ErrorAt(crate, uploads, k) == Some(ReadResult(crate, uploads).error)
  {
    hide ReadAll, Holds, ErrorAt, NoErrorBefore, ProjectCrate.Lawful, DistinctBytes;
    if |uploads| <= 4096 {
      InOrderExactly(crate, uploads);
      ReadsPrefix(crate, uploads, |uploads|);
      assert uploads[..|uploads|] == uploads;
    }
  }

  // ------------------------------------------------------------ the override

  /** The image with every uploaded name bound to the content of its own bytes, every other
      name as before, and exactly the contents that are bound. */
  ghost predicate Overridden(crate: ProjectCrate, image: Image, uploads: seq<Upload>, updated: Image) {
    && updated.sources == image.sources && updated.constants == image.constants
    && (forall name :: name in updated.bindings <==> name in image.bindings || NamedBefore(uploads, |uploads|, name))
    && (forall k :: 0 <= k < |uploads| && uploads[k].name.Some? && Content(crate, uploads[k]).Some? ==>
          BoundTo(updated, uploads[k].name.value, Content(crate, uploads[k]).value.id))
    && (forall name :: name in image.bindings && !NamedBefore(uploads, |uploads|, name) ==>
          BoundTo(updated, name, image.bindings[name]))
    && updated.assets.Keys == updated.bindings.Values
    && (forall id :: id in updated.assets ==> crate.idOf(updated.assets[id]) == id)
  }

  predicate BoundTo(image: Image, name: BufferName, id: AssetId) {
    name in image.bindings && image.bindings[name] == id
  }

  lemma MergedIsOverridden(crate: ProjectCrate, image: Image, uploads: seq<Upload>)
    requires crate.Lawful() && crate.SoundImage(image) && ReadResult(crate, uploads).Success?
    ensures Overridden(crate, image, uploads, MergedImage(image, ReadResult(crate, uploads).value))
  {
    hide ReadResult, MergedAssets, TotalBytes, ProjectCrate.Lawful, InOrder, DistinctBytes, ErrorAt, NamedBefore;
    hide HeldBefore, Content;
    ReadsUploadsExactly(crate, uploads);
    ReadResultSound(crate, uploads);
    MergedSound(crate, image, ReadResult(crate, uploads).value);
  }

  /** There is only one such image. */
  lemma OverriddenOnce(crate: ProjectCrate, image: Image, uploads: seq<Upload>, a: Image, b: Image)
    requires crate.Lawful() && InOrder(crate, uploads)
    requires Overridden(crate, image, uploads, a) && Overridden(crate, image, uploads, b)
    ensures a == b
  {
    hide DistinctBytes, IsNew, Content, ProjectCrate.Lawful;
    assert a.bindings.Keys == b.bindings.Keys;
    forall name | name in a.bindings ensures a.bindings[name] == b.bindings[name] {
      if NamedBefore(uploads, |uploads|, name) {
        var k :| 0 <= k < |uploads| && uploads[k].name == Some(name);
        assert BoundTo(a, name, Content(crate, uploads[k]).value.id);
      } else {
        assert BoundTo(a, name, image.bindings[name]);
      }
    }
    assert a.bindings == b.bindings;
    AddressedDetermined(crate, a.assets, b.assets);
  }

  /** An override gives an image exactly if every upload is in order, the image is the one
      overridden by them, its contents take at most 2 GiB and it is accepted. */
  lemma OverridesExactly(crate: ProjectCrate, image: Image, uploads: seq<Upload>, updated: Image)
    requires crate.Lawful() && crate.SoundImage(image)
    ensures OverrideResult(crate, image, uploads) == Success(updated) <==>
      && InOrder(crate, uploads)
      && Overridden(crate, image, uploads, updated)
      && TotalBytes(updated.assets) <= 2147483648
      && crate.accepts(updated)
  {
    hide ReadResult, MergedBindings, MergedAssets, Overridden, TotalBytes, ProjectCrate.Lawful;
    hide ProjectCrate.SoundImage, InOrder, Holds, NoErrorBefore, ErrorAt;
    ReadsUploadsExactly(crate, uploads);
    if InOrder(crate, uploads) {
      var merged := MergedImage(image, ReadResult(crate, uploads).value);
      MergedIsOverridden(crate, image, uploads);
      if Overridden(crate, image, uploads, updated) {
        OverriddenOnce(crate, image, uploads, merged, updated);
      }
    }
  }

  /** An upload that is not in order refuses the whole override, with the error of the
      first such upload. */
  lemma FirstErrorRefuses(crate: ProjectCrate, image: Image, uploads: seq<Upload>, k: nat)
    requires crate.Lawful() && |uploads| <= 4096 && k < |uploads|
    requires NoErrorBefore(crate, uploads, k) && ErrorAt(crate, uploads, k).Some?
    ensures OverrideResult(crate, image, uploads) == Failure(ErrorAt(crate, uploads, k).value)
  {
    hide ReadAll, MergedBindings, MergedAssets, TotalBytes, ProjectCrate.Lawful, Holds, ErrorAt, DistinctBytes;
    InOrderExactly(crate, uploads);
    ReadsUploadsExactly(crate, uploads);
    var j :| 0 <= j < |uploads| && NoErrorBefore(crate, uploads, j)
      && ErrorAt(crate, uploads, j) == Some(ReadResult(crate, uploads).error);
    assert j == k;
  }
}
