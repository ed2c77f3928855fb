/** Project buffers: named bindings to content-addressed assets, read from uploads
    under a shared byte budget and merged into an existing image. */
module BufferOverrides {
  import opened Wrappers
  import opened Bytes

  type AssetId = string
  type BufferName = string

  const MAX_BUFFER_BINDINGS := 4096
  const MAX_ASSET_BYTES := 1024 * 1024 * 1024
  const MAX_TOTAL_ASSET_BYTES := 2 * 1024 * 1024 * 1024

  /** A decoded buffer: its format (element type, frames, channels, rate) and samples. */
  datatype Asset = Asset(format: seq<byte>, payload: seq<byte>)

  /** A validated but not yet decoded upload. */
  datatype Validated = Validated(id: AssetId, payloadBytes: nat, decoded: Option<Asset>)

  /** One buffer as the caller passes it; None for an unreadable name or a null pointer. */
  datatype Upload = Upload(name: Option<BufferName>, bytes: Option<seq<byte>>)

  datatype Image = Image(
    sources: seq<byte>,
    constants: seq<byte>,
    bindings: map<BufferName, AssetId>,
    assets: map<AssetId, Asset>)

  /** The project crate: validating and decoding uploads, addressing assets by
      content, and whatever `ProjectImage` construction accepts. */
  datatype ProjectCrate = ProjectCrate(
    validate: seq<byte> -> Option<Validated>,
    idOf: Asset -> AssetId,
    accepts: Image -> bool)
  {
    /** Decoding yields the announced number of bytes and the announced content, and
        no two contents share a digest. */
    ghost predicate Lawful() {
      && (forall bytes :: validate(bytes).Some? && validate(bytes).value.decoded.Some? ==>
            && |validate(bytes).value.decoded.value.payload| == validate(bytes).value.payloadBytes
            && idOf(validate(bytes).value.decoded.value) == validate(bytes).value.id)
      && (forall a, b :: idOf(a) == idOf(b) ==> a == b)
    }

    /** Content-addressed assets, exactly those bound, within the limit. */
    ghost predicate SoundImage(image: Image) {
      && Addressed(image.assets)
      && image.assets.Keys == image.bindings.Values
      && TotalBytes(image.assets) <= MAX_TOTAL_ASSET_BYTES
    }

    ghost predicate Addressed(assets: map<AssetId, Asset>) {
      forall id :: id in assets ==> idOf(assets[id]) == id
    }
  }

  /** The sum of the payload sizes of a set of assets. */
  ghost function TotalBytes(assets: map<AssetId, Asset>): nat
    decreases |assets|
  {
    if assets == map[] then 0
    else
      var id :| id in assets;
      assert (assets - {id}).Keys == assets.Keys - {id};
      |assets[id].payload| + TotalBytes(assets - {id})
  }

  lemma {:induction false} TotalBytesWithout(assets: map<AssetId, Asset>, id: AssetId)
    requires id in assets
    ensures TotalBytes(assets) == |assets[id].payload| + TotalBytes(assets - {id})
    decreases |assets|
  {
    var chosen :| chosen in assets && TotalBytes(assets) == |assets[chosen].payload| + TotalBytes(assets - {chosen});
    if chosen != id {
      var rest := assets - {chosen};
      assert rest.Keys == assets.Keys - {chosen};
      TotalBytesWithout(rest, id);
      assert rest - {id} == (assets - {id}) - {chosen};
      assert (assets - {id}).Keys == assets.Keys - {id};
      TotalBytesWithout(assets - {id}, chosen);
    }
  }

  lemma TotalBytesInsert(assets: map<AssetId, Asset>, id: AssetId, asset: Asset)
    requires id !in assets
    ensures TotalBytes(assets[id := asset]) == TotalBytes(assets) + |asset.payload|
  {
    TotalBytesWithout(assets[id := asset], id);
    assert assets[id := asset] - {id} == assets;
  }

  /** More assets never take fewer bytes. */
  lemma {:induction false} TotalBytesMonotone(some: map<AssetId, Asset>, all: map<AssetId, Asset>)
    requires forall id :: id in some ==> id in all && all[id] == some[id]
    ensures TotalBytes(some) <= TotalBytes(all)
    decreases |some|
  {
    if some != map[] {
      var id :| id in some;
      TotalBytesWithout(some, id);
      TotalBytesWithout(all, id);
      assert (some - {id}).Keys == some.Keys - {id};
      TotalBytesMonotone(some - {id}, all - {id});
    }
  }

  datatype OverrideError =
    | TooManyBuffers
    | UnreadableName
    | DuplicateName
    | MissingBytes
    | InvalidBuffer
    | OverBudget
    | UndecodableBuffer
    | ImageRejected

  /** What the reading loop has gathered. */
  datatype Loaded = Loaded(bindings: map<BufferName, AssetId>, assets: map<AssetId, Asset>, total: nat)

  /** What `with_remaining_asset_budget` leaves for the next asset. */
  function Remaining(taken: nat): nat {
    var left := if taken > MAX_TOTAL_ASSET_BYTES then 0 else MAX_TOTAL_ASSET_BYTES - taken;
    if left < MAX_ASSET_BYTES then left else MAX_ASSET_BYTES
  }

  /** One upload: bind its name, and decode its asset unless it is already there. */
  function ReadOne(crate: ProjectCrate, loaded: Loaded, upload: Upload): Result<Loaded, OverrideError> {
    if upload.name.None? then Failure(UnreadableName)
    else if upload.name.value in loaded.bindings then Failure(DuplicateName)
    else if upload.bytes.None? then Failure(MissingBytes)
    else
      match crate.validate(upload.bytes.value)
      case None => Failure(InvalidBuffer)
      case Some(validated) =>
        var bindings := loaded.bindings[upload.name.value := validated.id];
        if validated.id in loaded.assets then Success(loaded.(bindings := bindings))
        else if validated.payloadBytes > Remaining(loaded.total) then Failure(OverBudget)
        else
          match validated.decoded
          case None => Failure(UndecodableBuffer)
          case Some(asset) =>
            var total := loaded.total + |asset.payload|;
            if total > MAX_TOTAL_ASSET_BYTES then Failure(OverBudget)
            else Success(Loaded(bindings, loaded.assets[validated.id := asset], total))
  }

  function ReadAll(crate: ProjectCrate, uploads: seq<Upload>): Result<Loaded, OverrideError> {
    if uploads == [] then Success(Loaded(map[], map[], 0))
    else
      match ReadAll(crate, uploads[..|uploads| - 1])
      case Failure(error) => Failure(error)
      case Success(loaded) => ReadOne(crate, loaded, uploads[|uploads| - 1])
  }

  function ReadResult(crate: ProjectCrate, uploads: seq<Upload>): Result<Loaded, OverrideError> {
    if |uploads| > MAX_BUFFER_BINDINGS then Failure(TooManyBuffers) else ReadAll(crate, uploads)
  }

  lemma {:induction false} ReadAllSticks(crate: ProjectCrate, uploads: seq<Upload>, k: nat)
    requires k <= |uploads| && ReadAll(crate, uploads[..k]).Failure?
    ensures ReadAll(crate, uploads) == ReadAll(crate, uploads[..k])
  {
    hide ReadOne;
    if k == |uploads| {
      assert uploads[..k] == uploads;
    } else {
      assert uploads[..|uploads| - 1][..k] == uploads[..k];
      ReadAllSticks(crate, uploads[..|uploads| - 1], k);
    }
  }

  /** `read_project_buffers`. */
  method ReadProjectBuffers(crate: ProjectCrate, uploads: seq<Upload>) returns (result: Result<Loaded, OverrideError>)
    ensures result == ReadResult(crate, uploads)
  {
    if |uploads| > MAX_BUFFER_BINDINGS {
      return Failure(TooManyBuffers);
    }
    var bindings: map<BufferName, AssetId> := map[];
    var assets: map<AssetId, Asset> := map[];
    var totalAssetBytes: nat := 0;
    for k := 0 to |uploads|
      invariant ReadAll(crate, uploads[..k]) == Success(Loaded(bindings, assets, totalAssetBytes))
    {
      var upload := uploads[k];
      ghost var soFar := uploads[..k + 1];
      assert soFar[..|soFar| - 1] == uploads[..k] && soFar[|soFar| - 1] == upload;
      if ReadAll(crate, soFar).Failure? {
        ReadAllSticks(crate, uploads, k + 1);
      }
      if upload.name.None? {
        return Failure(UnreadableName);
      }
      if upload.name.value in bindings {
        return Failure(DuplicateName);
      }
      if upload.bytes.None? {
        return Failure(MissingBytes);
      }
      var validated := crate.validate(upload.bytes.value);
      if validated.None? {
        return Failure(InvalidBuffer);
      }
      var id := validated.value.id;
      if id !in assets {
        if validated.value.payloadBytes > Remaining(totalAssetBytes) {
          return Failure(OverBudget);
        }
        if validated.value.decoded.None? {
          return Failure(UndecodableBuffer);
        }
        var asset := validated.value.decoded.value;
        if totalAssetBytes + |asset.payload| > MAX_TOTAL_ASSET_BYTES {
          return Failure(OverBudget);
        }
        totalAssetBytes := totalAssetBytes + |asset.payload|;
        assets := assets[id := asset];
      }
      bindings := bindings[upload.name.value := id];
    }
    assert uploads[..|uploads|] == uploads;
    return Success(Loaded(bindings, assets, totalAssetBytes));
  }

  // ------------------------------------------------------------ what reading accepts

  /** An upload that is well formed by itself. */
  ghost predicate Usable(crate: ProjectCrate, upload: Upload) {
    && upload.name.Some?
    && upload.bytes.Some?
    && crate.validate(upload.bytes.value).Some?
    && crate.validate(upload.bytes.value).value.decoded.Some?
    && crate.validate(upload.bytes.value).value.payloadBytes <= MAX_ASSET_BYTES
  }

  ghost function IdOfUpload(crate: ProjectCrate, upload: Upload): AssetId
    requires Usable(crate, upload)
  {
    crate.validate(upload.bytes.value).value.id
  }

  ghost predicate AllUsable(crate: ProjectCrate, uploads: seq<Upload>) {
    forall i :: 0 <= i < |uploads| ==> Usable(crate, uploads[i])
  }

  ghost predicate DistinctNames(uploads: seq<Upload>) {
    forall i, j :: 0 <= i < j < |uploads| ==> uploads[i].name != uploads[j].name
  }

  /** The names bound, each to the content it was uploaded with. */
  ghost function Bindings(crate: ProjectCrate, uploads: seq<Upload>): map<BufferName, AssetId>
    requires AllUsable(crate, uploads)
  {
    if uploads == [] then map[]
    else
      var last := uploads[|uploads| - 1];
      Bindings(crate, uploads[..|uploads| - 1])[last.name.value := IdOfUpload(crate, last)]
  }

  /** The distinct assets uploaded. */
  ghost function Gathered(crate: ProjectCrate, uploads: seq<Upload>): map<AssetId, Asset>
    requires AllUsable(crate, uploads)
  {
    if uploads == [] then map[]
    else
      var last := uploads[|uploads| - 1];
      var earlier := Gathered(crate, uploads[..|uploads| - 1]);
      var id := IdOfUpload(crate, last);
      if id in earlier then earlier else earlier[id := crate.validate(last.bytes.value).value.decoded.value]
  }

  lemma {:induction false} BindingsNames(crate: ProjectCrate, uploads: seq<Upload>)
    requires AllUsable(crate, uploads)
    ensures forall name :: name in Bindings(crate, uploads) <==> exists i :: 0 <= i < |uploads| && uploads[i].name == Some(name)
  {
    if uploads != [] {
      var n := |uploads| - 1;
      BindingsNames(crate, uploads[..n]);
      forall name | name in Bindings(crate, uploads)
        ensures exists i :: 0 <= i < |uploads| && uploads[i].name == Some(name)
      {
        if name != uploads[n].name.value {
          var i :| 0 <= i < n && uploads[..n][i].name == Some(name);
          assert uploads[i].name == Some(name);
        }
      }
      forall i | 0 <= i < |uploads|
        ensures uploads[i].name.value in Bindings(crate, uploads)
      {
        if i < n {
          assert uploads[..n][i].name == Some(uploads[i].name.value);
        }
      }
    }
  }

  /** The budget, exactly: uploads that are usable by themselves and named apart
      are refused if and only if their distinct assets together exceed the limit;
      otherwise every name is bound and every distinct asset is kept once. */
  lemma {:induction false} BudgetIsExact(crate: ProjectCrate, uploads: seq<Upload>)
    requires crate.Lawful() && AllUsable(crate, uploads) && DistinctNames(uploads)
    ensures ReadAll(crate, uploads) ==
      if TotalBytes(Gathered(crate, uploads)) <= MAX_TOTAL_ASSET_BYTES
      then Success(Loaded(Bindings(crate, uploads), Gathered(crate, uploads), TotalBytes(Gathered(crate, uploads))))
      else Failure(OverBudget)
  {
    hide TotalBytes, ReadOne;
    if uploads == [] {
      assert TotalBytes(map[]) == 0 by { NoBytes(); }
    } else {
      var n := |uploads| - 1;
      BudgetIsExact(crate, uploads[..n]);
      LastNameIsNew(crate, uploads);
      LastIsCounted(crate, uploads);
    }
  }

  lemma NoBytes()
    ensures TotalBytes(map[]) == 0
  {
  }

  lemma LastNameIsNew(crate: ProjectCrate, uploads: seq<Upload>)
    requires AllUsable(crate, uploads) && DistinctNames(uploads) && uploads != []
    ensures uploads[|uploads| - 1].name.value !in Bindings(crate, uploads[..|uploads| - 1])
  {
    var n := |uploads| - 1;
    BindingsNames(crate, uploads[..n]);
    assert forall i :: 0 <= i < n ==> uploads[..n][i].name == uploads[i].name != uploads[n].name;
  }

  lemma LastIsCounted(crate: ProjectCrate, uploads: seq<Upload>)
    requires crate.Lawful() && AllUsable(crate, uploads) && uploads != []
    requires uploads[|uploads| - 1].name.value !in Bindings(crate, uploads[..|uploads| - 1])
    ensures var earlier, last := uploads[..|uploads| - 1], uploads[|uploads| - 1];
      var kept, all := Gathered(crate, earlier), Gathered(crate, uploads);
      && TotalBytes(kept) <= TotalBytes(all)
      && (TotalBytes(kept) <= MAX_TOTAL_ASSET_BYTES ==>
            ReadOne(crate, Loaded(Bindings(crate, earlier), kept, TotalBytes(kept)), last) ==
            if TotalBytes(all) <= MAX_TOTAL_ASSET_BYTES
            then Success(Loaded(Bindings(crate, uploads), all, TotalBytes(all)))
            else Failure(OverBudget))
  {
    hide TotalBytes;
    var earlier, last := uploads[..|uploads| - 1], uploads[|uploads| - 1];
    assert Usable(crate, last);
    var kept := Gathered(crate, earlier);
    var id := IdOfUpload(crate, last);
    if id !in kept {
      TotalBytesInsert(kept, id, crate.validate(last.bytes.value).value.decoded.value);
    }
  }

  // ------------------------------------------------------------ overriding

  /** What successful reading guarantees. */
  ghost predicate SoundLoaded(crate: ProjectCrate, loaded: Loaded) {
    && crate.Addressed(loaded.assets)
    && loaded.assets.Keys == loaded.bindings.Values
    && loaded.total == TotalBytes(loaded.assets) <= MAX_TOTAL_ASSET_BYTES
  }

  lemma ReadOneSound(crate: ProjectCrate, loaded: Loaded, upload: Upload)
    requires crate.Lawful() && SoundLoaded(crate, loaded) && ReadOne(crate, loaded, upload).Success?
    ensures SoundLoaded(crate, ReadOne(crate, loaded, upload).value)
  {
    var next := ReadOne(crate, loaded, upload).value;
    var name, id := upload.name.value, crate.validate(upload.bytes.value).value.id;
    assert next.bindings == loaded.bindings[name := id];
    forall other | other in loaded.bindings.Values
      ensures other in next.bindings.Values
    {
      var n :| n in loaded.bindings && loaded.bindings[n] == other;
      assert next.bindings[n] == other;
    }
    assert next.bindings[name] == id;
    if id !in loaded.assets {
      TotalBytesInsert(loaded.assets, id, next.assets[id]);
    }
  }

  lemma {:induction false} ReadAllSound(crate: ProjectCrate, uploads: seq<Upload>)
    requires crate.Lawful() && ReadAll(crate, uploads).Success?
    ensures SoundLoaded(crate, ReadAll(crate, uploads).value)
  {
    if uploads != [] {
      ReadAllSound(crate, uploads[..|uploads| - 1]);
      ReadOneSound(crate, ReadAll(crate, uploads[..|uploads| - 1]).value, uploads[|uploads| - 1]);
    }
  }

  /** The image's bindings with the loaded ones taking precedence, and exactly the
      assets they reference. */
  function MergedBindings(image: Image, loaded: Loaded): map<BufferName, AssetId> {
    image.bindings + loaded.bindings
  }

  function MergedAssets(image: Image, loaded: Loaded): map<AssetId, Asset> {
    (map id | id in image.assets && id in MergedBindings(image, loaded).Values :: image.assets[id]) + loaded.assets
  }

  function MergedImage(image: Image, loaded: Loaded): Image {
    image.(bindings := MergedBindings(image, loaded), assets := MergedAssets(image, loaded))
  }

  ghost function OverrideResult(crate: ProjectCrate, image: Image, uploads: seq<Upload>): Result<Image, OverrideError> {
    match ReadResult(crate, uploads)
    case Failure(error) => Failure(error)
    case Success(loaded) =>
      if TotalBytes(MergedAssets(image, loaded)) > MAX_TOTAL_ASSET_BYTES then Failure(OverBudget)
      else if crate.accepts(MergedImage(image, loaded)) then Success(MergedImage(image, loaded))
      else Failure(ImageRejected)
  }

  /** An override keeps sources, constants and every binding it does not mention,
      and its result holds exactly the assets its bindings reference. */
  lemma OverrideIsPrecise(crate: ProjectCrate, image: Image, uploads: seq<Upload>)
    requires crate.Lawful() && crate.SoundImage(image)
    requires OverrideResult(crate, image, uploads).Success?
    ensures var updated, loaded := OverrideResult(crate, image, uploads).value, ReadResult(crate, uploads).value;
      && updated.sources == image.sources && updated.constants == image.constants
      && updated.bindings.Keys == image.bindings.Keys + loaded.bindings.Keys
      && (forall name :: name in loaded.bindings ==> updated.bindings[name] == loaded.bindings[name])
      && (forall name :: name in image.bindings && name !in loaded.bindings ==> updated.bindings[name] == image.bindings[name])
      && crate.SoundImage(updated)
  {
    hide ReadResult, TotalBytes;
    ReadResultSound(crate, uploads);
    MergedSound(crate, image, ReadResult(crate, uploads).value);
  }

  /** Assets addressed by content are determined by their addresses. */
  lemma AddressedDetermined(crate: ProjectCrate, a: map<AssetId, Asset>, b: map<AssetId, Asset>)
    requires crate.Lawful() && crate.Addressed(a) && crate.Addressed(b) && a.Keys == b.Keys
    ensures a == b
  {
    forall id | id in a
      ensures a[id] == b[id]
    {
      assert crate.idOf(a[id]) == crate.idOf(b[id]);
    }
  }

  /** Overrides compose: two overrides in a row give the same image as one override
      with any uploads that bind the second's names over the first's. */
  lemma OverridesCompose(crate: ProjectCrate, image: Image, first: seq<Upload>, second: seq<Upload>, both: seq<Upload>)
    requires crate.Lawful() && crate.SoundImage(image)
    requires OverrideResult(crate, image, first).Success?
    requires OverrideResult(crate, OverrideResult(crate, image, first).value, second).Success?
    requires ReadResult(crate, both).Success?
    requires ReadResult(crate, both).value.bindings ==
      ReadResult(crate, first).value.bindings + ReadResult(crate, second).value.bindings
    ensures OverrideResult(crate, image, both) == OverrideResult(crate, OverrideResult(crate, image, first).value, second)
  {
    hide OverrideResult, ReadResult, MergedImage, ProjectCrate.Lawful, ProjectCrate.SoundImage, SoundLoaded;
    var middle := OverrideResult(crate, image, first).value;
    OverrideSound(crate, image, first);
    OverrideSound(crate, middle, second);
    var a, b, c := ReadResult(crate, first).value, ReadResult(crate, second).value, ReadResult(crate, both).value;
    ReadResultSound(crate, both);
    MergeTwice(crate, image, a, b, c);
    OverrideTakes(crate, image, both);
  }

  lemma OverrideSound(crate: ProjectCrate, image: Image, uploads: seq<Upload>)
    requires crate.Lawful() && crate.SoundImage(image)
    requires OverrideResult(crate, image, uploads).Success?
    ensures ReadResult(crate, uploads).Success?
    ensures var updated := OverrideResult(crate, image, uploads).value;
      updated == MergedImage(image, ReadResult(crate, uploads).value) && crate.SoundImage(updated) && crate.accepts(updated)
  {
    hide ReadResult, TotalBytes;
    OverrideIsPrecise(crate, image, uploads);
  }

  /** A merged image within the limit and accepted is the result. */
  lemma OverrideTakes(crate: ProjectCrate, image: Image, uploads: seq<Upload>)
    requires ReadResult(crate, uploads).Success?
    requires var merged := MergedImage(image, ReadResult(crate, uploads).value);
      crate.SoundImage(merged) && crate.accepts(merged)
    ensures OverrideResult(crate, image, uploads) == Success(MergedImage(image, ReadResult(crate, uploads).value))
  {
    hide ReadResult, TotalBytes, MergedAssets, MergedBindings;
  }

  lemma MergeTwice(crate: ProjectCrate, image: Image, a: Loaded, b: Loaded, c: Loaded)
    requires crate.Lawful() && crate.SoundImage(image) && SoundLoaded(crate, c)
    requires crate.SoundImage(MergedImage(MergedImage(image, a), b))
    requires c.bindings == a.bindings + b.bindings
    ensures MergedImage(image, c) == MergedImage(MergedImage(image, a), b)
  {
    hide TotalBytes, MergedAssets, ProjectCrate.Lawful, ProjectCrate.Addressed, SoundLoaded;
    var final := MergedImage(MergedImage(image, a), b);
    assert image.bindings + (a.bindings + b.bindings) == (image.bindings + a.bindings) + b.bindings;
    MergedSound(crate, image, c);
    AddressedDetermined(crate, MergedAssets(image, c), final.assets);
  }

  lemma ReadResultSound(crate: ProjectCrate, uploads: seq<Upload>)
    requires crate.Lawful() && ReadResult(crate, uploads).Success?
    ensures SoundLoaded(crate, ReadResult(crate, uploads).value)
  {
    ReadAllSound(crate, uploads);
  }

  /** Merging sound parts gives exactly the assets referenced, each at its address. */
  lemma MergedSound(crate: ProjectCrate, image: Image, loaded: Loaded)
    requires crate.Lawful() && crate.SoundImage(image) && SoundLoaded(crate, loaded)
    ensures crate.Addressed(MergedAssets(image, loaded))
    ensures MergedAssets(image, loaded).Keys == MergedBindings(image, loaded).Values
  {
    var bindings, assets := MergedBindings(image, loaded), MergedAssets(image, loaded);
    forall id | id in bindings.Values
      ensures id in assets
    {
      var name :| name in bindings && bindings[name] == id;
      if name in loaded.bindings {
        assert id in loaded.bindings.Values;
      } else {
        assert id in image.bindings.Values;
      }
    }
    forall id | id in assets
      ensures id in bindings.Values
    {
      if id in loaded.assets {
        var name :| name in loaded.bindings && loaded.bindings[name] == id;
        assert bindings[name] == id;
      }
    }
  }

  /** The part of the merge done so far: names not yet visited contribute nothing. */
  ghost function Visited(image: Image, waiting: set<BufferName>): Image {
    image.(bindings := map name | name in image.bindings && name !in waiting :: image.bindings[name])
  }

  /** Visiting a binding that is not overridden adds it, and its asset if new. */
  lemma NameVisited(image: Image, loaded: Loaded, waiting: set<BufferName>, name: BufferName)
    requires name in image.bindings && name !in waiting && name !in loaded.bindings
    requires image.bindings[name] in image.assets
    ensures var before, after := Visited(image, waiting + {name}), Visited(image, waiting);
      var id := image.bindings[name];
      && MergedBindings(after, loaded) == MergedBindings(before, loaded)[name := id]
      && MergedAssets(after, loaded) ==
         if id in MergedAssets(before, loaded) then MergedAssets(before, loaded)
         else MergedAssets(before, loaded)[id := image.assets[id]]
  {
    hide MergedAssets;
    var id := image.bindings[name];
    var before, after := Visited(image, waiting + {name}), Visited(image, waiting);
    assert MergedBindings(after, loaded) == MergedBindings(before, loaded)[name := id];
    assert name !in MergedBindings(before, loaded);
    ValuesAfter(MergedBindings(before, loaded), name, id);
    AssetsAfter(before, after, loaded, id);
  }

  lemma AssetsAfter(before: Image, after: Image, loaded: Loaded, id: AssetId)
    requires after.assets == before.assets && id in after.assets
    requires MergedBindings(after, loaded).Values == MergedBindings(before, loaded).Values + {id}
    ensures MergedAssets(after, loaded) ==
      if id in MergedAssets(before, loaded) then MergedAssets(before, loaded)
      else MergedAssets(before, loaded)[id := after.assets[id]]
  {
    hide MergedBindings;
  }

  lemma ValuesAfter(bindings: map<BufferName, AssetId>, name: BufferName, id: AssetId)
    requires name !in bindings
    ensures bindings[name := id].Values == bindings.Values + {id}
  {
    var after := bindings[name := id];
    assert after[name] == id;
    forall other | other in bindings.Values
      ensures other in after.Values
    {
      var n :| n in bindings && bindings[n] == other;
      assert after[n] == other;
    }
  }

  lemma NothingVisited(image: Image, loaded: Loaded)
    requires loaded.assets.Keys == loaded.bindings.Values
    ensures MergedBindings(Visited(image, image.bindings.Keys), loaded) == loaded.bindings
    ensures MergedAssets(Visited(image, image.bindings.Keys), loaded) == loaded.assets
  {
    assert Visited(image, image.bindings.Keys).bindings == map[];
    assert MergedBindings(Visited(image, image.bindings.Keys), loaded) == loaded.bindings;
  }

  lemma NotOverridden(image: Image, loaded: Loaded, waiting: set<BufferName>, name: BufferName)
    ensures name in MergedBindings(Visited(image, waiting + {name}), loaded) <==> name in loaded.bindings
  {
  }

  /** Visiting an overridden binding changes nothing. */
  lemma NameOverridden(image: Image, loaded: Loaded, waiting: set<BufferName>, name: BufferName)
    requires name in image.bindings && name in loaded.bindings
    ensures MergedBindings(Visited(image, waiting + {name}), loaded) == MergedBindings(Visited(image, waiting), loaded)
    ensures MergedAssets(Visited(image, waiting + {name}), loaded) == MergedAssets(Visited(image, waiting), loaded)
  {
    assert MergedBindings(Visited(image, waiting + {name}), loaded) == MergedBindings(Visited(image, waiting), loaded);
  }

  /** The assets gathered half way are among those of the whole merge. */
  lemma MergeGrows(image: Image, loaded: Loaded, waiting: set<BufferName>)
    ensures TotalBytes(MergedAssets(Visited(image, waiting), loaded)) <= TotalBytes(MergedAssets(image, loaded))
  {
    var part, whole := MergedBindings(Visited(image, waiting), loaded), MergedBindings(image, loaded);
    forall id | id in part.Values
      ensures id in whole.Values
    {
      var name :| name in part && part[name] == id;
      assert whole[name] == id;
    }
    TotalBytesMonotone(MergedAssets(Visited(image, waiting), loaded), MergedAssets(image, loaded));
  }

  /** `onda_project_image_with_buffer_overrides`, visiting the image's bindings in
      any order. */
  method WithBufferOverrides(crate: ProjectCrate, image: Image, uploads: seq<Upload>) returns (result: Result<Image, OverrideError>)
    requires crate.Lawful() && crate.SoundImage(image)
    ensures result == OverrideResult(crate, image, uploads)
  {
    hide ReadAll, TotalBytes, MergedBindings, MergedAssets;
    var read := ReadProjectBuffers(crate, uploads);
    if read.Failure? {
      return Failure(read.error);
    }
    var loaded := read.value;
    ReadAllSound(crate, uploads);
    var bindings, assets, totalAssetBytes := loaded.bindings, loaded.assets, loaded.total;
    var waiting := image.bindings.Keys;
    NothingVisited(image, loaded);
    while waiting != {}
      invariant waiting <= image.bindings.Keys
      invariant bindings == MergedBindings(Visited(image, waiting), loaded)
      invariant assets == MergedAssets(Visited(image, waiting), loaded)
      invariant totalAssetBytes == TotalBytes(assets) <= MAX_TOTAL_ASSET_BYTES
      decreases |waiting|
    {
      var name :| name in waiting;
      var id := image.bindings[name];
      assert waiting - {name} + {name} == waiting;
      waiting := waiting - {name};
      if name !in bindings {
        assert id in image.assets by { assert id in image.bindings.Values; }
        assert name !in loaded.bindings by { NotOverridden(image, loaded, waiting, name); }
        NameVisited(image, loaded, waiting, name);
        bindings := bindings[name := id];
        if id !in assets {
          var asset := image.assets[id];
          TotalBytesInsert(assets, id, asset);
          if |asset.payload| > MAX_TOTAL_ASSET_BYTES - totalAssetBytes {
            MergeGrows(image, loaded, waiting);
            return Failure(OverBudget);
          }
          totalAssetBytes := totalAssetBytes + |asset.payload|;
          assets := assets[id := asset];
        }
      } else {
        assert name in loaded.bindings by { NotOverridden(image, loaded, waiting, name); }
        NameOverridden(image, loaded, waiting, name);
      }
    }
    assert Visited(image, {}) == image by {
      assert Visited(image, {}).bindings == image.bindings;
    }
    var updated := Image(image.sources, image.constants, bindings, assets);
    if crate.accepts(updated) {
      return Success(updated);
    }
    return Failure(ImageRejected);
  }
}
