/** The single list of uploads that does the work of two overrides in a row. */
module BufferComposition {
  import opened Wrappers
  import opened BufferOverrides

  ghost predicate Named(uploads: seq<Upload>, name: Option<BufferName>) {
    exists i :: 0 <= i < |uploads| && uploads[i].name == name
  }

  /** The uploads whose names a second list does not use. */
  ghost function Unmentioned(first: seq<Upload>, second: seq<Upload>): seq<Upload> {
    if first == [] then []
    else
      var before, last := Unmentioned(first[..|first| - 1], second), first[|first| - 1];
      if Named(second, last.name) then before else before + [last]
  }

  /** A updated by B: the uploads of the first that the second does not replace, then
      those of the second. */
  ghost function Combined(first: seq<Upload>, second: seq<Upload>): seq<Upload> {
    Unmentioned(first, second) + second
  }

  lemma {:induction false} UnmentionedKeeps(crate: ProjectCrate, first: seq<Upload>, second: seq<Upload>)
    requires AllUsable(crate, first)
    ensures var kept := Unmentioned(first, second);
      && AllUsable(crate, kept)
      && (forall k :: 0 <= k < |kept| ==> Named(first, kept[k].name) && !Named(second, kept[k].name))
  {
    hide Usable;
    if first != [] {
      var n := |first| - 1;
      UnmentionedKeeps(crate, first[..n], second);
      var before := Unmentioned(first[..n], second);
      forall k | 0 <= k < |before| ensures Named(first, before[k].name) {
        var i :| 0 <= i < n && first[..n][i].name == before[k].name;
        assert first[i].name == before[k].name;
      }
      assert Named(first, first[n].name);
    }
  }

  lemma {:induction false} UnmentionedDistinct(crate: ProjectCrate, first: seq<Upload>, second: seq<Upload>)
    requires AllUsable(crate, first) && DistinctNames(first)
    ensures DistinctNames(Unmentioned(first, second))
  {
    hide Usable;
    if first != [] {
      var n := |first| - 1;
      UnmentionedDistinct(crate, first[..n], second);
      UnmentionedKeeps(crate, first[..n], second);
      var before := Unmentioned(first[..n], second);
      forall k | 0 <= k < |before| ensures before[k].name != first[n].name {
        var i :| 0 <= i < n && first[..n][i].name == before[k].name;
        assert first[i].name == before[k].name;
      }
    }
  }

  lemma {:induction false} UnmentionedBindings(crate: ProjectCrate, first: seq<Upload>, second: seq<Upload>)
    requires AllUsable(crate, first)
    ensures AllUsable(crate, Unmentioned(first, second))
    ensures forall name :: name in Bindings(crate, Unmentioned(first, second)) <==>
      name in Bindings(crate, first) && !Named(second, Some(name))
    ensures forall name :: name in Bindings(crate, Unmentioned(first, second)) ==>
      Bindings(crate, Unmentioned(first, second))[name] == Bindings(crate, first)[name]
  {
    hide IdOfUpload, Named;
    UnmentionedKeeps(crate, first, second);
    if first != [] {
      var n := |first| - 1;
      UnmentionedBindings(crate, first[..n], second);
      var before, last := Unmentioned(first[..n], second), first[n];
      assert (before + [last])[..|before|] == before;
      assert last.name == Some(last.name.value);
    }
  }

  lemma {:induction false} BindingsConcat(crate: ProjectCrate, a: seq<Upload>, b: seq<Upload>)
    requires AllUsable(crate, a) && AllUsable(crate, b)
    ensures AllUsable(crate, a + b)
    ensures Bindings(crate, a + b) == Bindings(crate, a) + Bindings(crate, b)
  {
    hide Usable, IdOfUpload;
    if b == [] {
      assert a + b == a;
    } else {
      var n := |b| - 1;
      assert (a + b)[..|a + b| - 1] == a + b[..n] && (a + b)[|a + b| - 1] == b[n];
      BindingsConcat(crate, a, b[..n]);
    }
  }

  lemma CombinedBindings(crate: ProjectCrate, first: seq<Upload>, second: seq<Upload>)
    requires AllUsable(crate, first) && AllUsable(crate, second)
    ensures AllUsable(crate, Combined(first, second))
    ensures Bindings(crate, Combined(first, second)) == Bindings(crate, first) + Bindings(crate, second)
  {
    hide Usable, Bindings;
    UnmentionedBindings(crate, first, second);
    BindingsConcat(crate, Unmentioned(first, second), second);
    NamedIffBound(crate, second);
  }

  lemma NamedIffBound(crate: ProjectCrate, uploads: seq<Upload>)
    requires AllUsable(crate, uploads)
    ensures forall name :: name in Bindings(crate, uploads) <==> Named(uploads, Some(name))
  {
    BindingsNames(crate, uploads);
  }

  lemma CombinedDistinct(crate: ProjectCrate, first: seq<Upload>, second: seq<Upload>)
    requires AllUsable(crate, first) && DistinctNames(first) && DistinctNames(second)
    ensures DistinctNames(Combined(first, second))
  {
    UnmentionedKeeps(crate, first, second);
    UnmentionedDistinct(crate, first, second);
    var kept, both := Unmentioned(first, second), Combined(first, second);
    forall i, j | 0 <= i < j < |both| ensures both[i].name != both[j].name {
      if i < |kept| <= j {
        assert both[j] == second[j - |kept|];
        assert !Named(second, kept[i].name);
      }
    }
  }

  /** What was read has each name once, and binds what was uploaded. */
  lemma {:induction false} ReadBindings(crate: ProjectCrate, uploads: seq<Upload>)
    requires AllUsable(crate, uploads) && ReadAll(crate, uploads).Success?
    ensures DistinctNames(uploads) && ReadAll(crate, uploads).value.bindings == Bindings(crate, uploads)
  {
    if uploads != [] {
      var n := |uploads| - 1;
      ReadBindings(crate, uploads[..n]);
      BindingsNames(crate, uploads[..n]);
      forall i | 0 <= i < n ensures uploads[i].name != uploads[n].name {
        assert uploads[..n][i].name == Some(uploads[i].name.value);
      }
      assert forall i :: 0 <= i < n ==> uploads[..n][i] == uploads[i];
    }
  }

  /** The distinct assets of a list are those its names are bound to. */
  lemma {:induction false} GatheredSound(crate: ProjectCrate, uploads: seq<Upload>)
    requires crate.Lawful() && AllUsable(crate, uploads) && DistinctNames(uploads)
    ensures crate.Addressed(Gathered(crate, uploads))
    ensures forall id :: id in Gathered(crate, uploads) ==> id in Bindings(crate, uploads).Values
  {
    if uploads != [] {
      var n := |uploads| - 1;
      GatheredSound(crate, uploads[..n]);
      LastNameIsNew(crate, uploads);
      var name, id := uploads[n].name.value, IdOfUpload(crate, uploads[n]);
      ValuesAfter(Bindings(crate, uploads[..n]), name, id);
    }
  }

  /** Reading the combined list stays within the budget of the image it leads to. */
  lemma CombinedFits(crate: ProjectCrate, uploads: seq<Upload>, final: Image)
    requires crate.Lawful() && AllUsable(crate, uploads) && DistinctNames(uploads) && crate.SoundImage(final)
    requires Binds(final.bindings, Bindings(crate, uploads))
    ensures TotalBytes(Gathered(crate, uploads)) <= MAX_TOTAL_ASSET_BYTES
    ensures ReadAll(crate, uploads).Success? && ReadAll(crate, uploads).value.bindings == Bindings(crate, uploads)
  {
    hide TotalBytes, ReadAll, Gathered, Bindings, ProjectCrate.Lawful;
    GatheredSound(crate, uploads);
    var gathered := Gathered(crate, uploads);
    forall id | id in gathered ensures id in final.assets && final.assets[id] == gathered[id] {
      var name :| name in Bindings(crate, uploads) && Bindings(crate, uploads)[name] == id;
      assert final.bindings[name] in final.bindings.Values;
      SameAddress(crate, final.assets[id], gathered[id]);
    }
    TotalBytesMonotone(gathered, final.assets);
    BudgetIsExact(crate, uploads);
  }

  lemma SameAddress(crate: ProjectCrate, a: Asset, b: Asset)
    requires crate.Lawful() && crate.idOf(a) == crate.idOf(b)
    ensures a == b
  {
  }

  /** What two overrides in a row read, and where they lead. */
  lemma TwiceOverridden(crate: ProjectCrate, image: Image, first: seq<Upload>, second: seq<Upload>)
    requires crate.Lawful() && crate.SoundImage(image)
    requires AllUsable(crate, first) && AllUsable(crate, second)
    requires OverrideResult(crate, image, first).Success?
    requires OverrideResult(crate, OverrideResult(crate, image, first).value, second).Success?
    ensures ReadResult(crate, first).Success? && ReadResult(crate, second).Success?
    ensures ReadResult(crate, first).value.bindings == Bindings(crate, first)
    ensures ReadResult(crate, second).value.bindings == Bindings(crate, second)
    ensures DistinctNames(first) && DistinctNames(second)
    ensures var final := OverrideResult(crate, OverrideResult(crate, image, first).value, second).value;
      && crate.SoundImage(final)
      && Binds(final.bindings, Bindings(crate, first) + Bindings(crate, second))
  {
    hide ProjectCrate.Lawful, ProjectCrate.SoundImage, ReadAll, Bindings, AllUsable, DistinctNames, MergedAssets, TotalBytes;
    ReadBindings(crate, first);
    ReadBindings(crate, second);
    OverrideIsPrecise(crate, image, first);
    OverrideIsPrecise(crate, OverrideResult(crate, image, first).value, second);
  }

  ghost predicate Binds(bindings: map<BufferName, AssetId>, some: map<BufferName, AssetId>) {
    forall name :: name in some ==> name in bindings && bindings[name] == some[name]
  }

  /** Overriding with A and then with B is overriding once with A updated by B, as a list
      of uploads, unless that list has more entries than one call takes. */
  lemma OneListDoes(crate: ProjectCrate, image: Image, first: seq<Upload>, second: seq<Upload>)
    requires crate.Lawful() && crate.SoundImage(image)
    requires AllUsable(crate, first) && AllUsable(crate, second)
    requires OverrideResult(crate, image, first).Success?
    requires OverrideResult(crate, OverrideResult(crate, image, first).value, second).Success?
    ensures OverrideResult(crate, image, Combined(first, second)) ==
      if |Combined(first, second)| > MAX_BUFFER_BINDINGS then Failure(TooManyBuffers)
      else OverrideResult(crate, OverrideResult(crate, image, first).value, second)
  {
    hide AllUsable, DistinctNames, ReadAll, Bindings, Combined, ProjectCrate.Lawful, ProjectCrate.SoundImage, Binds, MergedImage;
    TwiceOverridden(crate, image, first, second);
    CombinedBindings(crate, first, second);
    CombinedDistinct(crate, first, second);
    CombinedFits(crate, Combined(first, second), OverrideResult(crate, OverrideResult(crate, image, first).value, second).value);
    hide OverrideResult;
    if |Combined(first, second)| <= MAX_BUFFER_BINDINGS {
      OverridesCompose(crate, image, first, second, Combined(first, second));
    } else {
      TooMany(crate, image, Combined(first, second));
    }
  }

  lemma TooMany(crate: ProjectCrate, image: Image, uploads: seq<Upload>)
    requires |uploads| > MAX_BUFFER_BINDINGS
    ensures OverrideResult(crate, image, uploads) == Failure(TooManyBuffers)
  {
  }
}
