/** Portable archive paths and the collision check shared by writer and reader. */
module ArchivePaths {
  import opened Wrappers
  import opened Bytes
  import opened Text
  import Sorting

  const MAX_PATH_BYTES := 16 * 1024
  const MAX_PATH_COMPONENT_BYTES := 255

  /** The Unicode services of the JavaScript runtime that the archive code calls:
      NFC normalization, the caseless collision key, and the collation order. */
  datatype Unicode = Unicode(nfc: Str -> Str, collisionKey: Str -> Str, collatesBefore: (Str, Str) -> bool)

  /** `String.prototype.split("/")`. */
  function Components(path: Str): (parts: seq<Str>)
    ensures parts != []
  {
    ComponentsFrom(path, [])
  }

  function ComponentsFrom(path: Str, current: Str): (parts: seq<Str>)
    ensures parts != []
  {
    if path == [] then [current]
    else if path[0] == SLASH then [current] + ComponentsFrom(path[1..], [])
    else ComponentsFrom(path[1..], current + [path[0]])
  }

  predicate IsLetter(u: CodeUnit) { 0x41 <= u <= 0x5A || 0x61 <= u <= 0x7A }

  predicate PortableComponent(part: Str) {
    part != [] && part != [DOT] && part != [DOT, DOT] && |Encode(part)| <= MAX_PATH_COMPONENT_BYTES
  }

  predicate PortablePath(unicode: Unicode, path: Str) {
    && path != []
    && |Encode(path)| <= MAX_PATH_BYTES
    && unicode.nfc(path) == path
    && path[0] != SLASH
    && BACKSLASH !in path
    && !(|path| >= 2 && IsLetter(path[0]) && path[1] == COLON)
    && forall part :: part in Components(path) ==> PortableComponent(part)
  }

  /** A registered path: its collision key, and whether it names a directory. */
  datatype Entry = Entry(key: Str, directory: bool)

  /** `inner` lies below `outer` in the directory tree. */
  predicate Below(inner: Str, outer: Str) {
    |outer| < |inner| && inner[..|outer|] == outer && inner[|outer|] == SLASH
  }

  /** Two entries can share an archive: distinct keys, and only directories have
      anything below them. */
  ghost predicate Compatible(a: Entry, b: Entry) {
    && a.key != b.key
    && (Below(b.key, a.key) ==> a.directory)
    && (Below(a.key, b.key) ==> b.directory)
  }

  ghost predicate CollisionFree(entries: seq<Entry>) {
    forall i, j :: 0 <= i < j < |entries| ==> Compatible(entries[i], entries[j])
  }

  /** What the registered map must not contain for a new entry to be accepted. */
  ghost predicate Admits(paths: map<Str, bool>, entry: Entry) {
    forall key :: key in paths ==> Compatible(Entry(key, paths[key]), entry)
  }

  /** Registering entries in order; None once one is refused. */
  ghost function RegisterAll(entries: seq<Entry>): Option<map<Str, bool>> {
    if entries == [] then Some(map[])
    else
      var last := |entries| - 1;
      match RegisterAll(entries[..last])
      case None => None
      case Some(paths) =>
        if Admits(paths, entries[last]) then Some(paths[entries[last].key := entries[last].directory]) else None
  }

  /** The `Map` of collision keys that writer and reader fill. */
  class PathRegistry {
    var paths: map<Str, bool>

    constructor ()
      ensures paths == map[]
    {
      paths := map[];
    }

    /** `registerArchivePath`: accepts the path exactly when the entries already
        registered admit it, and leaves the map alone otherwise. */
    method Register(unicode: Unicode, path: Str, directory: bool) returns (accepted: bool)
      modifies this
      ensures accepted <==> Admits(old(paths), Entry(unicode.collisionKey(path), directory))
      ensures paths == if accepted then old(paths)[unicode.collisionKey(path) := directory] else old(paths)
    {
      var key := unicode.collisionKey(path);
      ghost var entry := Entry(key, directory);
      if key in paths {
        assert !Compatible(Entry(key, paths[key]), entry);
        return false;
      }
      var separator := IndexOf(key, SLASH, 0);
      while separator < |key|
        invariant separator <= |key| && (separator < |key| ==> key[separator] == SLASH)
        invariant forall other :: other in paths && Below(key, other) && |other| < separator ==> paths[other]
        decreases |key| - separator
      {
        var ancestor := key[..separator];
        if ancestor in paths && !paths[ancestor] {
          assert Below(key, ancestor) && !Compatible(Entry(ancestor, false), entry);
          return false;
        }
        var next := IndexOf(key, SLASH, separator + 1);
        forall other | other in paths && Below(key, other) && |other| < next
          ensures paths[other]
        {
          assert other == key[..|other|] && key[|other|] == SLASH;
          assert |other| <= separator;
        }
        separator := next;
      }
      assert forall other :: other in paths && Below(key, other) ==> paths[other];
      if !directory {
        if exists existing :: existing in paths && Below(existing, key) {
          ghost var existing :| existing in paths && Below(existing, key);
          assert !Compatible(Entry(existing, paths[existing]), entry);
          return false;
        }
      }
      paths := paths[key := directory];
      return true;
    }
  }

  /** `indexOf(unit, from)`, with the length in place of -1. */
  function IndexOf(s: Str, unit: CodeUnit, from: nat): (at: nat)
    requires from <= |s|
    ensures from <= at <= |s|
    ensures at < |s| ==> s[at] == unit
    ensures forall i :: from <= i < at ==> s[i] != unit
    decreases |s| - from
  {
    if from == |s| || s[from] == unit then from else IndexOf(s, unit, from + 1)
  }

  /** The registry holds exactly the entries registered so far. */
  lemma {:induction false} RegisterAllContents(entries: seq<Entry>)
    requires RegisterAll(entries).Some?
    ensures forall key :: key in RegisterAll(entries).value ==> Entry(key, RegisterAll(entries).value[key]) in entries
    ensures forall entry :: entry in entries ==> entry.key in RegisterAll(entries).value && RegisterAll(entries).value[entry.key] == entry.directory
  {
    if entries != [] {
      var last := |entries| - 1;
      RegisterAllContents(entries[..last]);
      var paths := RegisterAll(entries[..last]).value;
      assert Admits(paths, entries[last]);
      assert entries[last].key !in paths;
      assert entries == entries[..last] + [entries[last]];
    }
  }

  ghost predicate CompatibleWithAll(entries: seq<Entry>, entry: Entry) {
    forall i :: 0 <= i < |entries| ==> Compatible(entries[i], entry)
  }

  lemma CollisionFreeSnoc(entries: seq<Entry>, entry: Entry)
    ensures CollisionFree(entries + [entry]) <==> CollisionFree(entries) && CompatibleWithAll(entries, entry)
  {
    var all := entries + [entry];
    if CollisionFree(all) {
      forall i, j | 0 <= i < j < |entries|
        ensures Compatible(entries[i], entries[j])
      {
        assert entries[i] == all[i] && entries[j] == all[j];
      }
      forall i | 0 <= i < |entries|
        ensures Compatible(entries[i], entry)
      {
        assert entries[i] == all[i] && entry == all[|entries|];
      }
    }
  }

  /** A whole sequence is accepted exactly when its entries are pairwise
      compatible: distinct keys, and no file above another entry. */
  lemma {:induction false} AcceptedIffCollisionFree(entries: seq<Entry>)
    ensures RegisterAll(entries).Some? <==> CollisionFree(entries)
  {
    if entries != [] {
      var last := |entries| - 1;
      var earlier := entries[..last];
      AcceptedIffCollisionFree(earlier);
      CollisionFreeSnoc(earlier, entries[last]);
      assert entries == earlier + [entries[last]];
      if RegisterAll(earlier).Some? {
        AdmitsIffCompatible(earlier, entries[last]);
      }
    }
  }

  lemma AdmitsIffCompatible(entries: seq<Entry>, entry: Entry)
    requires RegisterAll(entries).Some?
    ensures Admits(RegisterAll(entries).value, entry) <==> CompatibleWithAll(entries, entry)
  {
    var paths := RegisterAll(entries).value;
    RegisterAllContents(entries);
    if Admits(paths, entry) {
      forall i | 0 <= i < |entries|
        ensures Compatible(entries[i], entry)
      {
        assert entries[i] in entries;
        assert Compatible(Entry(entries[i].key, paths[entries[i].key]), entry);
      }
    }
  }

  /** Path acceptance does not depend on the order of registration. */
  lemma AcceptanceIsOrderIndependent(entries: seq<Entry>, permuted: seq<Entry>)
    requires multiset(entries) == multiset(permuted)
    ensures RegisterAll(entries).Some? <==> RegisterAll(permuted).Some?
  {
    AcceptedIffCollisionFree(entries);
    AcceptedIffCollisionFree(permuted);
    if CollisionFree(entries) {
      CollisionFreePermuted(entries, permuted);
    }
    if CollisionFree(permuted) {
      CollisionFreePermuted(permuted, entries);
    }
  }

  lemma CollisionFreePermuted(entries: seq<Entry>, permuted: seq<Entry>)
    requires multiset(entries) == multiset(permuted) && CollisionFree(entries)
    ensures CollisionFree(permuted)
  {
    forall i, j | 0 <= i < j < |entries|
      ensures entries[i] != entries[j]
    {
      assert Compatible(entries[i], entries[j]);
    }
    Sorting.NoDuplicatesFromMultiset(entries, permuted);
    forall i, j | 0 <= i < j < |permuted|
      ensures Compatible(permuted[i], permuted[j])
    {
      assert permuted[i] in multiset(entries) && permuted[j] in multiset(entries);
      var k :| 0 <= k < |entries| && entries[k] == permuted[i];
      var l :| 0 <= l < |entries| && entries[l] == permuted[j];
      if k < l {
        assert Compatible(entries[k], entries[l]);
      } else {
        assert Compatible(entries[l], entries[k]);
      }
    }
  }
}
