/** What a portable path looks like, code unit by code unit. */
module PathShape {
  import opened Bytes
  import opened Text
  import opened ArchivePaths

  // ------------------------------------------------------------ splitting at slashes

  function Join(parts: seq<Str>): Str
    requires parts != []
  {
    if |parts| == 1 then parts[0] else parts[0] + [0x2F] + Join(parts[1..])
  }

  lemma {:induction false} ComponentsFromJoin(path: Str, current: Str)
    requires 0x2F !in current
    ensures Join(ComponentsFrom(path, current)) == current + path
    ensures forall part :: part in ComponentsFrom(path, current) ==> 0x2F !in part
  {
    if path == [] {
      assert current + path == current;
    } else if path[0] == SLASH {
      ComponentsFromJoin(path[1..], []);
      var parts := ComponentsFrom(path, current);
      assert parts[1..] == ComponentsFrom(path[1..], []);
      assert current + path == current + [0x2F] + ([] + path[1..]);
    } else {
      ComponentsFromJoin(path[1..], current + [path[0]]);
      assert current + path == current + [path[0]] + path[1..];
    }
  }

  /** The components are what the slashes separate: joined by slashes they are the path
      again, and none contains a slash. */
  lemma ComponentsJoin(path: Str)
    ensures Join(Components(path)) == path
    ensures forall part :: part in Components(path) ==> 0x2F !in part
  {
    ComponentsFromJoin(path, []);
    assert [] + path == path;
  }

  /** From i to j the path has no slash, and it is cut off by slashes or its ends. */
  predicate Stretch(path: Str, i: nat, j: nat) {
    && i <= j <= |path|
    && (i == 0 || path[i - 1] == 0x2F)
    && (j == |path| || path[j] == 0x2F)
    && (forall k :: i <= k < j ==> path[k] != 0x2F)
  }

  /** A stretch from some position on with the given text. */
  ghost predicate StretchFrom(path: Str, from: nat, part: Str) {
    exists i: nat, j: nat :: from <= i && Stretch(path, i, j) && path[i..j] == part
  }

  /** Splitting the rest of a path, in the middle of a stretch that began at i. */
  lemma {:induction false} PartsAreStretches(path: Str, i: nat, k: nat, part: Str)
    requires i <= k <= |path| && (i == 0 || path[i - 1] == 0x2F)
    requires forall l :: i <= l < k ==> path[l] != 0x2F
    ensures part in ComponentsFrom(path[k..], path[i..k]) <==> StretchFrom(path, i, part)
    decreases |path| - k
  {
    var rest, current := path[k..], path[i..k];
    if k == |path| {
      OnlyStretch(path, i, k, part);
    } else if path[k] == 0x2F {
      assert rest[1..] == path[k + 1..] && path[k + 1..k + 1] == [];
      PartsAreStretches(path, k + 1, k + 1, part);
      FirstStretch(path, i, k, part);
    } else {
      assert rest[1..] == path[k + 1..] && current + [rest[0]] == path[i..k + 1];
      PartsAreStretches(path, i, k + 1, part);
    }
  }

  lemma OnlyStretch(path: Str, i: nat, k: nat, part: Str)
    requires i <= k == |path| && (i == 0 || path[i - 1] == 0x2F)
    requires forall l :: i <= l < k ==> path[l] != 0x2F
    ensures part == path[i..k] <==> StretchFrom(path, i, part)
  {
    assert Stretch(path, i, k);
    if StretchFrom(path, i, part) {
      var a: nat, b: nat :| i <= a && Stretch(path, a, b) && path[a..b] == part;
      assert a == i && b == k;
    }
  }

  lemma FirstStretch(path: Str, i: nat, k: nat, part: Str)
    requires i <= k < |path| && path[k] == 0x2F && (i == 0 || path[i - 1] == 0x2F)
    requires forall l :: i <= l < k ==> path[l] != 0x2F
    ensures StretchFrom(path, i, part) <==> part == path[i..k] || StretchFrom(path, k + 1, part)
  {
    assert Stretch(path, i, k);
    if StretchFrom(path, i, part) && !StretchFrom(path, k + 1, part) {
      var a: nat, b: nat :| i <= a && Stretch(path, a, b) && path[a..b] == part;
      assert a <= k;
      assert a == i && b == k;
    }
    if StretchFrom(path, k + 1, part) {
      var a: nat, b: nat :| k + 1 <= a && Stretch(path, a, b) && path[a..b] == part;
      assert i <= a;
    }
  }

  lemma ComponentIffStretch(path: Str, part: Str)
    ensures part in Components(path) <==> StretchFrom(path, 0, part)
  {
    PartsAreStretches(path, 0, 0, part);
    assert path[0..] == path && path[0..0] == [];
  }

  // ------------------------------------------------------------ portable paths

  /** No leading, trailing or doubled slash. */
  predicate SlashesApart(path: Str) {
    && path != [] && path[0] != 0x2F && path[|path| - 1] != 0x2F
    && forall i :: 0 <= i < |path| - 1 ==> !(path[i] == 0x2F && path[i + 1] == 0x2F)
  }

  /** A stretch is neither "." nor ".." and takes at most 255 bytes. */
  predicate StretchAllowed(path: Str, i: nat, j: nat)
    requires i <= j <= |path|
  {
    && path[i..j] != [0x2E] && path[i..j] != [0x2E, 0x2E]
    && |Encode(path[i..j])| <= 255
  }

  /** A letter and a colon in front. */
  predicate HasDrive(path: Str) {
    |path| >= 2 && path[1] == 0x3A && (0x41 <= path[0] <= 0x5A || 0x61 <= path[0] <= 0x7A)
  }

  /** A path with nothing in it that could lead elsewhere: slashes apart, no stretch that
      is a dot or two, no backslash, no drive, everything within its length and in
      normal form. */
  ghost predicate Plain(unicode: Unicode, path: Str) {
    && SlashesApart(path)
    && (forall i: nat, j: nat :: Stretch(path, i, j) ==> StretchAllowed(path, i, j))
    && 0x5C !in path
    && !HasDrive(path)
    && |Encode(path)| <= 16384
    && unicode.nfc(path) == path
  }

  /** No stretch is empty exactly when the slashes are apart. */
  lemma EmptyStretches(path: Str)
    ensures (forall i: nat, j: nat :: Stretch(path, i, j) ==> path[i..j] != []) <==> SlashesApart(path)
  {
    if !SlashesApart(path) {
      if path == [] || path[0] == 0x2F {
        assert Stretch(path, 0, 0);
      } else if path[|path| - 1] == 0x2F {
        assert Stretch(path, |path|, |path|);
      } else {
        var i :| 0 <= i < |path| - 1 && path[i] == 0x2F && path[i + 1] == 0x2F;
        assert Stretch(path, i + 1, i + 1);
      }
    }
  }

  lemma PartsAllowed(path: Str)
    ensures (forall part :: part in Components(path) ==> PortableComponent(part)) <==>
      SlashesApart(path) && forall i: nat, j: nat :: Stretch(path, i, j) ==> StretchAllowed(path, i, j)
  {
    hide Components, SlashesApart, Encode, Stretch;
    EmptyStretches(path);
    forall part ensures part in Components(path) <==> StretchFrom(path, 0, part) {
      ComponentIffStretch(path, part);
    }
    if forall part :: part in Components(path) ==> PortableComponent(part) {
      forall i: nat, j: nat | Stretch(path, i, j) ensures i <= j <= |path| && path[i..j] != [] && StretchAllowed(path, i, j) {
        StretchBounds(path, i, j);
        assert StretchFrom(path, 0, path[i..j]);
      }
    }
  }

  lemma StretchBounds(path: Str, i: nat, j: nat)
    requires Stretch(path, i, j)
    ensures i <= j <= |path|
  {
  }

  /** The paths the archive code calls portable are exactly the plain ones. */
  lemma PortableIffPlain(unicode: Unicode, path: Str)
    ensures PortablePath(unicode, path) <==> Plain(unicode, path)
  {
    hide Components, PortableComponent, Encode, Stretch, StretchAllowed;
    PartsAllowed(path);
  }
}
