/** JavaScript strings (sequences of UTF-16 code units), `TextEncoder`, and the
    fatal `TextDecoder` that drops one leading byte-order mark. */
module Text {
  import opened Wrappers
  import opened Bytes

  type CodeUnit = u: nat | u < 0x1_0000
  type Str = seq<CodeUnit>

  /** A Unicode scalar value: a code point that is not a surrogate. */
  type Scalar = c: nat | c < 0x11_0000 && !(0xD800 <= c < 0xE000)

  const SLASH: CodeUnit := 0x2F
  const BACKSLASH: CodeUnit := 0x5C
  const COLON: CodeUnit := 0x3A
  const DOT: CodeUnit := 0x2E
  const REPLACEMENT: Scalar := 0xFFFD
  const BYTE_ORDER_MARK: Scalar := 0xFEFF

  predicate IsHigh(u: CodeUnit) { 0xD800 <= u < 0xDC00 }
  predicate IsLow(u: CodeUnit) { 0xDC00 <= u < 0xE000 }

  /** The scalar value of a surrogate pair. */
  function Combine(high: CodeUnit, low: CodeUnit): (c: Scalar)
    requires IsHigh(high) && IsLow(low)
    ensures c >= 0x1_0000
  {
    0x1_0000 + (high as int - 0xD800) * 0x400 + (low as int - 0xDC00)
  }

  /** No code unit is a surrogate outside a high-low pair. */
  ghost predicate WellFormed(s: Str) {
    && (forall i :: 0 <= i < |s| && IsHigh(s[i]) ==> i + 1 < |s| && IsLow(s[i + 1]))
    && (forall i :: 0 <= i < |s| && IsLow(s[i]) ==> 0 < i && IsHigh(s[i - 1]))
  }

  /** The strings that survive encoding followed by decoding. */
  ghost predicate Lossless(s: Str) {
    WellFormed(s) && !(|s| > 0 && s[0] == BYTE_ORDER_MARK)
  }

  /** The scalar values of a string; a lone surrogate reads as U+FFFD. */
  function Scalars(s: Str): seq<Scalar> {
    if s == [] then []
    else if IsHigh(s[0]) && |s| > 1 && IsLow(s[1]) then
      [Combine(s[0], s[1])] + Scalars(s[2..])
    else if IsHigh(s[0]) || IsLow(s[0]) then [REPLACEMENT] + Scalars(s[1..])
    else [s[0]] + Scalars(s[1..])
  }

  function Units(c: Scalar): (s: Str)
    ensures 1 <= |s| <= 2
    ensures Scalars(s) == [c]
  {
    if c < 0x1_0000 then
      var s: Str := [c];
      assert Scalars(s) == [c] + Scalars(s[1..]);
      s
    else
      var s: Str := [0xD800 + (c - 0x1_0000) / 0x400, 0xDC00 + (c - 0x1_0000) % 0x400];
      assert Scalars(s) == [c] + Scalars(s[2..]);
      s
  }

  function FromScalars(cs: seq<Scalar>): Str {
    if cs == [] then [] else Units(cs[0]) + FromScalars(cs[1..])
  }

  function ThreeBytes(x: nat, y: nat, z: nat): (bytes: seq<byte>)
    requires x < 16 && y < 64 && z < 64
  {
    [0xE0 + x, 0x80 + y, 0x80 + z]
  }

  function FourBytes(w: nat, x: nat, y: nat, z: nat): (bytes: seq<byte>)
    requires w < 5 && x < 64 && y < 64 && z < 64
  {
    [0xF0 + w, 0x80 + x, 0x80 + y, 0x80 + z]
  }

  /** The UTF-8 form of one scalar value. */
  function EncodeScalar(c: Scalar): (bytes: seq<byte>)
    ensures 1 <= |bytes| <= 4
  {
    if c < 0x80 then [c]
    else if c < 0x800 then [0xC0 + c / 64, 0x80 + c % 64]
    else if c < 0x1_0000 then ThreeBytes(c / 4096, c / 64 % 64, c % 64)
    else FourBytes(c / 262144, c / 4096 % 64, c / 64 % 64, c % 64)
  }

  function EncodeScalars(cs: seq<Scalar>): seq<byte> {
    if cs == [] then [] else EncodeScalar(cs[0]) + EncodeScalars(cs[1..])
  }

  /** `TextEncoder.encode`. */
  function Encode(s: Str): seq<byte> {
    EncodeScalars(Scalars(s))
  }

  predicate Continues(bytes: seq<byte>, i: nat) {
    i < |bytes| && 0x80 <= Val(bytes[i]) < 0xC0
  }

  /** The first well-formed UTF-8 sequence of a string and its length
      (table 3-7 of the Unicode Standard: no overlong forms, no surrogates). */
  function DecodeScalar(bytes: seq<byte>): (r: Option<(Scalar, nat)>)
    requires bytes != []
    ensures r.Some? ==> 1 <= r.value.1 <= |bytes|
  {
    var b := Val(bytes[0]);
    if b < 0x80 then Some((b, 1))
    else if 0xC2 <= b < 0xE0 && Continues(bytes, 1) then
      Some(((b - 0xC0) * 64 + (Val(bytes[1]) - 0x80), 2))
    else if 0xE0 <= b < 0xF0 && Continues(bytes, 1) && Continues(bytes, 2)
      && (b == 0xE0 ==> 0xA0 <= Val(bytes[1])) && (b == 0xED ==> Val(bytes[1]) < 0xA0) then
      Some(((b - 0xE0) * 4096 + (Val(bytes[1]) - 0x80) * 64 + (Val(bytes[2]) - 0x80), 3))
    else if 0xF0 <= b < 0xF5 && Continues(bytes, 1) && Continues(bytes, 2) && Continues(bytes, 3)
      && (b == 0xF0 ==> 0x90 <= Val(bytes[1])) && (b == 0xF4 ==> Val(bytes[1]) < 0x90) then
      Some(((b - 0xF0) * 262144 + (Val(bytes[1]) - 0x80) * 4096 + (Val(bytes[2]) - 0x80) * 64 + (Val(bytes[3]) - 0x80), 4))
    else None
  }

  function DecodeScalars(bytes: seq<byte>): Option<seq<Scalar>>
    decreases |bytes|
  {
    if bytes == [] then Some([])
    else
      match DecodeScalar(bytes)
      case None => None
      case Some(first) =>
        match DecodeScalars(bytes[first.1..])
        case None => None
        case Some(rest) => Some([first.0] + rest)
  }

  function StripMark(cs: seq<Scalar>): seq<Scalar> {
    if cs != [] && cs[0] == BYTE_ORDER_MARK then cs[1..] else cs
  }

  /** `TextDecoder("utf-8", { fatal: true }).decode`: None where it throws. */
  function Decode(bytes: seq<byte>): Option<Str> {
    match DecodeScalars(bytes)
    case None => None
    case Some(cs) => Some(FromScalars(StripMark(cs)))
  }

  /** What a string becomes when it is encoded and decoded again. */
  function Clean(s: Str): Str {
    FromScalars(StripMark(Scalars(s)))
  }

  /** Splitting a number into its base-64 digits. */
  lemma Base64Digits(c: nat)
    ensures c == c / 64 * 64 + c % 64
    ensures c / 64 == c / 4096 * 64 + c / 64 % 64
    ensures c / 4096 == c / 262144 * 64 + c / 4096 % 64
    ensures c == c / 4096 * 4096 + c / 64 % 64 * 64 + c % 64
    ensures c == c / 262144 * 262144 + c / 4096 % 64 * 4096 + c / 64 % 64 * 64 + c % 64
  {
    assert c / 64 / 64 == c / 4096;
    assert c / 4096 / 64 == c / 262144;
  }

  lemma DecodeTwo(bytes: seq<byte>, c: Scalar)
    requires 0x80 <= c < 0x800 && |bytes| >= 2
    requires bytes[0] == 0xC0 + c / 64 && bytes[1] == 0x80 + c % 64
    ensures DecodeScalar(bytes) == Some((c, 2))
  {
  }

  lemma DecodeThree(c: Scalar, x: nat, y: nat, z: nat, rest: seq<byte>)
    requires 0x800 <= c < 0x1_0000
    requires c == x * 4096 + y * 64 + z && x < 16 && y < 64 && z < 64
    ensures DecodeScalar(ThreeBytes(x, y, z) + rest) == Some((c, 3))
  {
    var e, bytes := ThreeBytes(x, y, z), ThreeBytes(x, y, z) + rest;
    assert bytes[0] == e[0] && bytes[1] == e[1] && bytes[2] == e[2];
  }

  lemma DecodeFour(c: Scalar, w: nat, x: nat, y: nat, z: nat, rest: seq<byte>)
    requires 0x1_0000 <= c
    requires c == w * 262144 + x * 4096 + y * 64 + z && w < 5 && x < 64 && y < 64 && z < 64
    ensures DecodeScalar(FourBytes(w, x, y, z) + rest) == Some((c, 4))
  {
    var e, bytes := FourBytes(w, x, y, z), FourBytes(w, x, y, z) + rest;
    assert bytes[0] == e[0] && bytes[1] == e[1] && bytes[2] == e[2] && bytes[3] == e[3];
  }

  lemma DecodeScalarInverts(c: Scalar, rest: seq<byte>)
    ensures DecodeScalar(EncodeScalar(c) + rest) == Some((c, |EncodeScalar(c)|))
  {
    var e, bytes := EncodeScalar(c), EncodeScalar(c) + rest;
    if c < 0x80 {
      assert bytes[0] == e[0];
    } else if c < 0x800 {
      assert bytes[0] == e[0] && bytes[1] == e[1];
      DecodeTwo(bytes, c);
    } else if c < 0x1_0000 {
      Base64Digits(c);
      DecodeThree(c, c / 4096, c / 64 % 64, c % 64, rest);
    } else {
      Base64Digits(c);
      DecodeFour(c, c / 262144, c / 4096 % 64, c / 64 % 64, c % 64, rest);
    }
  }

  lemma {:induction false} DecodeScalarsInverts(cs: seq<Scalar>)
    ensures DecodeScalars(EncodeScalars(cs)) == Some(cs)
  {
    hide EncodeScalar, DecodeScalar;
    if cs != [] {
      var e, rest := EncodeScalar(cs[0]), EncodeScalars(cs[1..]);
      DecodeScalarInverts(cs[0], rest);
      assert (e + rest)[|e|..] == rest;
      DecodeScalarsInverts(cs[1..]);
      assert cs == [cs[0]] + cs[1..];
    }
  }

  /** Decoding never fails on encoded text, and yields the cleaned string. */
  lemma DecodeEncode(s: Str)
    ensures Decode(Encode(s)) == Some(Clean(s))
  {
    DecodeScalarsInverts(Scalars(s));
  }

  lemma {:induction false} ScalarsFirst(c: Scalar, rest: Str)
    ensures Scalars(Units(c) + rest) == [c] + Scalars(rest)
  {
    var u := Units(c);
    var s := u + rest;
    if c < 0x1_0000 {
      assert s[1..] == rest && s[0] == c;
    } else {
      assert s[2..] == rest && s[0] == u[0] && s[1] == u[1];
    }
  }

  lemma {:induction false} ScalarsFromScalars(cs: seq<Scalar>)
    ensures Scalars(FromScalars(cs)) == cs
  {
    if cs != [] {
      ScalarsFirst(cs[0], FromScalars(cs[1..]));
      ScalarsFromScalars(cs[1..]);
    }
  }

  lemma {:induction false} FromScalarsWellFormed(cs: seq<Scalar>)
    ensures WellFormed(FromScalars(cs))
  {
    if cs != [] {
      var u, rest := Units(cs[0]), FromScalars(cs[1..]);
      FromScalarsWellFormed(cs[1..]);
      assert WellFormed(u);
      var s := u + rest;
      forall i | 0 <= i < |s| && IsHigh(s[i])
        ensures i + 1 < |s| && IsLow(s[i + 1])
      {
        if i < |u| { assert IsHigh(u[i]); } else { assert IsHigh(rest[i - |u|]); }
      }
      forall i | 0 <= i < |s| && IsLow(s[i])
        ensures 0 < i && IsHigh(s[i - 1])
      {
        if i < |u| { assert IsLow(u[i]); } else { assert IsLow(rest[i - |u|]); }
      }
    }
  }

  lemma WellFormedSuffix(s: Str, n: nat)
    requires WellFormed(s) && n <= |s| && (n == |s| || !IsLow(s[n]))
    ensures WellFormed(s[n..])
  {
    var rest := s[n..];
    forall i | 0 <= i < |rest| && IsHigh(rest[i])
      ensures i + 1 < |rest| && IsLow(rest[i + 1])
    {
      assert IsHigh(s[i + n]);
    }
    forall i | 0 <= i < |rest| && IsLow(rest[i])
      ensures 0 < i && IsHigh(rest[i - 1])
    {
      assert IsLow(s[i + n]);
      assert IsHigh(s[i + n - 1]);
    }
  }

  lemma UnitsOfPair(high: CodeUnit, low: CodeUnit)
    requires IsHigh(high) && IsLow(low)
    ensures Units(Combine(high, low)) == [high, low]
  {
    var offset := Combine(high, low) - 0x1_0000;
    assert offset == (high as int - 0xD800) * 0x400 + (low as int - 0xDC00);
    assert offset / 0x400 == high as int - 0xD800 && offset % 0x400 == low as int - 0xDC00;
  }

  lemma UnitsOfOne(u: CodeUnit)
    requires !IsHigh(u) && !IsLow(u)
    ensures Units(u) == [u]
  {
  }

  lemma {:induction false} FromScalarsScalars(s: Str)
    requires WellFormed(s)
    ensures FromScalars(Scalars(s)) == s
    decreases |s|
  {
    hide Units, Combine;
    if s == [] {
    } else if IsHigh(s[0]) {
      assert IsLow(s[1]) && (2 < |s| ==> !IsLow(s[2]));
      WellFormedSuffix(s, 2);
      FromScalarsScalars(s[2..]);
      UnitsOfPair(s[0], s[1]);
      assert s == [s[0], s[1]] + s[2..];
    } else {
      assert !IsLow(s[0]) && (1 < |s| ==> !IsLow(s[1]));
      WellFormedSuffix(s, 1);
      FromScalarsScalars(s[1..]);
      UnitsOfOne(s[0]);
      assert s == [s[0]] + s[1..];
    }
  }

  /** The names the archive format can carry: cleaning is the identity exactly on
      well-formed strings without a leading byte-order mark. */
  lemma CleanIsIdentity(s: Str)
    ensures Clean(s) == s <==> Lossless(s)
  {
    var cs := Scalars(s);
    FromScalarsWellFormed(StripMark(cs));
    if WellFormed(s) {
      FromScalarsScalars(s);
      if s != [] && s[0] == BYTE_ORDER_MARK {
        CleanStripsMark(s);
      } else if s != [] {
        assert cs[0] != BYTE_ORDER_MARK;
      }
    }
  }

  lemma CleanStripsMark(s: Str)
    requires WellFormed(s) && s != [] && s[0] == BYTE_ORDER_MARK
    ensures |Clean(s)| + 1 == |s|
  {
    FromScalarsScalars(s);
    var cs := Scalars(s);
    assert cs[0] == BYTE_ORDER_MARK && |Units(BYTE_ORDER_MARK)| == 1;
  }

  lemma CleanWellFormed(s: Str)
    ensures WellFormed(Clean(s))
  {
    FromScalarsWellFormed(StripMark(Scalars(s)));
  }

  lemma {:induction false} ScalarsSnoc(s: Str, u: CodeUnit)
    requires !IsHigh(u) && !IsLow(u)
    ensures Scalars(s + [u]) == Scalars(s) + [u]
    decreases |s|
  {
    var t := s + [u];
    if s == [] {
      assert t[1..] == [];
    } else if IsHigh(s[0]) && |s| > 1 && IsLow(s[1]) {
      assert t[2..] == s[2..] + [u];
      ScalarsSnoc(s[2..], u);
    } else {
      assert t[1..] == s[1..] + [u];
      ScalarsSnoc(s[1..], u);
    }
  }

  lemma {:induction false} EncodeScalarsSnoc(cs: seq<Scalar>, c: Scalar)
    ensures EncodeScalars(cs + [c]) == EncodeScalars(cs) + EncodeScalar(c)
  {
    if cs == [] {
      assert cs + [c] == [c];
      assert EncodeScalars([c]) == EncodeScalar(c) + EncodeScalars([]);
    } else {
      assert (cs + [c])[1..] == cs[1..] + [c];
      EncodeScalarsSnoc(cs[1..], c);
    }
  }

  lemma {:induction false} FromScalarsSnoc(cs: seq<Scalar>, c: Scalar)
    ensures FromScalars(cs + [c]) == FromScalars(cs) + Units(c)
  {
    if cs == [] {
      assert cs + [c] == [c];
      assert FromScalars([c]) == Units(c) + FromScalars([]);
    } else {
      assert (cs + [c])[1..] == cs[1..] + [c];
      FromScalarsSnoc(cs[1..], c);
    }
  }

  /** A trailing slash takes one byte and survives cleaning. */
  lemma TrailingSlash(s: Str)
    ensures |Encode(s + [SLASH])| == |Encode(s)| + 1
    ensures Clean(s + [SLASH]) == Clean(s) + [SLASH]
  {
    ScalarsSnoc(s, SLASH);
    EncodeScalarsSnoc(Scalars(s), SLASH);
    var cs := Scalars(s);
    assert StripMark(cs + [SLASH]) == StripMark(cs) + [SLASH];
    FromScalarsSnoc(StripMark(cs), SLASH);
  }

  predicate EndsInSlash(s: Str) {
    s != [] && s[|s| - 1] == SLASH
  }

  /** The first scalar and the units it takes; alone, it is a slash only for a slash. */
  lemma FirstScalar(s: Str) returns (c: Scalar, n: nat)
    requires s != []
    ensures 1 <= n <= |s| && Scalars(s) == [c] + Scalars(s[n..])
    ensures n == |s| && c == SLASH ==> EndsInSlash(s)
    ensures n < |s| ==> (EndsInSlash(s[n..]) <==> EndsInSlash(s))
  {
    if IsHigh(s[0]) && |s| > 1 && IsLow(s[1]) {
      c, n := Combine(s[0], s[1]), 2;
    } else {
      c, n := if IsHigh(s[0]) || IsLow(s[0]) then REPLACEMENT else s[0], 1;
    }
  }

  lemma {:induction false} ScalarsEnd(s: Str)
    requires s != []
    ensures Scalars(s) != [] && (Scalars(s)[|Scalars(s)| - 1] == SLASH ==> EndsInSlash(s))
    decreases |s|
  {
    hide EndsInSlash;
    var c, n := FirstScalar(s);
    hide Scalars;
    if n < |s| {
      ScalarsEnd(s[n..]);
    } else {
      NoScalars(s[n..]);
    }
  }

  lemma NoScalars(s: Str)
    requires s == []
    ensures Scalars(s) == []
  {
  }

  lemma {:induction false} FromScalarsEnd(cs: seq<Scalar>)
    requires EndsInSlash(FromScalars(cs))
    ensures cs != [] && cs[|cs| - 1] == SLASH
  {
    if |cs| > 1 {
      var rest := FromScalars(cs[1..]);
      assert rest == Units(cs[1]) + FromScalars(cs[1..][1..]);
      FromScalarsEnd(cs[1..]);
    } else {
      assert FromScalars(cs) == Units(cs[0]) + FromScalars(cs[1..]);
    }
  }

  /** Cleaning turns no file name into a directory name, nor the reverse. */
  lemma CleanKeepsSlash(s: Str)
    ensures EndsInSlash(Clean(s)) <==> EndsInSlash(s)
  {
    if EndsInSlash(s) {
      assert s == s[..|s| - 1] + [SLASH];
      TrailingSlash(s[..|s| - 1]);
    }
    if EndsInSlash(Clean(s)) {
      var cs := StripMark(Scalars(s));
      FromScalarsEnd(cs);
      assert cs[|cs| - 1] == Scalars(s)[|Scalars(s)| - 1];
      ScalarsEnd(s);
    }
  }

  lemma TwoDigits(x: nat, y: nat)
    requires y < 64
    ensures (x * 64 + y) / 64 == x && (x * 64 + y) % 64 == y
  {
  }

  lemma MoreDigits(w: nat, x: nat, y: nat, z: nat)
    requires x < 64 && y < 64 && z < 64
    ensures var c := w * 262144 + x * 4096 + y * 64 + z;
      c / 262144 == w && c / 4096 % 64 == x && c / 64 % 64 == y && c % 64 == z && c / 4096 == w * 64 + x
  {
    var c := w * 262144 + x * 4096 + y * 64 + z;
    TwoDigits(w * 4096 + x * 64 + y, z);
    TwoDigits(w * 64 + x, y);
    TwoDigits(w, x);
    Base64Digits(c);
    assert c / 64 / 64 == c / 4096 && c / 4096 / 64 == c / 262144;
  }

  /** What decodes to a scalar value is its encoding: overlong forms, surrogates and
      values past the last code point do not decode. */
  lemma DecodesOnlyEncoded(bytes: seq<byte>)
    requires bytes != [] && DecodeScalar(bytes).Some?
    ensures var (c, n) := DecodeScalar(bytes).value; bytes[..n] == EncodeScalar(c)
  {
    var (c, n) := DecodeScalar(bytes).value;
    var b := Val(bytes[0]);
    if n == 2 {
      TwoDigits(b - 0xC0, Val(bytes[1]) - 0x80);
    } else if n == 3 {
      MoreDigits(0, b - 0xE0, Val(bytes[1]) - 0x80, Val(bytes[2]) - 0x80);
    } else if n == 4 {
      MoreDigits(b - 0xF0, Val(bytes[1]) - 0x80, Val(bytes[2]) - 0x80, Val(bytes[3]) - 0x80);
    }
  }

  lemma {:induction false} DecodesOnlyEncodings(bytes: seq<byte>)
    requires DecodeScalars(bytes).Some?
    ensures bytes == EncodeScalars(DecodeScalars(bytes).value)
    decreases |bytes|
  {
    hide DecodeScalar, EncodeScalar;
    if bytes != [] {
      var (c, n) := DecodeScalar(bytes).value;
      DecodesOnlyEncoded(bytes);
      DecodesOnlyEncodings(bytes[n..]);
      var rest := DecodeScalars(bytes[n..]).value;
      assert ([c] + rest)[1..] == rest;
      assert bytes == bytes[..n] + bytes[n..];
    }
  }

  /** Decoding succeeds exactly on encodings of scalar values, with one leading mark dropped. */
  lemma DecodesExactly(bytes: seq<byte>, s: Str)
    ensures Decode(bytes) == Some(s) <==> exists cs :: bytes == EncodeScalars(cs) && s == FromScalars(StripMark(cs))
  {
    hide DecodeScalars, EncodeScalars, FromScalars, StripMark;
    if Decode(bytes) == Some(s) {
      DecodesOnlyEncodings(bytes);
      assert bytes == EncodeScalars(DecodeScalars(bytes).value);
    }
    if exists cs :: bytes == EncodeScalars(cs) && s == FromScalars(StripMark(cs)) {
      var cs :| bytes == EncodeScalars(cs) && s == FromScalars(StripMark(cs));
      DecodeScalarsInverts(cs);
    }
  }

  /** The examples of table 3-4 of the Unicode Standard: one value of each length in UTF-8. */
  lemma EncodedExamples()
    ensures EncodeScalar(0x004D) == [0x4D]
    ensures EncodeScalar(0x0430) == [0xD0, 0xB0]
    ensures EncodeScalar(0x4E8C) == [0xE4, 0xBA, 0x8C]
    ensures EncodeScalar(0x1_0302) == [0xF0, 0x90, 0x8C, 0x82]
  {
  }

  /** The last of them is a surrogate pair in UTF-16. */
  lemma SurrogatePairExample()
    ensures Units(0x1_0302) == [0xD800, 0xDF02]
  {
    hide Units;
    assert Combine(0xD800, 0xDF02) == 0x1_0302;
    UnitsOfPair(0xD800, 0xDF02);
  }

  /** A surrogate outside a pair reads as U+FFFD. */
  lemma LoneSurrogate(u: CodeUnit)
    requires 0xD800 <= u < 0xE000
    ensures Scalars([u]) == [0xFFFD]
  {
    var lone: Str := [u];
    var rest := lone[1..];
    assert rest == [] && Scalars(rest) == [];
  }
}
