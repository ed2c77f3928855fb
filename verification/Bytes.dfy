/** Bytes, little-endian fields and the buffer operations of `Uint8Array` and
    `DataView` that the archive code uses. */
module Bytes {
  type byte = n: nat | n < 256

  function Val(b: byte): nat { b }

  /** The two bytes `setUint16(_, n, true)` stores: n modulo 2^16, low byte first. */
  function U16(n: nat): (s: seq<byte>)
    ensures |s| == 2
  {
    [n % 256, n / 256 % 256]
  }

  /** The four bytes `setUint32(_, n, true)` stores: n modulo 2^32, low byte first. */
  function U32(n: nat): (s: seq<byte>)
    ensures |s| == 4
  {
    U16(n) + U16(n / 256 / 256)
  }

  /** `getUint16(i, true)`. */
  function U16At(s: seq<byte>, i: nat): (n: nat)
    requires i + 2 <= |s|
    ensures n < 0x1_0000
  {
    Val(s[i]) + 256 * Val(s[i + 1])
  }

  /** `getUint32(i, true)`. */
  function U32At(s: seq<byte>, i: nat): (n: nat)
    requires i + 4 <= |s|
    ensures n < 0x1_0000_0000
  {
    Val(s[i]) + 256 * Val(s[i + 1]) + 65536 * Val(s[i + 2]) + 16777216 * Val(s[i + 3])
  }

  /** A 16-bit field holds n modulo 2^16: it is lossless exactly for n < 2^16. */
  lemma U16RoundTrip(n: nat)
    ensures U16At(U16(n), 0) == n % 0x1_0000
  {
  }

  lemma Halves(n: nat)
    ensures n % 0x1_0000_0000 == n % 0x1_0000 + 0x1_0000 * (n / 256 / 256 % 0x1_0000)
  {
    var high := n / 256 / 256;
    assert high == n / 0x1_0000;
    assert n == n % 0x1_0000 + 0x1_0000 * (high % 0x1_0000) + 0x1_0000_0000 * (high / 0x1_0000);
  }

  /** A 32-bit field holds n modulo 2^32: it is lossless exactly for n < 2^32. */
  lemma U32RoundTrip(n: nat)
    ensures U32At(U32(n), 0) == n % 0x1_0000_0000
  {
    var high := n / 256 / 256;
    U16RoundTrip(n);
    U16RoundTrip(high);
    assert U32At(U32(n), 0) == U16At(U16(n), 0) + 65536 * U16At(U16(high), 0);
    Halves(n);
  }

  /** Overwriting part of a buffer, as `set` and the `DataView` setters do. */
  function Put(s: seq<byte>, at: nat, field: seq<byte>): (r: seq<byte>)
    requires at + |field| <= |s|
    ensures |r| == |s|
    ensures forall i :: 0 <= i < |s| ==> r[i] == if at <= i < at + |field| then field[i - at] else s[i]
  {
    s[..at] + field + s[at + |field|..]
  }

  function Zeros(n: nat): (s: seq<byte>)
    ensures |s| == n
    ensures forall i :: 0 <= i < n ==> s[i] == 0
  {
    seq(n, _ => 0)
  }

  /** `subarray(from, to)`: both ends are clamped to the buffer. */
  function Subarray(s: seq<byte>, from: nat, to: nat): (r: seq<byte>)
    requires from <= to
    ensures |r| <= to - from
  {
    if from >= |s| then [] else if to > |s| then s[from..] else s[from..to]
  }

  /** A field read from the middle of a concatenation is read from its part. */
  lemma ReadInside(a: seq<byte>, b: seq<byte>, c: seq<byte>, k: nat)
    ensures k + 2 <= |b| ==> U16At(a + b + c, |a| + k) == U16At(b, k)
    ensures k + 4 <= |b| ==> U32At(a + b + c, |a| + k) == U32At(b, k)
  {
    var s := a + b + c;
    assert forall i :: 0 <= i < |b| ==> s[|a| + i] == b[i];
  }

  /** The bytes of a field decide what is read from it. */
  lemma SameField(s: seq<byte>, t: seq<byte>, i: nat, j: nat)
    requires i + 4 <= |s| && j + 4 <= |t| && s[i..i + 4] == t[j..j + 4]
    ensures U32At(s, i) == U32At(t, j)
  {
    var f, g := s[i..i + 4], t[j..j + 4];
    assert f[0] == s[i] && f[1] == s[i + 1] && f[2] == s[i + 2] && f[3] == s[i + 3];
    assert g[0] == t[j] && g[1] == t[j + 1] && g[2] == t[j + 2] && g[3] == t[j + 3];
  }

  method SetUint16(a: array<byte>, at: nat, n: nat)
    requires at + 2 <= a.Length
    modifies a
    ensures a[..] == Put(old(a[..]), at, U16(n))
  {
    var field := U16(n);
    a[at], a[at + 1] := field[0], field[1];
  }

  method SetUint32(a: array<byte>, at: nat, n: nat)
    requires at + 4 <= a.Length
    modifies a
    ensures a[..] == Put(old(a[..]), at, U32(n))
  {
    var field := U32(n);
    a[at], a[at + 1], a[at + 2], a[at + 3] := field[0], field[1], field[2], field[3];
  }

  /** `Uint8Array.prototype.set` on a part that fits. */
  method Set(a: array<byte>, part: seq<byte>, at: nat)
    requires at + |part| <= a.Length
    modifies a
    ensures a[..] == Put(old(a[..]), at, part)
  {
    forall i | 0 <= i < |part| {
      a[at + i] := part[i];
    }
  }

  function Concat(parts: seq<seq<byte>>): (r: seq<byte>)
  {
    if parts == [] then [] else parts[0] + Concat(parts[1..])
  }

  function TotalLength(parts: seq<seq<byte>>): (n: nat)
    ensures n == |Concat(parts)|
  {
    if parts == [] then 0 else |parts[0]| + TotalLength(parts[1..])
  }

  lemma {:induction false} ConcatAppend(a: seq<seq<byte>>, b: seq<seq<byte>>)
    ensures Concat(a + b) == Concat(a) + Concat(b)
  {
    if a == [] {
      assert a + b == b;
    } else {
      assert (a + b)[1..] == a[1..] + b;
      ConcatAppend(a[1..], b);
    }
  }

  lemma ConcatSnoc(a: seq<seq<byte>>, part: seq<byte>)
    ensures Concat(a + [part]) == Concat(a) + part
  {
    ConcatAppend(a, [part]);
    assert Concat([part]) == part + Concat([]);
  }

  /** Parts are copied one after another into a buffer of the announced size;
      a part that does not fit is a `RangeError`, so the size must suffice. */
  method Concatenate(parts: seq<seq<byte>>, totalBytes: nat) returns (output: array<byte>)
    requires TotalLength(parts) <= totalBytes
    ensures fresh(output)
    ensures output[..] == Concat(parts) + Zeros(totalBytes - |Concat(parts)|)
  {
    output := new byte[totalBytes](_ => 0);
    var offset := 0;
    for k := 0 to |parts|
      invariant offset == |Concat(parts[..k])|
      invariant offset + |Concat(parts[k..])| <= totalBytes
      invariant output[..] == Concat(parts[..k]) + Zeros(totalBytes - offset)
    {
      assert parts[..k + 1] == parts[..k] + [parts[k]];
      ConcatSnoc(parts[..k], parts[k]);
      assert parts[k..] == [parts[k]] + parts[k + 1..];
      ghost var before := output[..];
      Set(output, parts[k], offset);
      assert output[..] == Concat(parts[..k]) + parts[k] + Zeros(totalBytes - offset - |parts[k]|);
      offset := offset + |parts[k]|;
    }
    assert parts[..|parts|] == parts;
  }
}
