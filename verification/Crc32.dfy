/** The CRC-32 of section 4.4.7 of PKWARE APPNOTE 6.3.10 as the archive code
    computes it, bit by bit, and the corruption it is certain to detect. */
module Crc32 {
  import opened Bytes

  /** One bit round: shift right, and fold in the polynomial if a one fell out. */
  function BitRound(crc: bv32): bv32 {
    (crc >> 1) ^ (0xedb88320 & (0 - (crc & 1)))
  }

  function BitRounds(crc: bv32, rounds: nat): bv32 {
    if rounds == 0 then crc else BitRound(BitRounds(crc, rounds - 1))
  }

  /** A byte as a 32-bit word, reached by counting up from zero. */
  function Word(n: nat): bv32
    requires n < 256
  {
    if n == 0 then 0 else Word(n - 1) + 1
  }

  lemma Successor(p: bv32)
    requires p as int < 255
    ensures (p + 1) as int == p as int + 1
  {
  }

  lemma {:induction false} WordValue(n: nat)
    requires n < 256
    ensures Word(n) as int == n
  {
    if n > 0 {
      WordValue(n - 1);
      Successor(Word(n - 1));
    }
  }

  function Xor(a: bv32, b: bv32): bv32 { a ^ b }

  function Mix(crc: bv32, b: byte): bv32 {
    Xor(crc, Word(b))
  }

  /** The register after one more byte. */
  function Absorb(crc: bv32, b: byte): bv32 {
    BitRounds(Mix(crc, b), 8)
  }

  /** The register after a whole string, from a given starting value. */
  function Register(crc: bv32, data: seq<byte>): bv32 {
    if data == [] then crc else Absorb(Register(crc, data[..|data| - 1]), data[|data| - 1])
  }

  /** The register's complement, as an unsigned number. */
  function Finish(crc: bv32): (n: nat)
    ensures n < 0x1_0000_0000
  {
    (crc ^ 0xffffffff) as int
  }

  function Checksum(data: seq<byte>): (crc: nat)
    ensures crc < 0x1_0000_0000
  {
    Finish(Register(0xffffffff, data))
  }

  method Crc32(data: seq<byte>) returns (result: nat)
    ensures result == Checksum(data)
  {
    var crc: bv32 := 0xffffffff;
    for k := 0 to |data|
      invariant crc == Register(0xffffffff, data[..k])
    {
      assert data[..k + 1][..k] == data[..k];
      crc := Mix(crc, data[k]);
      ghost var mixed := crc;
      for bit := 0 to 8
        invariant crc == BitRounds(mixed, bit)
      {
        crc := BitRound(crc);
      }
    }
    assert data[..|data|] == data;
    result := Finish(crc);
  }

  /** A bit round loses nothing: the bit shifted out is recovered from the top
      bit, which the polynomial sets and the shift leaves clear. */
  lemma BitRoundInjective(a: bv32, b: bv32)
    requires BitRound(a) == BitRound(b)
    ensures a == b
  {
  }

  lemma {:induction false} BitRoundsInjective(a: bv32, b: bv32, rounds: nat)
    requires BitRounds(a, rounds) == BitRounds(b, rounds)
    ensures a == b
  {
    if rounds > 0 {
      BitRoundInjective(BitRounds(a, rounds - 1), BitRounds(b, rounds - 1));
      BitRoundsInjective(a, b, rounds - 1);
    }
  }

  lemma MixInjective(a: bv32, x: byte, b: bv32, y: byte)
    requires Mix(a, x) == Mix(b, y)
    ensures a == b <==> x == y
  {
    XorInjective(a, Word(x), b, Word(y));
    if a == b {
      ByteFromWord(x, y);
    }
  }

  /** Absorbing a byte is injective in the register and in the byte. */
  lemma AbsorbInjective(a: bv32, x: byte, b: bv32, y: byte)
    requires Absorb(a, x) == Absorb(b, y)
    ensures a == b <==> x == y
  {
    BitRoundsInjective(Mix(a, x), Mix(b, y), 8);
    MixInjective(a, x, b, y);
  }

  lemma XorInjective(a: bv32, x: bv32, b: bv32, y: bv32)
    requires Xor(a, x) == Xor(b, y)
    ensures a == b ==> x == y
    ensures x == y ==> a == b
  {
  }

  lemma ByteFromWord(x: byte, y: byte)
    requires Word(x) == Word(y)
    ensures x == y
  {
    WordValue(x);
    WordValue(y);
  }

  /** Strings that agree except at one position never share a register. */
  lemma {:induction false} RegisterSeparates(crc: bv32, a: seq<byte>, b: seq<byte>, at: nat)
    requires |a| == |b| && at < |a|
    requires forall i :: 0 <= i < |a| ==> (a[i] == b[i] <==> i != at)
    ensures Register(crc, a) != Register(crc, b)
  {
    var last := |a| - 1;
    assert at == last ==> a[..last] == b[..last];
    if Register(crc, a) == Register(crc, b) {
      AbsorbInjective(Register(crc, a[..last]), a[last], Register(crc, b[..last]), b[last]);
      if at < last {
        RegisterSeparates(crc, a[..last], b[..last], at);
      }
    }
  }

  lemma ComplementInjective(a: bv32, b: bv32)
    requires a ^ 0xffffffff == b ^ 0xffffffff
    ensures a == b
  {
  }

  lemma WordInjective(a: bv32, b: bv32)
    requires a as int == b as int
    ensures a == b
  {
    assert (a as int) as bv32 == a;
    assert (b as int) as bv32 == b;
  }

  lemma FinishInjective(a: bv32, b: bv32)
    requires Finish(a) == Finish(b)
    ensures a == b
  {
    WordInjective(a ^ 0xffffffff, b ^ 0xffffffff);
    ComplementInjective(a, b);
  }

  /** Every single-byte corruption changes the checksum. */
  lemma ChecksumDetects(data: seq<byte>, at: nat, b: byte)
    requires at < |data| && data[at] != b
    ensures Checksum(data[at := b]) != Checksum(data)
  {
    RegisterSeparates(0xffffffff, data, data[at := b], at);
    if Checksum(data[at := b]) == Checksum(data) {
      FinishInjective(Register(0xffffffff, data[at := b]), Register(0xffffffff, data));
    }
  }

  lemma WordIs(n: nat, word: bv32)
    requires n < 256 && word as int == n
    ensures Word(n) == word
  {
    WordValue(n);
    WordInjective(Word(n), word);
  }

  /** One byte further, given the register with the byte mixed in. */
  lemma OneByte(before: seq<byte>, b: byte, word: bv32, mixed: bv32)
    requires word as int == b && Xor(Register(0xffffffff, before), word) == mixed
    ensures Register(0xffffffff, before + [b]) == BitRounds(mixed, 8)
  {
    WordIs(b, word);
    assert (before + [b])[..|before|] == before;
  }

  /** The eight rounds of each byte of the check string. */
  lemma CheckRounds()
    ensures BitRounds(0xffffffce, 8) == 0x7c231048
    ensures BitRounds(0x7c23107a, 8) == 0xb0acbb32
    ensures BitRounds(0xb0acbb01, 8) == 0x77b79c2d
    ensures BitRounds(0x77b79c19, 8) == 0x641c1f5c
    ensures BitRounds(0x641c1f69, 8) == 0x340ac5e3
    ensures BitRounds(0x340ac5d5, 8) == 0xf68d2c9e
    ensures BitRounds(0xf68d2ca9, 8) == 0xaffc9660
    ensures BitRounds(0xaffc9658, 8) == 0x651f2550
    ensures BitRounds(0x651f2569, 8) == 0x340bc6d9
  {
  }

  /** The check value published for this CRC: the digits one to nine, as ASCII. */
  lemma CheckValue()
    ensures Checksum([0x31, 0x32, 0x33, 0x34, 0x35, 0x36, 0x37, 0x38, 0x39]) == 0xcbf43926
  {
    hide BitRounds;
    CheckRounds();
    var d: seq<byte> := [];
    OneByte(d, 0x31, 0x31, 0xffffffce);
    d := d + [0x31];
    OneByte(d, 0x32, 0x32, 0x7c23107a);
    d := d + [0x32];
    OneByte(d, 0x33, 0x33, 0xb0acbb01);
    d := d + [0x33];
    OneByte(d, 0x34, 0x34, 0x77b79c19);
    d := d + [0x34];
    OneByte(d, 0x35, 0x35, 0x641c1f69);
    d := d + [0x35];
    OneByte(d, 0x36, 0x36, 0x340ac5d5);
    d := d + [0x36];
    OneByte(d, 0x37, 0x37, 0xf68d2ca9);
    d := d + [0x37];
    OneByte(d, 0x38, 0x38, 0xaffc9658);
    d := d + [0x38];
    OneByte(d, 0x39, 0x39, 0x651f2569);
    d := d + [0x39];
    assert d == [0x31, 0x32, 0x33, 0x34, 0x35, 0x36, 0x37, 0x38, 0x39];
  }
}
