/** Float bit patterns as ordered integer keys, and the neighbours of a float. */
module OrderedBits {
  import opened BitOperations
  import opened Wrappers

  /** A binary interchange format of IEEE 754-2019, section 3.4: a sign bit, 8 or 11
      exponent bits and 23 or 52 fraction bits, from the top. */
  datatype Format = Binary32 | Binary64 {
    /** The weight of the sign bit. */
    function Sign(): nat { match this case Binary32 => 0x8000_0000 case Binary64 => 0x8000_0000_0000_0000 }

    /** The weight of the lowest exponent bit. */
    function Unit(): (unit: nat)
      ensures unit > 1
    {
      match this case Binary32 => 0x80_0000 case Binary64 => 0x10_0000_0000_0000
    }

    /** The magnitude bits of infinity; larger magnitudes are not numbers. */
    function Infinity(): nat { match this case Binary32 => 0x7F80_0000 case Binary64 => 0x7FF0_0000_0000_0000 }
  }

  predicate IsPattern(f: Format, raw: int) { 0 <= raw < 2 * f.Sign() }

  /** `ordered`: every bit of the word flipped under a sign, else the sign bit set. */
  function Ordered(f: Format, raw: int): int {
    if And(raw, f.Sign()) != 0 then And(Not(raw), 2 * f.Sign() - 1) else Or(raw, f.Sign())
  }

  /** The inverse inside `adjacent`, on keys of any size. */
  function Unordered(f: Format, key: int): int {
    if And(key, f.Sign()) != 0 then Xor(key, f.Sign()) else And(Not(key), 2 * f.Sign() - 1)
  }

  /** The position of the sign bit. */
  function SignBit(f: Format): nat { match f case Binary32 => 31 case Binary64 => 63 }

  lemma SignIsPower(f: Format)
    ensures f.Sign() == Power(SignBit(f)) && 2 * f.Sign() == Power(SignBit(f) + 1)
  {
    SmallPowers();
    hide Power;
    PowerSum(8, 8);
    PowerSum(16, 8);
    PowerSum(24, 7);
    PowerSum(24, 8);
    PowerSum(32, 16);
    PowerSum(48, 8);
    PowerSum(56, 7);
    PowerSum(1, 31);
    PowerSum(1, 63);
  }

  /** The bit operations of the encoding as arithmetic, for any integer. */
  lemma AsArithmetic(f: Format, x: int)
    ensures Ordered(f, x) ==
      if x / f.Sign() % 2 == 1 then 2 * f.Sign() - 1 - x % (2 * f.Sign()) else x + f.Sign()
    ensures Unordered(f, x) ==
      if x / f.Sign() % 2 == 1 then x - f.Sign() else 2 * f.Sign() - 1 - x % (2 * f.Sign())
  {
    hide And, Or, Xor, Not, Power, Format.Sign, SignBit;
    SignIsPower(f);
    OneBit(x, SignBit(f));
    MaskedNot(x, SignBit(f) + 1);
  }

  /** On words, the sign is set from its weight upwards. */
  lemma OnWords(f: Format, x: int)
    requires IsPattern(f, x)
    ensures Ordered(f, x) == if x >= f.Sign() then 2 * f.Sign() - 1 - x else x + f.Sign()
    ensures Unordered(f, x) == if x >= f.Sign() then x - f.Sign() else 2 * f.Sign() - 1 - x
    ensures IsPattern(f, Ordered(f, x)) && IsPattern(f, Unordered(f, x))
  {
    hide Ordered, Unordered;
    AsArithmetic(f, x);
  }

  /** Patterns and keys are in bijection. */
  lemma OrderedInverts(f: Format, x: int)
    requires IsPattern(f, x)
    ensures IsPattern(f, Ordered(f, x)) && Unordered(f, Ordered(f, x)) == x
    ensures IsPattern(f, Unordered(f, x)) && Ordered(f, Unordered(f, x)) == x
  {
    hide Ordered, Unordered, Format.Sign;
    OnWords(f, x);
    OnWords(f, Ordered(f, x));
    OnWords(f, Unordered(f, x));
  }

  /** Keys just outside the words: below zero there is no pattern to turn back into,
      above the greatest key the patterns of the lowest keys come round again. */
  lemma OutsideTheWords(f: Format, key: int)
    requires -2 <= key < 2 * f.Sign() + 2
    ensures key < 0 ==> Unordered(f, key) < 0
    ensures key >= 0 ==> IsPattern(f, Unordered(f, key)) && Ordered(f, Unordered(f, key)) == key % (2 * f.Sign())
  {
    hide Ordered, Unordered;
    AsArithmetic(f, key);
    if key >= 0 {
      AsArithmetic(f, key % (2 * f.Sign()));
      assert Unordered(f, key) == Unordered(f, key % (2 * f.Sign()));
      OrderedInverts(f, key % (2 * f.Sign()));
    }
  }

  function Magnitude(f: Format, raw: int): (m: nat)
    requires IsPattern(f, raw)
    ensures m < f.Sign()
  {
    if raw >= f.Sign() then raw - f.Sign() else raw
  }

  predicate IsNumber(f: Format, raw: int)
    requires IsPattern(f, raw)
  {
    Magnitude(f, raw) <= f.Infinity()
  }

  /** The magnitude in units of the smallest subnormal: fraction bits below a biased
      exponent, with a hidden one from exponent one upwards. Infinity gets the value
      the next binade would start with, above every finite magnitude. */
  function Size(f: Format, m: nat): int {
    var exponent, fraction := m / f.Unit(), m % f.Unit();
    if exponent == 0 then fraction else (f.Unit() + fraction) * Power(exponent - 1)
  }

  /** The number a pattern denotes, in units of the smallest subnormal. */
  function Value(f: Format, raw: int): int
    requires IsPattern(f, raw)
  {
    if raw >= f.Sign() then -Size(f, Magnitude(f, raw)) else Size(f, Magnitude(f, raw))
  }

  lemma DivideStep(m: int, unit: int)
    requires unit > 1
    ensures m % unit + 1 < unit ==> (m + 1) / unit == m / unit && (m + 1) % unit == m % unit + 1
    ensures m % unit + 1 == unit ==> (m + 1) / unit == m / unit + 1 && (m + 1) % unit == 0
  {
    var q, r := m / unit, m % unit;
    assert m == q * unit + r;
    if r + 1 < unit {
      SplitUnique(m + 1, unit, q, r + 1);
    } else {
      assert m + 1 == (q + 1) * unit;
      SplitUnique(m + 1, unit, q + 1, 0);
    }
  }

  lemma Expand(a: int, b: int, c: int)
    ensures (a + (b + 1)) * c == (a + b) * c + c
    ensures (a + a) * c == a * (2 * c)
  {
  }

  /** Consecutive magnitudes have strictly increasing sizes, across binades too. */
  lemma SizeStep(f: Format, m: nat)
    ensures Size(f, m) < Size(f, m + 1)
  {
    hide Power, Format.Unit;
    var unit := f.Unit();
    var exponent, fraction := m / unit, m % unit;
    DivideStep(m, unit);
    PowerSteps(exponent);
    if exponent > 0 {
      Expand(unit, fraction, Power(exponent - 1));
    }
  }

  lemma PowerSteps(n: nat)
    ensures Power(0) == 1
    ensures n > 0 ==> Power(n) == 2 * Power(n - 1)
  {
  }

  lemma {:induction false} SizeIncreases(f: Format, m: nat, n: nat)
    requires m < n
    ensures Size(f, m) < Size(f, n)
    decreases n - m
  {
    hide Size;
    SizeStep(f, n - 1);
    if m < n - 1 {
      SizeIncreases(f, m, n - 1);
    }
  }

  lemma SizeOrders(f: Format, m: nat, n: nat)
    ensures Size(f, m) < Size(f, n) <==> m < n
  {
    hide Size;
    if m < n {
      SizeIncreases(f, m, n);
    } else if n < m {
      SizeIncreases(f, n, m);
    }
  }

  lemma SizeOfZero(f: Format)
    ensures Size(f, 0) == 0
  {
    SplitUnique(0, f.Unit(), 0, 0);
  }

  /** Keys order patterns as the numbers they denote, with the two zeros apart:
      negative zero comes before positive zero. */
  lemma KeysOrderValues(f: Format, x: int, y: int)
    requires IsPattern(f, x) && IsPattern(f, y)
    ensures Ordered(f, x) < Ordered(f, y) <==>
              Value(f, x) < Value(f, y) || (x == f.Sign() && y == 0)
  {
    hide Size, Format.Sign, Ordered, Unordered;
    OnWords(f, x);
    OnWords(f, y);
    var m, n := Magnitude(f, x), Magnitude(f, y);
    SizeOrders(f, m, n);
    SizeOrders(f, n, m);
    SizeOrders(f, 0, m);
    SizeOrders(f, 0, n);
    SizeOfZero(f);
  }

  /** Negative zero is the pattern directly before positive zero. */
  lemma ZerosAreAdjacent(f: Format)
    ensures Ordered(f, f.Sign()) + 1 == Ordered(f, 0)
    ensures Value(f, f.Sign()) == 0 == Value(f, 0)
  {
    hide Size, Ordered, Unordered;
    SizeOfZero(f);
    OnWords(f, 0);
    OnWords(f, f.Sign());
  }

  /** The numbers are exactly the keys of a contiguous range, from negative to
      positive infinity, well inside the words. */
  lemma NumbersAreContiguous(f: Format, x: int)
    requires IsPattern(f, x)
    ensures f.Infinity() < f.Sign()
    ensures IsNumber(f, x) <==> Ordered(f, f.Sign() + f.Infinity()) <= Ordered(f, x) <= Ordered(f, f.Infinity())
    ensures 2 <= Ordered(f, f.Sign() + f.Infinity()) && Ordered(f, f.Infinity()) + 2 < 2 * f.Sign()
  {
    hide Ordered, Unordered;
    OnWords(f, x);
    OnWords(f, f.Infinity());
    OnWords(f, f.Sign() + f.Infinity());
  }

  /** The patterns two keys either side of a float, itself in the middle. Only the two
      lowest keys fail, where a key would be negative; above the greatest key the keys
      start again from zero. */
  method Adjacent(f: Format, x: int) returns (r: Option<seq<int>>)
    requires IsPattern(f, x)
    ensures r.Some? <==> Ordered(f, x) >= 2
    ensures r.Some? ==> |r.value| == 5 && r.value[2] == x
    ensures r.Some? ==> forall i :: 0 <= i < 5 ==>
      IsPattern(f, r.value[i]) && Ordered(f, r.value[i]) == (Ordered(f, x) - 2 + i) % (2 * f.Sign())
  {
    hide Format.Sign, Ordered, Unordered;
    OrderedInverts(f, x);
    var key := Ordered(f, x);
    var found: seq<int> := [];
    for k := key - 2 to key + 3
      invariant |found| == k - (key - 2) && (|found| > 0 ==> key >= 2)
      invariant |found| > 2 ==> found[2] == x
      invariant forall i :: 0 <= i < |found| ==>
        IsPattern(f, found[i]) && Ordered(f, found[i]) == (key - 2 + i) % (2 * f.Sign())
    {
      OutsideTheWords(f, k);
      var raw := Unordered(f, k);
      if !(0 <= raw < 2 * f.Sign()) {
        return None;
      }
      found := found + [raw];
    }
    return Some(found);
  }

  /** So around a number, infinities included, `adjacent` never fails or comes round:
      the keys are consecutive. */
  lemma NumbersHaveNeighbours(f: Format, x: int, i: int)
    requires IsPattern(f, x) && IsNumber(f, x) && 0 <= i < 5
    ensures Ordered(f, x) >= 2 && (Ordered(f, x) - 2 + i) % (2 * f.Sign()) == Ordered(f, x) - 2 + i
  {
    hide Ordered, Unordered;
    NumbersAreContiguous(f, x);
  }

  /** The patterns with the two greatest keys are not numbers, and past them the loop
      yields the all-ones word and the one below, not numbers either. */
  lemma GreatestKeysComeRound(f: Format)
    ensures Ordered(f, f.Sign() - 1) == 2 * f.Sign() - 1 && !IsNumber(f, f.Sign() - 1)
    ensures Unordered(f, 2 * f.Sign()) == 2 * f.Sign() - 1 && !IsNumber(f, 2 * f.Sign() - 1)
    ensures Unordered(f, 2 * f.Sign() + 1) == 2 * f.Sign() - 2 && !IsNumber(f, 2 * f.Sign() - 2)
  {
    hide Ordered, Unordered;
    OnWords(f, f.Sign() - 1);
    AsArithmetic(f, 2 * f.Sign());
    AsArithmetic(f, 2 * f.Sign() + 1);
  }

  /** Consecutive keys are neighbouring floats: no number lies strictly between them,
      and unless they are the two zeros, the second is strictly greater. */
  lemma ConsecutiveKeysAreNeighbours(f: Format, x: int, y: int, z: int)
    requires IsPattern(f, x) && IsPattern(f, y) && IsPattern(f, z)
    requires Ordered(f, y) == Ordered(f, x) + 1
    ensures !(Value(f, x) < Value(f, z) < Value(f, y))
    ensures Value(f, x) < Value(f, y) || (x == f.Sign() && y == 0)
  {
    hide Value, Ordered, Unordered, Format.Sign;
    KeysOrderValues(f, x, y);
    KeysOrderValues(f, x, z);
    KeysOrderValues(f, z, y);
  }

  /** The scale of the sizes: the smallest pattern above zero is one unit, the pattern of
      the number one is 2^149 or 2^1074 units, and infinity stands for 2^128 or 2^1024. */
  lemma SizeOfOne()
    ensures Size(Binary32, 1) == 1 && Size(Binary64, 1) == 1
    ensures Size(Binary32, 0x3F80_0000) == Power(149)
    ensures Size(Binary64, 0x3FF0_0000_0000_0000) == Power(1074)
    ensures Size(Binary32, Binary32.Infinity()) == Power(128 + 149)
    ensures Size(Binary64, Binary64.Infinity()) == Power(1024 + 1074)
  {
    hide Power;
    PowerSum(23, 254);
    PowerSum(52, 2046);
    PowerSum(23, 126);
    PowerSum(52, 1022);
    assert Power(23) == 0x80_0000 && Power(52) == 0x10_0000_0000_0000 by { HiddenBits(); }
  }

  lemma HiddenBits()
    ensures Power(23) == 0x80_0000 && Power(52) == 0x10_0000_0000_0000
  {
    SmallPowers();
    hide Power;
    PowerSum(1, 1);
    PowerSum(2, 2);
    PowerSum(8, 8);
    PowerSum(16, 7);
    PowerSum(16, 16);
    PowerSum(32, 16);
    PowerSum(48, 4);
  }
}
