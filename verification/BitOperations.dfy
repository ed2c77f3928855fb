/** The bit operations of unbounded integers in two's complement, where a negative
    integer has ones all the way up, and what they do with a single bit or with all the
    bits below one. Division rounds down throughout. */
module BitOperations {
  function Power(n: nat): (r: nat)
    ensures r > 0
  {
    if n == 0 then 1 else 2 * Power(n - 1)
  }

  lemma {:induction false} PowerSum(a: nat, b: nat)
    ensures Power(a + b) == Power(a) * Power(b)
  {
    if a > 0 {
      PowerSum(a - 1, b);
      Regroup(Power(a - 1), Power(b));
    }
  }

  lemma Regroup(p: nat, q: nat)
    ensures 2 * (p * q) == 2 * p * q
  {
  }

  lemma SmallPowers()
    ensures Power(1) == 2 && Power(7) == 128 && Power(8) == 256
  {
    assert Power(2) == 4 && Power(3) == 8;
    assert Power(4) == 16 && Power(5) == 32;
    assert Power(6) == 64;
  }

  /** `~a`. */
  function Not(a: int): int { -a - 1 }

  /** `a & b`. */
  function And(a: int, b: nat): nat
    decreases b
  {
    if b == 0 then 0 else 2 * And(a / 2, b / 2) + if a % 2 == 1 && b % 2 == 1 then 1 else 0
  }

  /** `a | b`. */
  function Or(a: int, b: nat): int
    decreases b
  {
    if b == 0 then a else 2 * Or(a / 2, b / 2) + if a % 2 == 1 || b % 2 == 1 then 1 else 0
  }

  /** `a ^ b`. */
  function Xor(a: int, b: nat): int
    decreases b
  {
    if b == 0 then a else 2 * Xor(a / 2, b / 2) + if a % 2 != b % 2 then 1 else 0
  }

  /** Bit i, counted from the lowest. */
  predicate Bit(a: int, i: nat)
    decreases i
  {
    if i == 0 then a % 2 == 1 else Bit(a / 2, i - 1)
  }

  /** What an operation does to the lowest bit and to the rest. */
  lemma LowestBit(a: int, b: nat)
    ensures Not(a) / 2 == Not(a / 2) && Not(a) % 2 == 1 - a % 2
    ensures b != 0 ==> And(a, b) / 2 == And(a / 2, b / 2) && (And(a, b) % 2 == 1 <==> a % 2 == 1 && b % 2 == 1)
    ensures b != 0 ==> Or(a, b) / 2 == Or(a / 2, b / 2) && (Or(a, b) % 2 == 1 <==> a % 2 == 1 || b % 2 == 1)
    ensures b != 0 ==> Xor(a, b) / 2 == Xor(a / 2, b / 2) && (Xor(a, b) % 2 == 1 <==> a % 2 != b % 2)
    ensures And(a, 0) == 0 && Or(a, 0) == a && Xor(a, 0) == a
  {
  }

  /** Every operation works bit by bit. */
  lemma {:induction false} Bitwise(a: int, b: nat, i: nat)
    ensures Bit(Not(a), i) <==> !Bit(a, i)
    ensures Bit(And(a, b), i) <==> Bit(a, i) && Bit(b, i)
    ensures Bit(Or(a, b), i) <==> Bit(a, i) || Bit(b, i)
    ensures Bit(Xor(a, b), i) <==> (Bit(a, i) != Bit(b, i))
    decreases i
  {
    hide Not, And, Or, Xor;
    LowestBit(a, b);
    if b == 0 {
      NoBits(i);
    }
    if i > 0 {
      Bitwise(a / 2, b / 2, i - 1);
    }
  }

  lemma {:induction false} NoBits(i: nat)
    ensures !Bit(0, i)
  {
    if i > 0 {
      NoBits(i - 1);
    }
  }

  /** With a power of two, the operations test, set and flip one bit. */
  lemma {:induction false} OneBit(a: int, n: nat)
    ensures And(a, Power(n)) == if a / Power(n) % 2 == 1 then Power(n) else 0
    ensures Or(a, Power(n)) == if a / Power(n) % 2 == 1 then a else a + Power(n)
    ensures Xor(a, Power(n)) == if a / Power(n) % 2 == 1 then a - Power(n) else a + Power(n)
    decreases n
  {
    if n == 0 {
      assert Power(0) == 1;
    } else {
      OneBit(a / 2, n - 1);
      HalfThenPower(a, n);
    }
  }

  lemma HalfThenPower(a: int, n: nat)
    requires n > 0
    ensures Power(n) / 2 == Power(n - 1) && Power(n) % 2 == 0
    ensures a / 2 / Power(n - 1) == a / Power(n)
    ensures a / 2 % Power(n - 1) * 2 + a % 2 == a % Power(n)
  {
    var p := Power(n - 1);
    var q, r := a / 2 / p, a / 2 % p;
    assert a / 2 == q * p + r;
    DoubledSplit(a, p, q, r);
  }

  lemma DoubledSplit(a: int, p: nat, q: int, r: int)
    requires p > 0 && 0 <= r < p && a / 2 == q * p + r
    ensures a / (2 * p) == q && a % (2 * p) == 2 * r + a % 2
  {
    assert a == q * (2 * p) + (2 * r + a % 2);
    SplitUnique(a, 2 * p, q, 2 * r + a % 2);
  }

  lemma AtLeastOnce(k: int, unit: int)
    requires k >= 1 && unit > 0
    ensures k * unit >= unit
  {
  }

  lemma SplitUnique(m: int, unit: int, q: int, r: int)
    requires 0 <= r < unit && m == q * unit + r
    ensures m / unit == q && m % unit == r
  {
    var p, s := m / unit, m % unit;
    assert m == p * unit + s;
    assert (p - q) * unit == p * unit - q * unit == -((q - p) * unit);
    if p > q {
      AtLeastOnce(p - q, unit);
    } else if p < q {
      AtLeastOnce(q - p, unit);
    }
  }

  /** Masking with all the bits below a power of two is the remainder. */
  lemma {:induction false} LowBits(a: int, n: nat)
    ensures And(a, Power(n) - 1) == a % Power(n)
    decreases n
  {
    if n == 0 {
      assert Power(0) == 1;
    } else {
      LowBits(a / 2, n - 1);
      HalfThenPower(a, n);
      assert (Power(n) - 1) / 2 == Power(n - 1) - 1 && (Power(n) - 1) % 2 == 1;
    }
  }

  /** The complement within a mask. */
  lemma MaskedNot(a: int, n: nat)
    ensures And(Not(a), Power(n) - 1) == Power(n) - 1 - a % Power(n)
  {
    hide Power;
    LowBits(Not(a), n);
    NotRemainder(a, Power(n));
  }

  lemma NotRemainder(a: int, p: nat)
    requires p > 0
    ensures Not(a) % p == p - 1 - a % p
  {
    var q, r := a / p, a % p;
    assert a == q * p + r;
    assert (-q - 1) * p == -(q * p) - p;
    SplitUnique(Not(a), p, -q - 1, p - 1 - r);
  }
}
