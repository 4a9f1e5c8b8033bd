/** Bitwise operations on unsigned words, as C defines them, and what they
    mean for masks of low bits.  Ring indices, bus address masks and descriptor
    offsets are all computed with these. */
module Bits {

  /** The C operator `&`. */
  function And(a: nat, b: nat): nat {
    if a == 0 || b == 0 then 0
    else 2 * And(a / 2, b / 2) + (if a % 2 == 1 && b % 2 == 1 then 1 else 0)
  }

  /** The C operator `|`. */
  function Or(a: nat, b: nat): nat {
    if a == 0 then b
    else if b == 0 then a
    else 2 * Or(a / 2, b / 2) + (if a % 2 == 1 || b % 2 == 1 then 1 else 0)
  }

  /** The C operator `^`. */
  function Xor(a: nat, b: nat): nat {
    if a == 0 then b
    else if b == 0 then a
    else 2 * Xor(a / 2, b / 2) + (if a % 2 != b % 2 then 1 else 0)
  }

  predicate IsPow2(size: nat) {
    size == 1 || (size > 1 && size % 2 == 0 && IsPow2(size / 2))
  }

  lemma Doubled(p: nat)
    requires IsPow2(p)
    ensures IsPow2(2 * p)
  {
  }

  lemma ModDouble(a: nat, size: nat)
    requires size > 0
    ensures a % (2 * size) == 2 * ((a / 2) % size) + a % 2
  {
    var q, r := (a / 2) / size, (a / 2) % size;
    assert a / 2 == q * size + r;
    assert a == 2 * (q * size + r) + a % 2;
    assert 2 * (q * size + r) == q * (2 * size) + 2 * r;
    DivisionUnique(a, 2 * size, q, 2 * r + a % 2);
  }

  lemma DivisionUnique(a: int, d: int, q: int, r: int)
    requires d > 0 && a == q * d + r && 0 <= r < d
    ensures a / d == q && a % d == r
  {
    var q' := a / d;
    assert (q - q') * d == a % d - r;
    MultipleBounds(q - q', d);
  }

  lemma MultipleBounds(k: int, d: int)
    requires d > 0
    ensures k >= 1 ==> k * d >= d
    ensures k <= -1 ==> k * d <= -d
  {
    if k >= 1 {
      assert (k - 1) * d >= 0;
    } else if k <= -1 {
      assert (-1 - k) * d >= 0;
    }
  }

  /** Masking with one less than a power of two is the remainder. */
  lemma {:induction false} AndMask(a: nat, size: nat)
    requires IsPow2(size)
    ensures And(a, size - 1) == a % size
  {
    if size == 1 {
      assert a % 1 == 0;
    } else if a == 0 {
    } else {
      var half := size / 2;
      AndMask(a / 2, half);
      ModDouble(a, half);
      assert (size - 1) / 2 == half - 1 && (size - 1) % 2 == 1;
      AndOdd(a, size - 1);
    }
  }

  lemma AndOdd(a: nat, b: nat)
    requires b % 2 == 1
    ensures And(a, b) == 2 * And(a / 2, b / 2) + a % 2
  {
  }

  /** With no bit in common, `|` is addition. */
  lemma {:induction false} OrIsAdd(a: nat, b: nat, size: nat)
    requires IsPow2(size) && a % size == 0 && b < size
    ensures Or(a, b) == a + b
  {
    if a > 0 && b > 0 {
      ModDouble(a, size / 2);
      OrIsAdd(a / 2, b / 2, size / 2);
    }
  }

  lemma {:induction false} OrSelf(a: nat)
    ensures Or(a, a) == a && Xor(a, a) == 0
  {
    if a > 0 {
      OrSelf(a / 2);
    }
  }

  /** The bits below the lowest set bit, the way C programs compute them. */
  function Below(a: nat): nat
    requires a > 0
  {
    Xor(Or(a, a - 1), a)
  }

  lemma OrNone(a: nat)
    ensures Or(a, 0) == a
  {
  }

  lemma BelowOdd(a: nat)
    requires a % 2 == 1
    ensures Below(a) == 0
  {
    OrSelf(a / 2);
    assert (a - 1) / 2 == a / 2;
  }

  lemma BelowEven(a: nat)
    requires a > 0 && a % 2 == 0
    ensures Below(a) == 2 * Below(a / 2) + 1
  {
    var h := a / 2;
    assert a == 2 * h && (a - 1) / 2 == h - 1 && (a - 1) % 2 == 1;
    var o := Or(a, a - 1);
    assert o == 2 * Or(h, h - 1) + 1;
    assert o / 2 == Or(h, h - 1) && o % 2 == 1;
  }

  lemma {:induction false} BelowLowestBit(a: nat) returns (size: nat)
    requires a > 0
    ensures IsPow2(size) && a % size == 0 && size <= a
    ensures Below(a) == size - 1
    ensures Or(a, size) == a
  {
    if a % 2 == 1 {
      size := 1;
      BelowOdd(a);
      OrNone(a / 2);
      assert a % 1 == 0;
    } else {
      var half := BelowLowestBit(a / 2);
      size := 2 * half;
      BelowEven(a);
      ModDouble(a, half);
    }
  }

  lemma {:induction false} Pow2Divides(small: nat, large: nat)
    requires IsPow2(small) && IsPow2(large) && small <= large
    ensures large % small == 0
  {
    if small == 1 {
      assert large % 1 == 0;
    } else {
      Pow2Divides(small / 2, large / 2);
      ModDouble(large, small / 2);
    }
  }

  /** A multiple of a divisor of `m` that is below `m` is a whole divisor below it. */
  lemma RoomAboveMultiple(a: nat, size: nat, m: nat)
    requires size > 0 && a % size == 0 && m % size == 0 && a < m
    ensures a + size <= m
  {
    assert a == a / size * size && m == m / size * size;
    var k := m / size - a / size;
    assert k * size == m - a;
    MultipleBounds(k, size);
  }
}
