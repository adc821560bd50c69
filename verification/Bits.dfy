/** Bit operations on unsigned numbers, and words as little-endian bytes. */
module Bits {

  /** The number of values of a 64-bit word. */
  const U64: nat := 0x1_0000_0000_0000_0000

  /** The number of values of a 32-bit word. */
  const TWO32: nat := 0x1_0000_0000

  function Pow2(n: nat): (r: nat)
    ensures r > 0
  {
    if n == 0 then 1 else 2 * Pow2(n - 1)
  }

  lemma {:induction false} Pow2Sum(a: nat, b: nat)
    ensures Pow2(a + b) == Pow2(a) * Pow2(b)
  {
    if a > 0 {
      Pow2Sum(a - 1, b);
      assert 2 * (Pow2(a - 1) * Pow2(b)) == (2 * Pow2(a - 1)) * Pow2(b);
    }
  }

  lemma Pow2Of64()
    ensures Pow2(64) == U64
  {
    assert Pow2(8) == 256;
    Pow2Sum(8, 8);
    Pow2Sum(16, 16);
    Pow2Sum(32, 32);
  }

  /** A shift of a 64-bit word to the left; the distance is taken modulo 64. */
  function Shl64(a: nat, distance: nat): (r: nat)
    ensures r < U64
  {
    a * Pow2(distance % 64) % U64
  }

  lemma ShortShift(a: nat, b: nat)
    requires b < 64
    ensures Shl64(a, b) == a * Pow2(b) % U64
  {
    assert b % 64 == b;
  }

  lemma {:induction false} Pow2Grows(a: nat, b: nat)
    requires a <= b
    ensures Pow2(a) <= Pow2(b)
  {
    if a < b {
      Pow2Grows(a, b - 1);
    }
  }

  /** The bits of a and b, two by two, through op; op(false, false) is false. */
  function Zip(op: (bool, bool) -> bool, a: nat, b: nat): nat {
    if a == 0 && b == 0 then 0
    else 2 * Zip(op, a / 2, b / 2) + if op(a % 2 == 1, b % 2 == 1) then 1 else 0
  }

  function And(a: nat, b: nat): nat { Zip((x: bool, y: bool) => x && y, a, b) }

  function Or(a: nat, b: nat): nat { Zip((x: bool, y: bool) => x || y, a, b) }

  function Xor(a: nat, b: nat): nat { Zip((x: bool, y: bool) => x != y, a, b) }

  lemma {:induction false} ZipBound(op: (bool, bool) -> bool, a: nat, b: nat, n: nat)
    requires a < Pow2(n) && b < Pow2(n)
    ensures Zip(op, a, b) < Pow2(n)
  {
    if n > 0 {
      ZipBound(op, a / 2, b / 2, n - 1);
    }
  }

  /** Masking the lowest f bits is reduction modulo 2^f. */
  lemma {:induction false} AndMask(a: nat, f: nat)
    ensures And(a, Pow2(f) - 1) == a % Pow2(f)
  {
    hide And;
    if f == 0 {
      AndZero(a);
    } else {
      var m := Pow2(f - 1);
      AndMask(a / 2, f - 1);
      AndOdd(a, m);
      DoubleModulus(a, m);
    }
  }

  lemma AndOdd(a: nat, m: nat)
    requires m > 0
    ensures And(a, 2 * m - 1) == 2 * And(a / 2, m - 1) + a % 2
  {
    assert (2 * m - 1) / 2 == m - 1 && (2 * m - 1) % 2 == 1;
  }

  lemma {:induction false} AndZero(a: nat)
    ensures And(a, 0) == 0
  {
    if a > 0 {
      AndZero(a / 2);
    }
  }

  lemma DoubleModulus(a: nat, m: nat)
    requires m > 0
    ensures a % (2 * m) == 2 * (a / 2 % m) + a % 2
  {
    var q, r := a / 2 / m, a / 2 % m;
    assert a / 2 == q * m + r;
    assert a == (2 * m) * q + (2 * r + a % 2) by {
      assert 2 * (q * m) == (2 * m) * q;
    }
    Remainder(a, 2 * m, q, 2 * r + a % 2);
  }

  lemma Product(x: nat, y: nat)
    ensures 0 <= x * y && (0 < x && 0 < y ==> 0 < x * y)
  {
  }

  lemma AtLeast(m: int, d: int)
    requires m > 0
    ensures d >= 1 ==> m * d >= m
    ensures d <= -1 ==> m * d <= -m
  {
    if d >= 1 {
      assert m * d == m * (d - 1) + m;
    } else {
      assert -(m * d) == m * (-d - 1) + m;
    }
  }

  lemma SmallMultiple(m: int, d: int, x: int)
    requires m * d == x && -m < x < m
    ensures d == 0
  {
    AtLeast(m, d);
  }

  lemma Remainder(a: nat, m: nat, q: nat, r: nat)
    requires m > 0 && a == m * q + r && r < m
    ensures a % m == r && a / m == q
  {
    var q', r' := a / m, a % m;
    assert a == m * q' + r';
    assert m * (q - q') == r' - r by {
      assert m * (q - q') == m * q - m * q';
    }
    SmallMultiple(m, q - q', r' - r);
  }

  /** The quotient and the remainder, as numbers to compute with. */
  lemma Divide(a: nat, m: nat) returns (q: nat, r: nat)
    requires m > 0
    ensures a == m * q + r && r < m && a % m == r && a / m == q
  {
    q, r := a / m, a % m;
  }

  lemma QuotientIsNatural(a: nat, m: nat)
    requires m > 0
    ensures a / m >= 0
  {
    var q, _ := Divide(a, m);
  }

  /** v * 2^n modulo 2^64, and what overflows is added below: a rotation of a 64-bit word to the left. */
  function RotatedLeft(v: nat, n: nat): nat
    requires n <= 64
  {
    Product(v, Pow2(n));
    QuotientIsNatural(v, Pow2(64 - n));
    v * Pow2(n) % U64 + v / Pow2(64 - n)
  }

  lemma Regroup(q: nat, m: nat, k: nat, j: nat, s: nat)
    ensures (q * m) * k + (m * j + s) == m * (q * k + j) + s
  {
    assert (q * m) * k == m * (q * k);
    assert m * (q * k + j) == m * (q * k) + m * j;
  }

  lemma Distribute(q: nat, d: nat, r: nat, m: nat)
    ensures (q * d + r) * m == (q * m) * d + r * m
  {
    assert (q * d) * m == (q * m) * d;
  }

  lemma PositiveProduct(q: nat, m: nat)
    requires q > 0 && m > 0
    ensures q * m > 0
  {
    AtLeast(m, q);
  }

  /** Reducing first modulo a multiple of m changes nothing modulo m. */
  lemma ModuloOfMultiple(a: nat, m: nat, q: nat, n: nat)
    requires m > 0 && q > 0 && n == q * m && n > 0
    ensures a % n % m == a % m
  {
    var k, r := Divide(a, n);
    var j, s := Divide(r, m);
    Regroup(q, m, k, j, s);
    Remainder(a, m, q * k + j, s);
  }

  lemma Minus(m: int, j: int, k: int)
    ensures m * (j - k) == m * j - m * k
  {
  }

  lemma Distances(a: int, b: int, m: int, j: int, s: int, k: int, t: int, l: int, u: int)
    requires a == m * j + s && b == m * k + t && b - a == m * l + u
    requires 0 <= s < m && 0 <= t < m && 0 <= u < m
    ensures s == t <==> u == 0
    ensures a < b < a + m ==> s != t
  {
    Minus(m, k, j);
    Minus(m, k - j, l);
    if s == t {
      SmallMultiple(m, k - j - l, u);
    }
    if u == 0 {
      SmallMultiple(m, k - j - l, s - t);
    }
    if u == 0 && a < b < a + m {
      SmallMultiple(m, l, b - a);
    }
  }

  /** Two numbers have the same remainder exactly if m divides their distance. */
  lemma SameRemainder(a: nat, b: nat, m: nat)
    requires m > 0 && a <= b
    ensures a % m == b % m <==> (b - a) % m == 0
    ensures a < b < a + m ==> a % m != b % m
  {
    var j, s := Divide(a, m);
    var k, t := Divide(b, m);
    var l, u := Divide(b - a, m);
    Distances(a, b, m, j, s, k, t, l, u);
  }

  /** Setting bits above those of lo is addition. */
  lemma {:induction false} OrAbove(lo: nat, hi: nat, f: nat)
    requires lo < Pow2(f)
    ensures Or(lo, hi * Pow2(f)) == lo + hi * Pow2(f) == Or(hi * Pow2(f), lo)
  {
    hide Or;
    if f == 0 {
      OrZero(hi);
    } else {
      var m := Pow2(f - 1);
      OrAbove(lo / 2, hi, f - 1);
      DoubleProduct(hi, m);
      OrHalves(lo, hi * m);
    }
  }

  lemma DoubleProduct(a: nat, b: nat)
    ensures 0 <= a * b && a * (2 * b) == 2 * (a * b)
  {
  }

  lemma OrHalves(a: nat, b: nat)
    ensures Or(a, 2 * b) == 2 * Or(a / 2, b) + a % 2 && Or(2 * b, a) == 2 * Or(b, a / 2) + a % 2
  {
  }

  /** Two half bytes do not overlap. */
  lemma HalvesPack(upper: nat, lower: nat)
    requires upper < 16 && lower < 16
    ensures Or(upper * 16, lower) == 16 * upper + lower
  {
    assert Pow2(4) == 16;
    OrAbove(lower, upper, 4);
  }

  lemma {:induction false} OrZero(a: nat)
    ensures Or(0, a) == a == Or(a, 0)
  {
    if a > 0 {
      OrZero(a / 2);
    }
  }

  /** The lowest bit and the other bits of an exclusive or. */
  lemma XorHalves(a: nat, b: nat)
    ensures Xor(a, b) / 2 == Xor(a / 2, b / 2)
    ensures Xor(a, b) % 2 == 1 <==> (a % 2 == 1) != (b % 2 == 1)
  {
  }

  lemma {:induction false} XorCommutes(a: nat, b: nat)
    ensures Xor(a, b) == Xor(b, a)
  {
    if a > 0 || b > 0 {
      XorCommutes(a / 2, b / 2);
    }
  }

  lemma {:induction false} XorAssociates(a: nat, b: nat, c: nat)
    ensures Xor(Xor(a, b), c) == Xor(a, Xor(b, c))
    decreases a + b + c
  {
    if a > 0 || b > 0 || c > 0 {
      XorAssociates(a / 2, b / 2, c / 2);
      XorHalves(a, b);
      XorHalves(b, c);
      XorHalves(Xor(a, b), c);
      XorHalves(a, Xor(b, c));
    }
  }

  lemma {:induction false} XorZero(a: nat)
    ensures Xor(0, a) == a
  {
    if a > 0 {
      XorZero(a / 2);
    }
  }
}
