/** Strings of bits, the least significant first, and the numbers that they stand for. */
module BitStrings {
  import opened Bits

  function Bit(b: bool): nat { if b then 1 else 0 }

  /** The n lowest bits of a number. */
  function BitsOf(w: nat, n: nat): (r: seq<bool>)
    ensures |r| == n
  {
    if n == 0 then [] else [w % 2 == 1] + BitsOf(w / 2, n - 1)
  }

  function ValueOf(bits: seq<bool>): (r: nat)
    ensures r < Pow2(|bits|)
  {
    if bits == [] then 0 else Bit(bits[0]) + 2 * ValueOf(bits[1..])
  }

  lemma {:induction false} ValueOfBits(w: nat, n: nat)
    requires w < Pow2(n)
    ensures ValueOf(BitsOf(w, n)) == w
  {
    if n > 0 {
      ValueOfBits(w / 2, n - 1);
    }
  }

  lemma {:induction false} BitsOfValue(bits: seq<bool>)
    ensures BitsOf(ValueOf(bits), |bits|) == bits
  {
    if bits != [] {
      BitsOfValue(bits[1..]);
    }
  }

  lemma {:induction false} ValueOfBoth(a: seq<bool>, b: seq<bool>)
    ensures ValueOf(a + b) == ValueOf(a) + Pow2(|a|) * ValueOf(b)
  {
    if a == [] {
      assert a + b == b;
    } else {
      assert (a + b)[1..] == a[1..] + b;
      ValueOfBoth(a[1..], b);
      assert (a + b)[0] == a[0];
      FirstBit(Bit(a[0]), ValueOf(a[1..]), Pow2(|a| - 1), ValueOf(b));
    }
  }

  lemma FirstBit(bit: nat, low: nat, p: nat, high: nat)
    ensures bit + 2 * (low + p * high) == bit + 2 * low + (2 * p) * high
  {
    assert (2 * p) * high == 2 * (p * high);
  }

  lemma Commute(a: nat, b: nat)
    ensures a * b == b * a
  {
  }

  /** The lowest k bits and the others. */
  lemma SplitValue(x: seq<bool>, k: nat)
    requires k <= |x|
    ensures ValueOf(x) == ValueOf(x[..k]) + Pow2(k) * ValueOf(x[k..])
    ensures ValueOf(x) % Pow2(k) == ValueOf(x[..k]) && ValueOf(x) / Pow2(k) == ValueOf(x[k..])
  {
    assert x == x[..k] + x[k..];
    ValueOfBoth(x[..k], x[k..]);
    Remainder(ValueOf(x), Pow2(k), ValueOf(x[k..]), ValueOf(x[..k]));
  }

  /** The lowest k bits go above the others: a rotation. */
  lemma TurnedValue(x: seq<bool>, k: nat)
    requires k <= |x|
    ensures ValueOf(x[k..] + x[..k]) == ValueOf(x) / Pow2(k) + ValueOf(x) % Pow2(k) * Pow2(|x| - k)
  {
    hide Pow2, ValueOf;
    SplitValue(x, k);
    ValueOfBoth(x[k..], x[..k]);
    Commute(Pow2(|x| - k), ValueOf(x[..k]));
  }

  /** k zeros come in below, and the highest k bits are dropped. */
  lemma ShiftedValue(x: seq<bool>, k: nat, zeros: seq<bool>)
    requires k <= |x| && |zeros| == k && forall i | 0 <= i < k :: !zeros[i]
    ensures ValueOf(zeros + x[..|x| - k]) == ValueOf(x) * Pow2(k) % Pow2(|x|)
  {
    hide Pow2, ValueOf;
    var low := x[..|x| - k];
    ZerosBelow(low, zeros);
    LowBits(x, |x| - k);
    ScaledRemainder(ValueOf(x), |x|, k);
    SameProduct(ValueOf(low), ValueOf(x) % Pow2(|x| - k), Pow2(k));
  }

  lemma LowBits(x: seq<bool>, k: nat)
    requires k <= |x|
    ensures ValueOf(x[..k]) == ValueOf(x) % Pow2(k)
  {
    SplitValue(x, k);
  }

  lemma SameProduct(a: nat, b: nat, p: nat)
    requires a == b
    ensures a * p == b * p
  {
  }

  lemma ZerosBelow(low: seq<bool>, zeros: seq<bool>)
    requires forall i | 0 <= i < |zeros| :: !zeros[i]
    ensures ValueOf(zeros + low) == ValueOf(low) * Pow2(|zeros|)
  {
    hide Pow2, ValueOf;
    ValueOfBoth(zeros, low);
    ValueOfZeros(zeros);
    Commute(Pow2(|zeros|), ValueOf(low));
  }

  lemma {:induction false} ValueOfZeros(zeros: seq<bool>)
    requires forall i | 0 <= i < |zeros| :: !zeros[i]
    ensures ValueOf(zeros) == 0
  {
    if zeros != [] {
      ValueOfZeros(zeros[1..]);
    }
  }

  lemma ScaledRemainder(x: nat, n: nat, k: nat)
    requires k <= n
    ensures x * Pow2(k) % Pow2(n) == x % Pow2(n - k) * Pow2(k)
  {
    Pow2Sum(n - k, k);
    RemainderOfProduct(x, Pow2(n - k), Pow2(k));
  }

  lemma RemainderOfProduct(x: nat, q: nat, p: nat)
    requires q > 0 && p > 0
    ensures q * p > 0 && x * p % (q * p) == x % q * p
  {
    PositiveProduct(q, p);
    var j, r := Divide(x, q);
    Distribute(q, j, r, p);
    Minus(p, q, r);
    AtLeast(p, q - r);
    Product(r, p);
    Product(x, p);
    Remainder(x * p, q * p, j, r * p);
  }

  /** An operation bit by bit is the operation on the numbers. */
  lemma {:induction false} ValueOfZip(op: (bool, bool) -> bool, a: seq<bool>, b: seq<bool>, r: seq<bool>)
    requires |a| == |b| == |r| && !op(false, false) && forall i | 0 <= i < |a| :: r[i] == op(a[i], b[i])
    ensures ValueOf(r) == Zip(op, ValueOf(a), ValueOf(b))
  {
    if a != [] {
      ValueOfZip(op, a[1..], b[1..], r[1..]);
      var x, y := ValueOf(a), ValueOf(b);
      assert x / 2 == ValueOf(a[1..]) && y / 2 == ValueOf(b[1..]);
      assert (x % 2 == 1) == a[0] && (y % 2 == 1) == b[0];
      ZipOfHalves(op, x, y);
    }
  }

  lemma ZipOfHalves(op: (bool, bool) -> bool, a: nat, b: nat)
    requires !op(false, false)
    ensures Zip(op, a, b) == 2 * Zip(op, a / 2, b / 2) + Bit(op(a % 2 == 1, b % 2 == 1))
  {
  }

  /** All ones minus a number. */
  lemma {:induction false} ValueOfNot(a: seq<bool>, r: seq<bool>)
    requires |a| == |r| && forall i | 0 <= i < |a| :: r[i] == !a[i]
    ensures ValueOf(r) + ValueOf(a) == Pow2(|a|) - 1
  {
    if a != [] {
      ValueOfNot(a[1..], r[1..]);
    }
  }

  lemma OneBitMore(x: seq<bool>, i: nat)
    requires i < |x|
    ensures ValueOf(x[..i + 1]) == ValueOf(x[..i]) + Pow2(i) * Bit(x[i])
  {
    assert x[..i + 1] == x[..i] + [x[i]];
    ValueOfBoth(x[..i], [x[i]]);
  }

  lemma ValueOfFour(four: seq<bool>)
    requires |four| == 4
    ensures ValueOf(four) == Bit(four[0]) + 2 * Bit(four[1]) + 4 * Bit(four[2]) + 8 * Bit(four[3])
  {
    ValueOfBoth([four[0], four[1]], [four[2], four[3]]);
    assert four == [four[0], four[1]] + [four[2], four[3]];
    ValueOfTwo(four[0], four[1]);
    ValueOfTwo(four[2], four[3]);
    assert Pow2(2) == 4;
  }

  lemma ValueOfTwo(a: bool, b: bool)
    ensures ValueOf([a, b]) == Bit(a) + 2 * Bit(b)
  {
    assert [a, b][1..] == [b] && [b][1..] == [];
  }

  /** Four bits, from bit 4k on. */
  lemma FourBits(x: seq<bool>, k: nat)
    requires 4 * k + 4 <= |x|
    ensures Bit(x[4 * k]) + 2 * Bit(x[4 * k + 1]) + 4 * Bit(x[4 * k + 2]) + 8 * Bit(x[4 * k + 3])
         == ValueOf(x) / Pow2(4 * k) % 16
  {
    hide ValueOf;
    var rest := x[4 * k..];
    assert ValueOf(rest) == ValueOf(x) / Pow2(4 * k) by { SplitValue(x, 4 * k); }
    assert Pow2(4) == 16;
    assert ValueOf(rest[..4]) == ValueOf(rest) % 16 by { SplitValue(rest, 4); }
    ValueOfFour(rest[..4]);
  }
}
