/**
 The arithmetic of targets (src/target.rs): 256-bit numbers in four words, shifts and comparisons,
 the compact form, and the difficulty of the pool.
 */
module Target {
  import opened Bits
  import opened LittleEndian

  type Uint256 = v: seq<Word> | |v| == 4 witness [0, 0, 0, 0]

  /** The number that the words stand for, the lowest word first. */
  function Value(v: Uint256): nat { Horner(U64, v[0], v[1], v[2], v[3]) }

  function Horner(w: nat, a: nat, b: nat, c: nat, d: nat): nat { a + w * (b + w * (c + w * d)) }

  /** 2^256 */
  const LIMIT: nat := U64 * U64 * U64 * U64

  lemma ValueBound(v: Uint256)
    ensures Value(v) < LIMIT
  {
  }

  // ------------------------------------------------------------ shifts

  /** What a word shifted by b keeps, and what it carries into the next. */
  function Low(x: Word, b: nat): Word
    requires b < 64
  {
    Shl64(x, b)
  }

  function Carry(x: Word, b: nat): nat
    requires b < 64
  {
    if b == 0 then 0 else Shr(x, 64 - b)
  }

  /** Nothing of a shifted word is lost, and the carry fits below the next word's low part. */
  lemma SplitWord(x: Word, b: nat)
    requires b < 64
    ensures x * Pow2(b) == Low(x, b) + U64 * Carry(x, b)
    ensures Carry(x, b) < Pow2(b) && Low(x, b) <= U64 - Pow2(b)
  {
    hide Shl64;
    ShortShift(x, b);
    var p, q := Pow2(b), Pow2(64 - b);
    Pow2Sum(64 - b, b);
    Pow2Of64();
    SplitProduct(x, p, q, U64);
    if b == 0 {
      Remainder(x, U64, 0, x);
    }
  }

  lemma SplitProduct(x: nat, p: nat, q: nat, w: nat)
    requires p > 0 && q > 0 && w == q * p && x < w
    ensures w > 0 && x * p == x * p % w + w * (x / q) && 0 <= x / q < p && x * p % w <= w - p
  {
    PositiveProduct(q, p);
    var k, r := Divide(x, q);
    Distribute(q, k, r, p);
    Below(r, q, p);
    Remainder(x * p, w, k, r * p);
    QuotientBelow(q, k, r, p);
  }

  lemma Below(r: nat, q: nat, p: nat)
    requires r < q && p > 0
    ensures 0 <= r * p <= q * p - p
  {
    Minus(p, q - 1, r);
    Product(p, q - 1 - r);
    Product(p, r);
  }

  lemma QuotientBelow(q: nat, k: nat, r: nat, p: nat)
    requires q > 0 && q * k + r < q * p
    ensures k < p
  {
    Minus(q, k, p);
    AtLeast(q, k - p);
  }

  /** A word of the shifted number: the low part of one word and the carry of the one below. */
  function Shifted(v: Uint256, b: nat, k: int): nat
    requires b < 64
  {
    (if 0 <= k < 4 then Low(v[k], b) else 0) + (if 1 <= k <= 4 then Carry(v[k - 1], b) else 0)
  }

  /** The sums do not overflow a word. */
  lemma ShiftedFits(v: Uint256, b: nat, k: int)
    requires b < 64
    ensures Shifted(v, b, k) < U64
  {
    if 0 <= k < 4 { SplitWord(v[k], b); }
    if 1 <= k <= 4 { SplitWord(v[k - 1], b); }
  }

  lemma Factor(w: nat, x: nat, y: nat, p: nat)
    ensures (x + w * y) * p == x * p + w * (y * p)
  {
  }

  /** Word by word multiplication with carries. */
  lemma MultipliedWords(w: nat, p: nat, x0: nat, x1: nat, x2: nat, x3: nat, l0: nat, l1: nat, l2: nat, l3: nat,
                        c0: nat, c1: nat, c2: nat, c3: nat)
    requires x0 * p == l0 + w * c0 && x1 * p == l1 + w * c1 && x2 * p == l2 + w * c2 && x3 * p == l3 + w * c3
    ensures Horner(w, x0, x1, x2, x3) * p == l0 + w * Horner(w, l1 + c0, l2 + c1, l3 + c2, c3)
  {
    Factor(w, x2, x3, p);
    Factor(w, x1, x2 + w * x3, p);
    Factor(w, x0, x1 + w * (x2 + w * x3), p);
    assert l3 + w * c3 + c2 == (l3 + c2) + w * c3;
    Collect(w, l2, c2, l3 + w * c3);
    Collect(w, l1, c1, l2 + w * (l3 + c2 + w * c3));
    Collect(w, l0, c0, l1 + w * (l2 + c1 + w * (l3 + c2 + w * c3)));
  }

  lemma Collect(w: nat, l: nat, c: nat, rest: nat)
    ensures (l + w * c) + w * rest == l + w * (c + rest)
  {
  }

  // Moving up by whole words: what stays below w^4, and the multiple of w^4 that is dropped.

  lemma Push(w: nat, a: nat, b: nat, m: nat, c: nat)
    ensures a + w * (b + m * c) == (a + w * b) + (w * m) * c
  {
    assert w * (m * c) == (w * m) * c;
  }

  /** Numbers are cut in two at a power of w, and the upper part moves by another. */
  lemma MovedTop(n: nat, low: nat, m: nat, top: nat, p: nat)
    requires n == low + m * top
    ensures n * p == p * low + (p * m) * top
  {
    assert n * p == p * low + p * (m * top);
    Associate(p, m, top);
  }

  lemma Powers(w: nat)
    ensures w * (w * w) == w * w * w && w * (w * w * w) == w * w * w * w && (w * w) * (w * w) == w * w * w * w
  {
    Associate(w, w, w);
    Associate(w, w * w, w);
    Associate(w * w, w, w);
  }

  lemma UpByNone(w: nat, y0: nat, y1: nat, y2: nat, y3: nat, y4: nat)
    ensures y0 + w * Horner(w, y1, y2, y3, y4) == (w * w * w * w) * y4 + Horner(w, y0, y1, y2, y3)
  {
    Powers(w);
    Push(w, y2, y3, w, y4);
    Push(w, y1, y2 + w * y3, w * w, y4);
    Push(w, y0, y1 + w * (y2 + w * y3), w * w * w, y4);
  }

  lemma UpByOne(w: nat, y0: nat, y1: nat, y2: nat, y3: nat, y4: nat)
    ensures (y0 + w * Horner(w, y1, y2, y3, y4)) * w == (w * w * w * w) * (y3 + w * y4) + Horner(w, 0, y0, y1, y2)
  {
    Powers(w);
    var top := y3 + w * y4;
    Push(w, y1, y2, w, top);
    Push(w, y0, y1 + w * y2, w * w, top);
    MovedTop(y0 + w * Horner(w, y1, y2, y3, y4), y0 + w * (y1 + w * y2), w * w * w, top, w);
  }

  lemma UpByTwo(w: nat, y0: nat, y1: nat, y2: nat, y3: nat, y4: nat)
    ensures (y0 + w * Horner(w, y1, y2, y3, y4)) * (w * w) == (w * w * w * w) * (y2 + w * (y3 + w * y4)) +
      Horner(w, 0, 0, y0, y1)
  {
    Powers(w);
    var top := y2 + w * (y3 + w * y4);
    Push(w, y0, y1, w, top);
    MovedTop(y0 + w * Horner(w, y1, y2, y3, y4), y0 + w * y1, w * w, top, w * w);
    Associate(w, w, y0 + w * y1);
  }

  lemma UpByThree(w: nat, y0: nat, y1: nat, y2: nat, y3: nat, y4: nat)
    ensures (y0 + w * Horner(w, y1, y2, y3, y4)) * (w * w * w)
         == (w * w * w * w) * Horner(w, y1, y2, y3, y4) + Horner(w, 0, 0, 0, y0)
  {
    MovedTop(y0 + w * Horner(w, y1, y2, y3, y4), y0, w, Horner(w, y1, y2, y3, y4), w * w * w);
    Associate(w, w, y0);
    Associate(w * w, w, y0);
    Associate(w, w, w * y0);
  }

  /** The power of w that belongs to a number of words. */
  function Power(w: nat, words: nat): nat
    requires words <= 3
  {
    if words == 0 then 1 else if words == 1 then w else if words == 2 then w * w else w * w * w
  }

  lemma MovedWords(w: nat, y: seq<nat>, words: nat, r: seq<nat>) returns (q: nat)
    requires |y| == 5 && |r| == 4 && words <= 3 && forall k: nat | k < 4 ::
      r[k] == if k < words then 0 else y[k - words]
    ensures (y[0] + w * Horner(w, y[1], y[2], y[3], y[4])) * Power(w, words)
         == (w * w * w * w) * q + Horner(w, r[0], r[1], r[2], r[3])
  {
    if words == 0 {
      q := y[4];
      UpByNone(w, y[0], y[1], y[2], y[3], y[4]);
    } else if words == 1 {
      q := y[3] + w * y[4];
      UpByOne(w, y[0], y[1], y[2], y[3], y[4]);
    } else if words == 2 {
      q := y[2] + w * (y[3] + w * y[4]);
      UpByTwo(w, y[0], y[1], y[2], y[3], y[4]);
    } else {
      q := Horner(w, y[1], y[2], y[3], y[4]);
      UpByThree(w, y[0], y[1], y[2], y[3], y[4]);
    }
  }

  lemma PowerIsPow2(words: nat)
    requires words <= 3
    ensures Pow2(64 * words) == Power(U64, words)
  {
    Pow2Of64();
    assert Pow2(0) == 1;
    if words == 2 {
      Pow2Sum(64, 64);
    } else if words == 3 {
      Pow2Sum(64, 64);
      Pow2Sum(64, 128);
    }
  }

  lemma LimitIsPow2()
    ensures LIMIT == Pow2(256)
  {
    Pow2Of64();
    Pow2Sum(64, 64);
    Pow2Sum(128, 128);
  }

  lemma Dropped(n: nat, limit: nat, rest: nat)
    requires limit > 0
    ensures n * (limit * rest) % limit == 0
  {
    assert n * (limit * rest) == limit * (n * rest);
    Product(n, rest);
    Remainder(n * (limit * rest), limit, n * rest, 0);
  }

  lemma BeyondAllWords(n: nat, words: nat)
    requires words >= 4
    ensures n * Pow2(64 * words) % Pow2(256) == 0
  {
    Pow2Sum(256, 64 * words - 256);
    Dropped(n, Pow2(256), Pow2(64 * words - 256));
  }

  lemma ShiftedBits(v: Uint256, b: nat, y: seq<nat>)
    requires b < 64 && |y| == 5 && forall k | 0 <= k < 5 :: y[k] == Shifted(v, b, k)
    ensures Value(v) * Pow2(b) == y[0] + U64 * Horner(U64, y[1], y[2], y[3], y[4])
  {
    SplitWord(v[0], b);
    SplitWord(v[1], b);
    SplitWord(v[2], b);
    SplitWord(v[3], b);
    MultipliedWords(U64, Pow2(b), v[0], v[1], v[2], v[3], Low(v[0], b), Low(v[1], b), Low(v[2], b), Low(v[3], b),
                    Carry(v[0], b), Carry(v[1], b), Carry(v[2], b), Carry(v[3], b));
  }

  lemma Associate(a: nat, b: nat, c: nat)
    ensures a * (b * c) == (a * b) * c
  {
  }

  lemma ShiftedNumber(w: nat, limit: nat, n: nat, pw: nat, y: seq<nat>, words: nat, r: seq<nat>)
    requires |y| == 5 && |r| == 4 && words <= 3 && forall k: nat | k < 4 ::
      r[k] == if k < words then 0 else y[k - words]
    requires n == y[0] + w * Horner(w, y[1], y[2], y[3], y[4]) && pw == Power(w, words)
    requires limit == w * w * w * w && Horner(w, r[0], r[1], r[2], r[3]) < limit
    ensures n * pw % limit == Horner(w, r[0], r[1], r[2], r[3])
  {
    var q := MovedWords(w, y, words, r);
    Product(n, pw);
    Remainder(n * pw, limit, q, Horner(w, r[0], r[1], r[2], r[3]));
  }

  lemma FourWords()
    ensures LIMIT == U64 * U64 * U64 * U64
  {
  }

  lemma ShlValueWithin(v: Uint256, b: nat, words: nat, r: Uint256)
    requires b < 64 && words <= 3 && forall k: nat | k < 4 :: r[k] == Shifted(v, b, k - words)
    ensures Value(r) == (Value(v) * Pow2(b)) * Pow2(64 * words) % LIMIT
  {
    var y := [Shifted(v, b, 0), Shifted(v, b, 1), Shifted(v, b, 2), Shifted(v, b, 3), Shifted(v, b, 4)];
    ShiftedBits(v, b, y);
    PowerIsPow2(words);
    ValueBound(r);
    FourWords();
    Product(Value(v), Pow2(b));
    ShiftedNumber(U64, LIMIT, Value(v) * Pow2(b), Pow2(64 * words), y, words, r);
  }

  lemma NoWordsLeft(v: Uint256, b: nat, words: nat, r: Uint256)
    requires b < 64 && words > 3 && forall k: nat | k < 4 :: r[k] == Shifted(v, b, k - words)
    ensures Value(r) == (Value(v) * Pow2(b)) * Pow2(64 * words) % LIMIT
  {
    hide Pow2, Value;
    assert r == [0, 0, 0, 0];
    assert Value([0, 0, 0, 0]) == 0 by { ZeroValue(); }
    var n := Value(v) * Pow2(b);
    Product(Value(v), Pow2(b));
    BeyondAllWords(n, words);
    LimitIsPow2();
  }

  lemma ZeroValue()
    ensures Value([0, 0, 0, 0]) == 0
  {
  }

  lemma ShlValue(v: Uint256, shift: nat, r: Uint256)
    requires forall k: nat | k < 4 :: r[k] == Shifted(v, shift % 64, k - shift / 64)
    ensures Value(r) == Value(v) * Pow2(shift) % LIMIT
  {
    hide Value, Pow2, Shifted;
    var b, words := shift % 64, shift / 64;
    Pow2Sum(b, 64 * words);
    Associate(Value(v), Pow2(b), Pow2(64 * words));
    if words <= 3 {
      ShlValueWithin(v, b, words, r);
    } else {
      NoWordsLeft(v, b, words, r);
    }
  }

  /** shl: for every distance it is multiplication by a power of two modulo 2^256, and no += overflows. */
  method Shl(original: Uint256, shift: nat) returns (r: Uint256)
    ensures Value(r) == Value(original) * Pow2(shift) % LIMIT
  {
    var ret: seq<nat> := [0, 0, 0, 0];
    var wordShift, bitShift := shift / 64, shift % 64;
    for i: nat := 0 to 4
      invariant |ret| == 4
      invariant forall k: nat | k < 4 && k - wordShift < i :: ret[k] == Shifted(original, bitShift, k - wordShift)
      invariant forall k: nat | k < 4 && k - wordShift == i ::
        ret[k] == if i > 0 then Carry(original[i - 1], bitShift) else 0
      invariant forall k: nat | k < 4 && k - wordShift > i :: ret[k] == 0
    {
      if bitShift < 64 && i + wordShift < 4 {
        ShiftedFits(original, bitShift, i);
        assert ret[i + wordShift] + Shl64(original[i], bitShift) < U64;
        ret := ret[i + wordShift := ret[i + wordShift] + Shl64(original[i], bitShift)];
      }
      if bitShift > 0 && i + wordShift + 1 < 4 {
        SplitWord(original[i], bitShift);
        assert ret[i + wordShift + 1] + Shr(original[i], 64 - bitShift) < U64;
        ret := ret[i + wordShift + 1 := ret[i + wordShift + 1] + Shr(original[i], 64 - bitShift)];
      }
    }
    forall k: nat | k < 4 ensures ret[k] < U64 {
      ShiftedFits(original, bitShift, k - wordShift);
    }
    r := ret;
    ShlValue(original, shift, r);
  }

  // ------------------------------------------------------------ comparison

  datatype Ordering = Less | Equal | Greater

  function Compare(a: nat, b: nat): Ordering { if a < b then Less else if a == b then Equal else Greater }

  lemma HigherWordDecides(w: nat, x: nat, y: nat, d: nat, e: nat)
    requires x < w && d < e
    ensures x + w * d < y + w * e
  {
    Minus(w, e, d);
    AtLeast(w, e - d);
  }

  lemma WordsDecide(w: nat, x: nat, y: nat, d: nat, e: nat)
    requires x < w && y < w
    ensures Compare(x + w * d, y + w * e) == if d == e then Compare(x, y) else Compare(d, e)
  {
    if d < e {
      HigherWordDecides(w, x, y, d, e);
    } else if e < d {
      HigherWordDecides(w, y, x, e, d);
    }
  }

  /** The number of the words from k on. */
  function From(w: nat, v: seq<nat>, k: nat): nat
    requires |v| == 4 && k <= 4
    decreases 4 - k
  {
    if k == 4 then 0 else v[k] + w * From(w, v, k + 1)
  }

  /** cmp: from the highest word down, the first difference decides; it is the order of the numbers. */
  method Cmp(a: Uint256, b: Uint256) returns (r: Ordering)
    ensures r == Compare(Value(a), Value(b))
  {
    var i := 4;
    ghost var w := U64;
    while i > 0
      invariant i <= 4 && From(w, a, i) == From(w, b, i)
    {
      i := i - 1;
      WordsDecide(w, a[i], b[i], From(w, a, i + 1), From(w, b, i + 1));
      if a[i] != b[i] {
        LowerWordsDoNotMatter(w, a, b, i);
        ValueIsFrom(a);
        ValueIsFrom(b);
        return if a[i] < b[i] then Less else Greater;
      }
    }
    ValueIsFrom(a);
    ValueIsFrom(b);
    r := Equal;
  }

  lemma {:induction false} LowerWordsDoNotMatter(w: nat, a: seq<nat>, b: seq<nat>, i: nat)
    requires |a| == |b| == 4 && i < 4 && forall k | 0 <= k < 4 :: a[k] < w && b[k] < w
    requires From(w, a, i) != From(w, b, i)
    ensures Compare(From(w, a, 0), From(w, b, 0)) == Compare(From(w, a, i), From(w, b, i))
  {
    if i > 0 {
      WordsDecide(w, a[i - 1], b[i - 1], From(w, a, i), From(w, b, i));
      LowerWordsDoNotMatter(w, a, b, i - 1);
    }
  }

  lemma ValueIsFrom(v: Uint256)
    ensures Value(v) == From(U64, v, 0)
  {
    FromIsHorner(U64, v);
  }

  lemma FromIsHorner(w: nat, v: seq<nat>)
    requires |v| == 4
    ensures From(w, v, 0) == Horner(w, v[0], v[1], v[2], v[3])
  {
    assert From(w, v, 3) == v[3] + w * From(w, v, 4);
    assert From(w, v, 2) == v[2] + w * From(w, v, 3);
    assert From(w, v, 1) == v[1] + w * From(w, v, 2);
  }

  // ------------------------------------------------------------ the compact form

  /**
   What u256_from_compact_target makes of its 32 bits: below exponent 3 the mantissa is shifted before its sign is
   looked at.
   */
  function CompactValue(bits: nat): nat {
    var exponent, mantissa := bits / 0x1_00_0000, bits % 0x1_00_0000;
    if exponent < 3 then mantissa / Pow256(3 - exponent)
    else if mantissa >= 0x80_0000 then 0
    else mantissa * Pow2(8 * (exponent - 3)) % LIMIT
  }

  /**
   What the 32 bits of a compact target stand for: a mantissa of 24 bits, of which the top one is a sign,
   scaled by 256^(exponent - 3). A negative target is taken as zero.
   */
  function Intended(bits: nat): nat {
    var exponent, mantissa := bits / 0x1_00_0000, bits % 0x1_00_0000;
    if mantissa >= 0x80_0000 then 0
    else if exponent < 3 then Shr(mantissa, 8 * (3 - exponent))
    else mantissa * Pow2(8 * (exponent - 3)) % LIMIT
  }

  /** The two agree except for negative mantissas with exponent 1 or 2. */
  lemma CompactMeetsIntended(bits: nat)
    requires bits < 0x1_0000_0000
    ensures CompactValue(bits) == Intended(bits) <==> !(1 <= bits / 0x1_00_0000 <= 2 && bits % 0x1_00_0000 >= 0x80_0000)
  {
    var exponent, mantissa := bits / 0x1_00_0000, bits % 0x1_00_0000;
    if exponent < 3 {
      assert Pow256(3 - exponent) == Pow2(8 * (3 - exponent));
    }
  }

  /** Exponent 1 and the mantissa's top bit alone: a negative target, but the code answers 128. */
  lemma NegativeTargetIsPositive()
    ensures Intended(0x0180_0000) == 0 && CompactValue(0x0180_0000) == 0x80
  {
  }

  /** 256^n for the exponents that shift a mantissa down */
  function Pow256(n: nat): (r: nat)
    requires n <= 3
    ensures r > 0 && r == Pow2(8 * n)
  {
    Pow2OfBytes(0);
    Pow2OfBytes(1);
    Pow2OfBytes(2);
    if n == 0 then 1 else if n == 1 then 0x100 else if n == 2 then 0x1_0000 else 0x1_00_0000
  }

  method FromCompactTarget(bits: nat) returns (r: Uint256)
    requires bits < 0x1_0000_0000
    ensures Value(r) == CompactValue(bits)
    ensures Value(r) == Intended(bits) <==> !(1 <= bits / 0x1_00_0000 <= 2 && bits % 0x1_00_0000 >= 0x80_0000)
  {
    CompactMeetsIntended(bits);
    var unshifted := bits / 0x1_00_0000;
    var mant, expt;
    if unshifted <= 3 {
      mant, expt := bits % 0x1_00_0000 / Pow256(3 - unshifted), 0;
    } else {
      mant, expt := bits % 0x1_00_0000, 8 * (unshifted - 3);
    }
    if mant > 0x7f_ffff {
      r := [0, 0, 0, 0];
    } else {
      r := Shl([mant, 0, 0, 0], expt);
      assert Value([mant, 0, 0, 0]) == mant;
      assert Pow2(0) == 1;
      if unshifted <= 3 {
        Remainder(mant, LIMIT, 0, mant);
      }
    }
  }
}
