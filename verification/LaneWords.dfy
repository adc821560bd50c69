/**
 What a thread of the Argon2 kernel does with its four words (src/argon2_kernel.cl): the mixing
 function GB of section 3.6 of RFC 9106, the rotations, and the selection of a register by masks.
 Module BlockPermutation takes GB as an arbitrary function of four words and the selection as given.
 */
module LaneWords {
  import opened BlockPermutation
  import opened LittleEndian
  import Bits
  import opened BitStrings
  import Keccak

  // ------------------------------------------------------------ GB

  /** The lower half of a word. */
  function Trunc(x: nat): nat { x % Bits.TWO32 }

  lemma Halves(x: nat, y: nat)
    requires x < Bits.TWO32 && y < Bits.TWO32
    ensures 0 <= x * y < Bits.TWO32 * Bits.TWO32
  {
    if x > 0 {
      Bits.Minus(x, Bits.TWO32, y);
      Bits.AtLeast(x, Bits.TWO32 - y);
      Bits.Minus(Bits.TWO32, Bits.TWO32, x);
    }
  }

  /** x + y + 2 * trunc(x) * trunc(y) modulo 2^64 */
  function BlaMka(x: Word, y: Word): Word {
    Halves(Trunc(x), Trunc(y));
    (x + y + 2 * (Trunc(x) * Trunc(y))) % Bits.U64
  }

  lemma WrappedSum(a: nat, b: nat)
    ensures (a % Bits.U64 + b % Bits.U64) % Bits.U64 == (a + b) % Bits.U64
  {
  }

  /** f: the product of the halves is put together from its upper and lower 32 bits, and every sum wraps around. */
  method F(x: Word, y: Word) returns (r: Word)
    ensures r == BlaMka(x, y)
  {
    var xlo, ylo := x % Bits.TWO32, y % Bits.TWO32;
    Halves(xlo, ylo);
    var product: nat := xlo * ylo;
    var hi, lo := product / Bits.TWO32, product % Bits.TWO32;
    var built := hi * Bits.TWO32 + lo;
    assert built == product;
    WrappedSum(x + y, 2 * product);
    r := ((x + y) % Bits.U64 + 2 * built % Bits.U64) % Bits.U64;
  }

  /** GB of the standard, one assignment after the other. */
  function GB(xor: (Word, Word) -> Word, rotr: (Word, nat) -> Word, q: Quad<Word>): Quad<Word> {
    var a1 := BlaMka(q.a, q.b);
    var d1 := rotr(xor(q.d, a1), 32);
    var c1 := BlaMka(q.c, d1);
    var b1 := rotr(xor(q.b, c1), 24);
    var a2 := BlaMka(a1, b1);
    var d2 := rotr(xor(d1, a2), 16);
    var c2 := BlaMka(c1, d2);
    var b2 := rotr(xor(b1, c2), 63);
    Quad(a2, b2, c2, d2)
  }

  /** Half of GB: a and c are added up, d and b are mixed and rotated. */
  function HalfRound(xor: (Word, Word) -> Word, rotr: (Word, nat) -> Word, q: Quad<Word>, n: nat, k: nat): Quad<Word> {
    var a := BlaMka(q.a, q.b);
    var d := rotr(xor(q.d, a), n);
    var c := BlaMka(q.c, d);
    Quad(a, rotr(xor(q.b, c), k), c, d)
  }

  /** GB is two halves, with rotations by 32 and 24 and by 16 and 63. */
  lemma TwoHalfRounds(xor: (Word, Word) -> Word, rotr: (Word, nat) -> Word, q: Quad<Word>)
    ensures GB(xor, rotr, q) == HalfRound(xor, rotr, HalfRound(xor, rotr, q, 32, 24), 16, 63)
  {
    hide BlaMka;
  }

  /** g, in the registers of one thread */
  method G(xor: (Word, Word) -> Word, rotr: (Word, nat) -> Word, block: Quad<Word>) returns (r: Quad<Word>)
    ensures r == GB(xor, rotr, block)
  {
    var a, b, c, d := block.a, block.b, block.c, block.d;
    a := F(a, b);
    d := rotr(xor(d, a), 32);
    c := F(c, d);
    b := rotr(xor(b, c), 24);
    a := F(a, b);
    d := rotr(xor(d, a), 16);
    c := F(c, d);
    b := rotr(xor(b, c), 63);
    r := Quad(a, b, c, d);
  }

  // ------------------------------------------------------------ rotations in halves

  type Half = h: seq<bool> | |h| == 32 witness seq(32, _ => false)

  function RotateRight(x: Keccak.Bits, n: nat): Keccak.Bits
    requires n < 64
  {
    x[n..] + x[..n]
  }

  /** The rotation of a word that rotr64 carries out on its bits. */
  function Rotated(w: Word, n: nat): Word {
    Bits.Pow2Of64();
    if n < 64 then ValueOf(RotateRight(BitsOf(w, 64), n)) else w
  }

  /** As a number: the n lowest bits go to the top. */
  lemma RotatedValue(w: Word, n: nat)
    requires n < 64
    ensures Rotated(w, n) == w / Bits.Pow2(n) + w % Bits.Pow2(n) * Bits.Pow2(64 - n)
  {
    hide Bits.Pow2, BitsOf, ValueOf;
    Bits.Pow2Of64();
    ValueOfBits(w, 64);
    TurnedValue(BitsOf(w, 64), n);
  }

  /** amd_bitalign: 32 bits from bit n on of the word with the given halves. */
  function BitAlign(hi: Half, lo: Half, n: nat): Half
    requires n < 32
  {
    (lo + hi)[n..n + 32]
  }

  /** rotr64 where the compiler offers amd_bitalign: two halves, put together again. */
  method Rotr64(x: Keccak.Bits, n: nat) returns (r: Keccak.Bits)
    requires n < 64
    ensures r == RotateRight(x, n)
  {
    var lo, hi: Half := x[..32], x[32..];
    var rlo, rhi: Half;
    if n < 32 {
      rlo, rhi := BitAlign(hi, lo, n), BitAlign(lo, hi, n);
    } else {
      rlo, rhi := BitAlign(lo, hi, n - 32), BitAlign(hi, lo, n - 32);
    }
    assert x == lo + hi;
    r := rlo + rhi;
  }

  // ------------------------------------------------------------ registers by number

  /** Words with the masks of all ones and all zeros. */
  datatype Masks<!W> = Masks(and: (W, W) -> W, xor: (W, W) -> W, zero: W, ones: W)

  ghost predicate Laws<W(!new)>(m: Masks<W>) {
    && (forall x {:trigger m.xor(x, m.zero)} {:trigger m.xor(m.zero, x)} :: m.xor(x, m.zero) == x == m.xor(m.zero, x))
    && (forall x {:trigger m.and(m.zero, x)} :: m.and(m.zero, x) == m.zero)
    && (forall x {:trigger m.and(m.ones, x)} :: m.and(m.ones, x) == x)
    && (forall x, y {:trigger m.xor(x, m.xor(y, x))} :: m.xor(x, m.xor(y, x)) == y)
  }

  /** cmpeq_mask */
  function CmpEqMask<W>(m: Masks<W>, test: bv8, ref: bv8): W { if test == ref then m.ones else m.zero }

  /** block_th_get: no branch, yet the register with the given number. */
  method ThGet<W(!new)>(m: Masks<W>, b: Quad<W>, idx: bv8) returns (res: W)
    requires Laws(m)
    ensures idx < 4 ==> res == b.Get(idx)
  {
    res := m.zero;
    res := m.xor(res, m.and(CmpEqMask(m, idx, 0), b.a));
    res := m.xor(res, m.and(CmpEqMask(m, idx, 1), b.b));
    res := m.xor(res, m.and(CmpEqMask(m, idx, 2), b.c));
    res := m.xor(res, m.and(CmpEqMask(m, idx, 3), b.d));
  }

  method SetMasked<W(!new)>(m: Masks<W>, old': W, v: W, mask: bool) returns (r: W)
    requires Laws(m)
    ensures r == if mask then v else old'
  {
    r := m.xor(old', m.and(if mask then m.ones else m.zero, m.xor(v, old')));
  }

  /** block_th_set */
  method ThSet<W(!new)>(m: Masks<W>, b: Quad<W>, idx: bv8, v: W) returns (r: Quad<W>)
    requires Laws(m)
    ensures idx < 4 ==> r == b.Set(idx, v)
  {
    var a := SetMasked(m, b.a, v, idx == 0);
    var b' := SetMasked(m, b.b, v, idx == 1);
    var c := SetMasked(m, b.c, v, idx == 2);
    var d := SetMasked(m, b.d, v, idx == 3);
    r := Quad(a, b', c, d);
  }
}
