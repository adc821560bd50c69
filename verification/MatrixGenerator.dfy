/**
 The generator XoShiRo256++ (src/pow/xoshiro.rs) and the matrices made from its output
 (src/pow/heavy_hash.rs): the closures of rand_matrix_no_rank_check against the nested loops of the
 comment above it.

 Words are an arbitrary type with the operations of the generator; at the end they are 64 bits.
 */
module MatrixGenerator {
  import Numbers = Bits
  import opened BitStrings
  import Keccak
  import MatrixRank

  type Entry = e: nat | e <= 15

  /** shl is the shift by 17, unshl undoes x ^ (x << 17), nibble takes four bits of a word. */
  datatype Words<!W> = Words(zero: W, xor: (W, W) -> W, add: (W, W) -> W, shl: W -> W, unshl: W -> W,
                             rotl23: W -> W, rotl45: W -> W, rotr45: W -> W, nibble: (W, nat) -> Entry)

  ghost predicate XorLaws<W>(w: Words<W>, a: W, b: W, c: W) {
    w.xor(a, b) == w.xor(b, a) && w.xor(w.xor(a, b), c) == w.xor(a, w.xor(b, c)) && w.xor(a, w.xor(a, b)) == b
  }

  ghost predicate Laws<W(!new)>(w: Words<W>) {
    && (forall a, b, c {:trigger XorLaws(w, a, b, c)} :: XorLaws(w, a, b, c))
    && (forall x {:trigger w.unshl(w.xor(x, w.shl(x)))} :: w.unshl(w.xor(x, w.shl(x))) == x)
    && (forall y {:trigger w.unshl(y)} :: w.xor(w.unshl(y), w.shl(w.unshl(y))) == y)
    && (forall x {:trigger w.rotl45(x)} {:trigger w.rotr45(x)} ::
      w.rotr45(w.rotl45(x)) == x && w.rotl45(w.rotr45(x)) == x)
  }

  // ------------------------------------------------------------ the generator

  datatype State<W> = State(s0: W, s1: W, s2: W, s3: W)

  function Next<W>(w: Words<W>, s: State<W>): State<W> {
    var a2, a3 := w.xor(s.s2, s.s0), w.xor(s.s3, s.s1);
    State(w.xor(s.s0, a3), w.xor(s.s1, a2), w.xor(a2, w.shl(s.s1)), w.rotl45(a3))
  }

  function Output<W>(w: Words<W>, s: State<W>): W { w.add(s.s0, w.rotl23(w.add(s.s0, s.s3))) }

  /** The state after n steps. */
  function Advance<W>(w: Words<W>, s: State<W>, n: nat): State<W> {
    if n == 0 then s else Next(w, Advance(w, s, n - 1))
  }

  class XoShiRo256PlusPlus<W> {
    var s0: W
    var s1: W
    var s2: W
    var s3: W

    function Contents(): State<W>
      reads this
    {
      State(s0, s1, s2, s3)
    }

    constructor (hash: State<W>)
      ensures Contents() == hash
    {
      s0, s1, s2, s3 := hash.s0, hash.s1, hash.s2, hash.s3;
    }

    method U64(w: Words<W>) returns (res: W)
      modifies this
      ensures Contents() == Next(w, old(Contents())) && res == Output(w, old(Contents()))
    {
      res := w.add(s0, w.rotl23(w.add(s0, s3)));
      var t := w.shl(s1);
      s2 := w.xor(s2, s0);
      s3 := w.xor(s3, s1);
      s1 := w.xor(s1, s2);
      s0 := w.xor(s0, s3);
      s2 := w.xor(s2, t);
      s3 := w.rotl45(s3);
    }
  }

  function Previous<W>(w: Words<W>, s: State<W>): State<W> {
    var a3 := w.rotr45(s.s3);
    var s1 := w.unshl(w.xor(s.s1, s.s2));
    var s0 := w.xor(s.s0, a3);
    State(s0, s1, w.xor(w.xor(s.s1, s1), s0), w.xor(a3, s1))
  }

  lemma CancelRight<W(!new)>(w: Words<W>, a: W, b: W)
    requires Laws(w)
    ensures w.xor(w.xor(a, b), b) == a && w.xor(w.xor(a, b), a) == b && w.xor(b, w.xor(a, b)) == a
      && w.xor(a, w.xor(a, b)) == b
  {
    assert XorLaws(w, a, b, b) && XorLaws(w, b, a, b) && XorLaws(w, w.xor(a, b), b, b) && XorLaws(w, w.xor(a, b), a, a);
  }

  lemma CancelMiddle<W(!new)>(w: Words<W>, x: W, a: W, y: W)
    requires Laws(w)
    ensures w.xor(w.xor(x, a), w.xor(a, y)) == w.xor(x, y)
  {
    assert XorLaws(w, x, a, w.xor(a, y)) && XorLaws(w, a, y, y);
  }

  lemma PreviousOfNext<W(!new)>(w: Words<W>, s: State<W>)
    requires Laws(w)
    ensures Previous(w, Next(w, s)) == s
  {
    var a2, a3 := w.xor(s.s2, s.s0), w.xor(s.s3, s.s1);
    CancelMiddle(w, s.s1, a2, w.shl(s.s1));
    CancelRight(w, s.s0, a3);
    CancelRight(w, s.s1, a2);
    CancelRight(w, s.s2, s.s0);
    CancelRight(w, s.s3, s.s1);
  }

  lemma NextOfPrevious<W(!new)>(w: Words<W>, s: State<W>)
    requires Laws(w)
    ensures Next(w, Previous(w, s)) == s
  {
    var p := Previous(w, s);
    var a2, a3 := w.xor(s.s1, p.s1), w.rotr45(s.s3);
    CancelRight(w, a2, p.s0);
    CancelRight(w, a3, p.s1);
    CancelRight(w, s.s0, a3);
    CancelRight(w, s.s1, p.s1);
    assert XorLaws(w, s.s1, p.s1, w.shl(p.s1));
    CancelRight(w, s.s1, s.s2);
  }

  /** The step of the generator is a bijection on the states. */
  lemma NextIsBijective<W(!new)>(w: Words<W>, s: State<W>, s': State<W>)
    requires Laws(w)
    ensures Next(w, s) == Next(w, s') <==> s == s'
    ensures exists before :: Next(w, before) == s
  {
    PreviousOfNext(w, s);
    PreviousOfNext(w, s');
    NextOfPrevious(w, s);
  }

  // ------------------------------------------------------------ the matrices

  /** The states and the words that a generator goes through. */
  datatype Stream<!W> = Stream(state: nat -> State<W>, word: nat -> W)

  function StreamOf<W>(w: Words<W>, s: State<W>): Stream<W> {
    Stream((n: nat) => Advance(w, s, n), (n: nat) => Output(w, Advance(w, s, n)))
  }

  ghost predicate Follows<W>(w: Words<W>, stream: Stream<W>) {
    forall n: nat {:trigger Next(w, stream.state(n))} ::
      stream.state(n + 1) == Next(w, stream.state(n)) && stream.word(n) == Output(w, stream.state(n))
  }

  lemma StreamOfFollows<W>(w: Words<W>, s: State<W>)
    ensures Follows(w, StreamOf(w, s)) && StreamOf(w, s).state(0) == s
  {
  }

  /** Entry (i, j) of the matrix made from a stream: four bits of word 4i + j / 16. */
  function EntryOf<W>(w: Words<W>, stream: Stream<W>, i: nat, j: nat): Entry {
    w.nibble(stream.word(4 * i + j / 16), j % 16)
  }

  ghost predicate RowFrom<W>(w: Words<W>, row: seq<Entry>, stream: Stream<W>, i: nat) {
    |row| == 64 && forall j: nat | j < 64 :: row[j] == EntryOf(w, stream, i, j)
  }

  /** The matrix made from a stream: 256 words, each for sixteen entries. */
  ghost predicate MatrixFrom<W>(w: Words<W>, matrix: seq<seq<Entry>>, stream: Stream<W>) {
    |matrix| == 64 && forall i: nat | i < 64 :: RowFrom(w, matrix[i], stream, i)
  }

  method NextWord<W>(w: Words<W>, generator: XoShiRo256PlusPlus<W>, ghost stream: Stream<W>, ghost n: nat)
    returns (res: W)
    requires Follows(w, stream) && generator.Contents() == stream.state(n)
    modifies generator
    ensures generator.Contents() == stream.state(n + 1) && res == stream.word(n)
  {
    assert Next(w, stream.state(n)) == Next(w, generator.Contents());
    res := generator.U64(w);
  }

  /** The closure for one row: a new word is taken whenever the shift is back at zero. */
  method RowByClosure<W>(w: Words<W>, generator: XoShiRo256PlusPlus<W>, ghost i: nat, ghost stream: Stream<W>)
    returns (row: seq<Entry>)
    requires Follows(w, stream) && generator.Contents() == stream.state(4 * i)
    modifies generator
    ensures RowFrom(w, row, stream, i) && generator.Contents() == stream.state(4 * i + 4)
  {
    row := [];
    var val := w.zero;
    ghost var taken := 4 * i;
    for j: nat := 0 to 64
      invariant |row| == j && forall k: nat | k < j :: row[k] == EntryOf(w, stream, i, k)
      invariant taken == 4 * i + (j + 15) / 16 && generator.Contents() == stream.state(taken)
      invariant j % 16 != 0 ==> val == stream.word(taken - 1)
    {
      var shift := j % 16;
      if shift == 0 {
        val := NextWord(w, generator, stream, taken);
        taken := taken + 1;
      }
      assert taken - 1 == 4 * i + j / 16;
      row := row + [w.nibble(val, shift)];
    }
  }

  /** rand_matrix_no_rank_check */
  method RandMatrixNoRankCheck<W>(w: Words<W>, generator: XoShiRo256PlusPlus<W>, ghost stream: Stream<W>)
    returns (matrix: seq<seq<Entry>>)
    requires Follows(w, stream) && generator.Contents() == stream.state(0)
    modifies generator
    ensures MatrixFrom(w, matrix, stream) && generator.Contents() == stream.state(256)
  {
    matrix := [];
    for i: nat := 0 to 64
      invariant |matrix| == i && forall k: nat | k < i :: RowFrom(w, matrix[k], stream, k)
      invariant generator.Contents() == stream.state(4 * i)
    {
      var row := RowByClosure(w, generator, i, stream);
      matrix := matrix + [row];
    }
  }

  /** Sixteen entries from one word, as in the inner loop of the comment. */
  method SixteenEntries<W>(w: Words<W>, val: W, mat: array2<Entry>, i: nat, b: nat, ghost stream: Stream<W>)
    requires mat.Length0 == mat.Length1 == 64 && i < 64 && b < 4 && val == stream.word(4 * i + b)
    modifies mat
    ensures forall k: nat, l: nat | k < 64 && l < 64 ::
      mat[k, l] == if k == i && 16 * b <= l < 16 * b + 16 then EntryOf(w, stream, i, l) else old(mat[k, l])
  {
    for shift: nat := 0 to 16
      invariant forall k: nat, l: nat | k < 64 && l < 64 ::
        mat[k, l] == if k == i && 16 * b <= l < 16 * b + shift then EntryOf(w, stream, i, l) else old(mat[k, l])
    {
      assert (16 * b + shift) / 16 == b && (16 * b + shift) % 16 == shift;
      mat[i, 16 * b + shift] := w.nibble(val, shift);
    }
  }

  /** The loop of the comment over j, in steps of sixteen. */
  method NestedRow<W>(w: Words<W>, generator: XoShiRo256PlusPlus<W>, mat: array2<Entry>, i: nat,
                      ghost stream: Stream<W>)
    requires Follows(w, stream) && generator.Contents() == stream.state(4 * i)
    requires mat.Length0 == mat.Length1 == 64 && i < 64
    modifies generator, mat
    ensures generator.Contents() == stream.state(4 * i + 4)
    ensures forall k: nat, l: nat | k < 64 && l < 64 ::
      mat[k, l] == if k == i then EntryOf(w, stream, i, l) else old(mat[k, l])
  {
    for b: nat := 0 to 4
      invariant generator.Contents() == stream.state(4 * i + b)
      invariant forall k: nat, l: nat | k < 64 && l < 64 ::
        mat[k, l] == if k == i && l < 16 * b then EntryOf(w, stream, i, l) else old(mat[k, l])
    {
      var val := NextWord(w, generator, stream, 4 * i + b);
      SixteenEntries(w, val, mat, i, b, stream);
    }
  }

  /** The nested loops of the comment, for one matrix. */
  method NestedLoops<W>(w: Words<W>, generator: XoShiRo256PlusPlus<W>, ghost stream: Stream<W>)
    returns (mat: array2<Entry>)
    requires Follows(w, stream) && generator.Contents() == stream.state(0)
    modifies generator
    ensures fresh(mat) && mat.Length0 == mat.Length1 == 64 && generator.Contents() == stream.state(256)
    ensures forall i: nat, j: nat | i < 64 && j < 64 :: mat[i, j] == EntryOf(w, stream, i, j)
  {
    mat := new Entry[64, 64]((_, _) => 0);
    for i: nat := 0 to 64
      invariant generator.Contents() == stream.state(4 * i)
      invariant forall k: nat, l: nat | k < i && l < 64 :: mat[k, l] == EntryOf(w, stream, k, l)
    {
      NestedRow(w, generator, mat, i, stream);
    }
  }

  /** The closures make the matrix of the commented loops and leave the generator in the same state. */
  method SameAsComment<W>(w: Words<W>, hash: State<W>)
    returns (matrix: seq<seq<Entry>>, mat: array2<Entry>, generator: XoShiRo256PlusPlus<W>,
             other: XoShiRo256PlusPlus<W>)
    ensures MatrixFrom(w, matrix, StreamOf(w, hash)) && mat.Length0 == mat.Length1 == 64
    ensures forall i: nat, j: nat | i < 64 && j < 64 :: mat[i, j] == matrix[i][j]
    ensures generator.Contents() == other.Contents() == Advance(w, hash, 256)
  {
    StreamOfFollows(w, hash);
    ghost var stream := StreamOf(w, hash);
    generator := new XoShiRo256PlusPlus(hash);
    other := new XoShiRo256PlusPlus(hash);
    matrix := RandMatrixNoRankCheck(w, generator, stream);
    mat := NestedLoops(w, other, stream);
    forall i: nat, j: nat | i < 64 && j < 64 ensures mat[i, j] == matrix[i][j] {
      assert RowFrom(w, matrix[i], stream, i);
    }
  }

  // ------------------------------------------------------------ the zero state

  function Zero<W>(w: Words<W>): State<W> { State(w.zero, w.zero, w.zero, w.zero) }

  /** The operations take zeros to zeros. */
  ghost predicate ZeroLaws<W>(w: Words<W>) {
    && w.xor(w.zero, w.zero) == w.zero && w.add(w.zero, w.zero) == w.zero && w.shl(w.zero) == w.zero
    && w.rotl23(w.zero) == w.zero && w.rotl45(w.zero) == w.zero && forall i: nat | i < 16 :: w.nibble(w.zero, i) == 0
  }

  lemma NextIsZeroIff<W(!new)>(w: Words<W>, s: State<W>)
    requires Laws(w) && ZeroLaws(w)
    ensures Next(w, s) == Zero(w) <==> s == Zero(w)
  {
    NextIsBijective(w, s, Zero(w));
    assert Next(w, Zero(w)) == Zero(w);
  }

  /** A state other than zero never becomes zero, and zero stays zero. */
  lemma {:induction false} ZeroIffStartedAtZero<W(!new)>(w: Words<W>, s: State<W>, n: nat)
    requires Laws(w) && ZeroLaws(w)
    ensures Advance(w, s, n) == Zero(w) <==> s == Zero(w)
  {
    if n > 0 {
      ZeroIffStartedAtZero(w, s, n - 1);
      NextIsZeroIff(w, Advance(w, s, n - 1));
    }
  }

  lemma ZeroEntry<W(!new)>(w: Words<W>, matrix: seq<seq<Entry>>, n: nat, i: nat, j: nat)
    requires Laws(w) && ZeroLaws(w) && MatrixFrom(w, matrix, StreamOf(w, Advance(w, Zero(w), n)))
    requires i < 64 && j < 64
    ensures matrix[i][j] == 0
  {
    ZeroIffStartedAtZero(w, Zero(w), n);
    var stream := StreamOf(w, Zero(w));
    assert RowFrom(w, matrix[i], stream, i);
    ZeroWord(w, 4 * i + j / 16);
    assert stream.word(4 * i + j / 16) == w.zero;
  }

  /** From the zero state every matrix is zero, so that none has full rank: generate could not finish. */
  lemma ZeroSeedNeverFinishes<W(!new)>(w: Words<W>, n: nat, matrix: seq<seq<Entry>>, m: MatrixRank.Matrix)
    requires Laws(w) && ZeroLaws(w) && MatrixFrom(w, matrix, StreamOf(w, Advance(w, Zero(w), n)))
    requires forall k: nat, p: nat | k < 64 && p < 64 :: m(k, p) == matrix[k][p] as real
    ensures forall i: nat, j: nat | i < 64 && j < 64 :: matrix[i][j] == 0
    ensures !MatrixRank.TrivialKernel(m, 64)
  {
    forall i: nat, j: nat | i < 64 && j < 64 ensures matrix[i][j] == 0 {
      ZeroEntry(w, matrix, n, i, j);
    }
    ZeroMatrixIsSingular(m, 64);
  }

  lemma ZeroWord<W(!new)>(w: Words<W>, n: nat)
    requires Laws(w) && ZeroLaws(w)
    ensures Output(w, Advance(w, Zero(w), n)) == w.zero
  {
    ZeroIffStartedAtZero(w, Zero(w), n);
  }

  lemma ZeroMatrixIsSingular(m: MatrixRank.Matrix, n: nat)
    requires n > 0 && forall k: nat, p: nat | k < n && p < n :: m(k, p) == 0.0
    ensures !MatrixRank.TrivialKernel(m, n)
  {
    var one: MatrixRank.Vector := (p: nat) => 1.0;
    forall k: nat | k < n ensures MatrixRank.Dot(m, k, one, n) == 0.0 {
      ZeroRow(m, k, one, n);
    }
    assert MatrixRank.Kills(m, one, n) && one(0) != 0.0;
  }

  lemma {:induction false} ZeroRow(m: MatrixRank.Matrix, k: nat, x: MatrixRank.Vector, n: nat)
    requires forall p: nat | p < n :: m(k, p) == 0.0
    ensures MatrixRank.Dot(m, k, x, n) == 0.0
  {
    if n > 0 {
      ZeroRow(m, k, x, n - 1);
    }
  }

  // ------------------------------------------------------------ 64-bit words

  type Bits = Keccak.Bits

  function Shl17(x: Bits): Bits { seq(64, i requires 0 <= i < 64 => i >= 17 && x[i - 17]) }

  /** Bit i of the word that x ^ (x << 17) comes from: every 17th bit down from it. */
  function Unshl17(y: Bits): Bits {
    seq(64, i requires 0 <= i < 64 =>
      (y[i] != (i >= 17 && y[i - 17])) != ((i >= 34 && y[i - 34]) != (i >= 51 && y[i - 51])))
  }

  function Xor(x: Bits, y: Bits): Bits { Keccak.Zip((a, b) => a != b, x, y) }

  /** The carry into bit i of a sum. */
  predicate CarryInto(x: Bits, y: Bits, i: nat)
    requires i <= 64
  {
    i > 0 && var c := CarryInto(x, y, i - 1); (x[i - 1] && y[i - 1]) || (c && (x[i - 1] || y[i - 1]))
  }

  /** Addition modulo 2^64. */
  function Add(x: Bits, y: Bits): Bits { seq(64, i requires 0 <= i < 64 => (x[i] != y[i]) != CarryInto(x, y, i)) }

  /** Four bits of a word, from bit 4 * shift on. */
  function Nibble(x: Bits, shift: nat): Entry {
    if shift >= 16 then 0
    else Bit(x[4 * shift]) + 2 * Bit(x[4 * shift + 1]) + 4 * Bit(x[4 * shift + 2]) + 8 * Bit(x[4 * shift + 3])
  }

  function ZeroBits(): Bits { seq(64, _ => false) }

  function Words64(): Words<Bits> {
    Words(ZeroBits(), (x: Bits, y: Bits) => Xor(x, y), (x: Bits, y: Bits) => Add(x, y),
          (x: Bits) => Shl17(x), (x: Bits) => Unshl17(x), (x: Bits) => Keccak.RotateLeft(x, 23),
          (x: Bits) => Keccak.RotateLeft(x, 45), (x: Bits) => Keccak.RotateLeft(x, 19),
          (x: Bits, shift: nat) => Nibble(x, shift))
  }

  lemma XorLawsOfBits(a: Bits, b: Bits, c: Bits)
    ensures Xor(a, b) == Xor(b, a) && Xor(Xor(a, b), c) == Xor(a, Xor(b, c)) && Xor(a, Xor(a, b)) == b
  {
  }

  lemma UnshiftShift(x: Bits)
    ensures Unshl17(Xor(x, Shl17(x))) == x
  {
    forall i: nat | i < 64 ensures Unshl17(Xor(x, Shl17(x)))[i] == x[i] {
    }
  }

  lemma ShiftUnshift(y: Bits)
    ensures Xor(Unshl17(y), Shl17(Unshl17(y))) == y
  {
    forall i: nat | i < 64 ensures Xor(Unshl17(y), Shl17(Unshl17(y)))[i] == y[i] {
    }
  }

  lemma RotateBack(x: Bits)
    ensures Keccak.RotateLeft(Keccak.RotateLeft(x, 45), 19) == x && Keccak.RotateLeft(Keccak.RotateLeft(x, 19), 45) == x
  {
  }

  lemma {:induction false} NoCarry(i: nat)
    requires i <= 64
    ensures !CarryInto(ZeroBits(), ZeroBits(), i)
  {
    if i > 0 {
      NoCarry(i - 1);
    }
  }

  /** The words of the machine obey the laws. */
  lemma Words64Laws()
    ensures Laws(Words64()) && ZeroLaws(Words64())
  {
    hide ZeroLaws;
    var w := Words64();
    forall a: Bits, b: Bits, c: Bits ensures XorLaws(w, a, b, c) { XorLawsOfBits(a, b, c); }
    forall x: Bits ensures w.unshl(w.xor(x, w.shl(x))) == x { UnshiftShift(x); }
    forall y: Bits ensures w.xor(w.unshl(y), w.shl(w.unshl(y))) == y { ShiftUnshift(y); }
    forall x: Bits ensures w.rotr45(w.rotl45(x)) == x && w.rotl45(w.rotr45(x)) == x { RotateBack(x); }
    ZeroLawsOfBits();
  }

  lemma ZeroLawsOfBits()
    ensures ZeroLaws(Words64())
  {
    var w := Words64();
    forall i: nat | i < 64 ensures !CarryInto(w.zero, w.zero, i) { NoCarry(i); }
    assert w.xor(w.zero, w.zero) == w.zero && w.add(w.zero, w.zero) == w.zero && w.shl(w.zero) == w.zero;
    assert w.rotl23(w.zero) == w.zero && w.rotl45(w.zero) == w.zero;
  }

  // ------------------------------------------------------------ the generator in numbers

  /** The value of a word. */
  function Value(x: Bits): (v: nat)
    ensures v < Numbers.U64
  {
    Numbers.Pow2Of64();
    ValueOf(x)
  }

  lemma {:induction false} SumBelow(x: Bits, y: Bits, i: nat)
    requires i <= 64
    ensures ValueOf(x[..i]) + ValueOf(y[..i])
         == ValueOf(Add(x, y)[..i]) + Numbers.Pow2(i) * Bit(CarryInto(x, y, i))
  {
    if i > 0 {
      SumBelow(x, y, i - 1);
      OneBitMore(x, i - 1);
      OneBitMore(y, i - 1);
      OneBitMore(Add(x, y), i - 1);
      CarryOn(Numbers.Pow2(i - 1), x[i - 1], y[i - 1], CarryInto(x, y, i - 1));
    }
  }

  /** A full adder. */
  lemma CarryOn(p: nat, a: bool, b: bool, c: bool)
    ensures p * Bit(a) + p * Bit(b) + p * Bit(c)
         == p * Bit((a != b) != c) + (2 * p) * Bit((a && b) || (c && (a || b)))
  {
  }

  lemma AddValue(x: Bits, y: Bits)
    ensures Value(Add(x, y)) == (Value(x) + Value(y)) % Numbers.U64
  {
    hide Numbers.Pow2, ValueOf, Add;
    Numbers.Pow2Of64();
    SumBelow(x, y, 64);
    var sum := Add(x, y);
    assert x[..64] == x && y[..64] == y && sum[..64] == sum;
    Numbers.Remainder(Value(x) + Value(y), Numbers.U64, Bit(CarryInto(x, y, 64)), Value(sum));
  }

  lemma ShlValue(x: Bits)
    ensures Value(Shl17(x)) == Value(x) * Numbers.Pow2(17) % Numbers.U64
  {
    hide Numbers.Pow2, ValueOf;
    Numbers.Pow2Of64();
    var zeros := seq(17, _ => false);
    assert Shl17(x) == zeros + x[..47];
    ShiftedValue(x, 17, zeros);
  }

  lemma XorValue(x: Bits, y: Bits)
    ensures Value(Xor(x, y)) == Numbers.Xor(Value(x), Value(y))
  {
    ValueOfZip((a, b) => a != b, x, y, Xor(x, y));
  }

  lemma NibbleValue(x: Bits, k: nat)
    requires k < 16
    ensures Nibble(x, k) == Value(x) / Numbers.Pow2(4 * k) % 16
  {
    FourBits(x, k);
  }

  /** The word that comes out is s0 plus the sum of s0 and s3 rotated by 23, all modulo 2^64. */
  lemma OutputInNumbers(s: State<Bits>)
    ensures var sum := (Value(s.s0) + Value(s.s3)) % Numbers.U64;
            Value(Output(Words64(), s)) == (Value(s.s0) + Numbers.RotatedLeft(sum, 23)) % Numbers.U64
  {
    hide Numbers.Pow2, ValueOf, Add, Keccak.RotateLeft, CarryInto, Value;
    var sum := Add(s.s0, s.s3);
    AddValue(s.s0, s.s3);
    RotationValue(sum, 23);
    AddValue(s.s0, Keccak.RotateLeft(sum, 23));
  }

  lemma RotationValue(x: Bits, n: nat)
    requires n < 64
    ensures Value(Keccak.RotateLeft(x, n)) == Numbers.RotatedLeft(Value(x), n)
  {
    hide Numbers.Pow2, ValueOf, Keccak.RotateLeft;
    Keccak.RotateLeftValue(x, n);
  }

  /** The next state: with words a, b, c, d it is a ^ b ^ d, a ^ b ^ c, a ^ c ^ (b << 17) and b ^ d rotated by 45. */
  lemma NextInNumbers(s: State<Bits>)
    ensures var (a, b, c, d) := (Value(s.s0), Value(s.s1), Value(s.s2), Value(s.s3));
            var s' := Next(Words64(), s);
            && Value(s'.s0) == Numbers.Xor(a, Numbers.Xor(d, b))
            && Value(s'.s1) == Numbers.Xor(b, Numbers.Xor(c, a))
            && Value(s'.s2) == Numbers.Xor(Numbers.Xor(c, a), b * Numbers.Pow2(17) % Numbers.U64)
            && Value(s'.s3) == Numbers.RotatedLeft(Numbers.Xor(d, b), 45)
  {
    hide Numbers.Pow2, ValueOf, Keccak.RotateLeft, Value, Numbers.Xor, Shl17, Xor, Numbers.RotatedLeft;
    var a2, a3 := Xor(s.s2, s.s0), Xor(s.s3, s.s1);
    XorValue(s.s2, s.s0);
    XorValue(s.s3, s.s1);
    XorValue(s.s0, a3);
    XorValue(s.s1, a2);
    ShlValue(s.s1);
    XorValue(a2, Shl17(s.s1));
    RotationValue(a3, 45);
  }

  /** Entry (i, j) of a matrix made by the generator, from the words of the state before output 4i + j / 16. */
  lemma EntryInNumbers(matrix: seq<seq<Entry>>, s: State<Bits>, i: nat, j: nat)
    requires MatrixFrom(Words64(), matrix, StreamOf(Words64(), s)) && i < 64 && j < 64
    ensures var t := Advance(Words64(), s, 4 * i + j / 16);
            var sum := (Value(t.s0) + Value(t.s3)) % Numbers.U64;
            matrix[i][j] == (Value(t.s0) + Numbers.RotatedLeft(sum, 23)) % Numbers.U64 / Numbers.Pow2(4 * (j % 16)) % 16
  {
    hide Numbers.Pow2, ValueOf, Value, Output, Advance, Nibble, Numbers.RotatedLeft;
    var stream := StreamOf(Words64(), s);
    var t := Advance(Words64(), s, 4 * i + j / 16);
    assert RowFrom(Words64(), matrix[i], stream, i);
    assert matrix[i][j] == Nibble(Output(Words64(), t), j % 16);
    OutputInNumbers(t);
    NibbleValue(Output(Words64(), t), j % 16);
  }

  /** The seed with words 1, 0, 0 and 0: the first word that comes out is 2^23 + 1. */
  lemma FirstOutput(s: State<Bits>)
    requires Value(s.s0) == 1 && Value(s.s1) == Value(s.s2) == Value(s.s3) == 0
    ensures Value(Output(Words64(), s)) == 0x80_0001
  {
    hide Value, Output, Numbers.RotatedLeft;
    OutputInNumbers(s);
    OneRotated();
  }

  lemma OneRotated()
    ensures Numbers.RotatedLeft(1, 23) == 0x80_0000
  {
    hide Numbers.Pow2;
    PowersOfRotation();
  }

  lemma PowersOfRotation()
    ensures Numbers.Pow2(23) == 0x80_0000 && Numbers.Pow2(41) == 0x200_0000_0000
  {
    assert Numbers.Pow2(7) == 128 && Numbers.Pow2(8) == 256 && Numbers.Pow2(9) == 512;
    Numbers.Pow2Sum(8, 8);
    Numbers.Pow2Sum(16, 7);
    Numbers.Pow2Sum(16, 16);
    Numbers.Pow2Sum(32, 9);
  }
}
