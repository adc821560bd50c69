/**
 The first three stages of a hash and the record of a GPU job: what velkar_prepare_jobs
 (src/argon2_kernel.cl) writes for each nonce, and what the CPU computes for the same nonce
 (src/pow/hasher.rs, src/pow/heavy_hash.rs, src/pow.rs). The permutation, the initial states, the two
 kinds of exclusive or and the memory-hard hash of the CPU are parameters; module KeccakWords has all but
 the last of them.
 */
module JobPreparation {
  import opened Bits
  import opened JobParts
  import opened LittleEndian
  import NoncePartition

  datatype Primitives = Primitives(
    perm: seq<Word> -> seq<Word>, xor: (Word, Word) -> Word, byteXor: (Byte, Byte) -> Byte,
    powInit: seq<Word>, heavyInit: seq<Word>, argon: (seq<Byte>, seq<Byte>) -> Hash)

  ghost predicate WellFormed(p: Primitives) {
    && |p.powInit| == 25 && |p.heavyInit| == 25
    && (forall s: seq<Word> | |s| == 25 :: |p.perm(s)| == 25)
    && (forall w: Word :: p.xor(w, 0) == w)
  }

  datatype Header = Header(prePow: Hash, timestamp: Word)

  type Hash = h: seq<Word> | |h| == 4 witness [0, 0, 0, 0]

  type Entry = e: nat | e <= 15

  /** The matrix of a header: 64 by 64 numbers of four bits. */
  type Matrix = m: seq<seq<Entry>> | |m| == 64 && forall r: nat | r < 64 :: |m[r]| == 64
    witness seq(64, _ => seq(64, _ => 0))

  // ------------------------------------------------------------ the stages

  function WordAt(message: seq<Byte>, i: nat): Word
    requires 8 * i + 8 <= |message|
  {
    WordFromLe(message[8 * i..8 * i + 8])
  }

  function AbsorbedWord(p: Primitives, init: seq<Word>, message: seq<Byte>, i: nat): Word
    requires |init| == 25 && i < 25
  {
    if 8 * i + 8 <= |message| then p.xor(init[i], WordAt(message, i)) else init[i]
  }

  /** A message of whole words mixed into the first words of a state. */
  function Absorbed(p: Primitives, init: seq<Word>, message: seq<Byte>): (r: seq<Word>)
    requires |init| == 25
    ensures |r| == 25
  {
    seq<Word>(25, i requires 0 <= i < 25 => AbsorbedWord(p, init, message, i))
  }

  /** cSHAKE256 of a message that fits into one block, 32 bytes of it; padding and domain are in the initial state. */
  function Sponge(p: Primitives, init: seq<Word>, message: seq<Byte>): Hash
    requires WellFormed(p) && |init| == 25
  {
    p.perm(Absorbed(p, init, message))[..4]
  }

  /** The hash of the 32 bytes of h, in the domain of the heavy hash. */
  function Heavy(p: Primitives, h: Hash): Hash
    requires WellFormed(p)
  {
    Sponge(p, p.heavyInit, HashToLe(h))
  }

  /** What is hashed before the nonce: the header hash, the timestamp and 32 zeros. */
  function HeaderBytes(header: Header): (r: seq<Byte>)
    ensures |r| == 72
  {
    HashToLe(header.prePow) + ToLe(header.timestamp, 8) + seq(32, _ => 0)
  }

  /** The hash of the 80 bytes of header and nonce, in the domain of the proof of work. */
  function Stage1(p: Primitives, header: Header, nonce: Word): Hash
    requires WellFormed(p)
  {
    Sponge(p, p.powInit, HeaderBytes(header) + ToLe(nonce, 8))
  }

  lemma WordOfHash(h: Hash, i: nat)
    requires i < 4
    ensures WordAt(HashToLe(h), i) == h[i]
  {
    assert HashToLe(h)[8 * i..8 * i + 8] == ToLe(h[i], 8);
    WordRoundTrip(h[i]);
  }

  lemma WordOfZeros()
    ensures WordFromLe(seq(8, _ => 0)) == 0
  {
    ZeroToLe(8);
    WordRoundTrip(0);
  }

  lemma WordOfPrefix(a: seq<Byte>, b: seq<Byte>, i: nat)
    requires 8 * i + 8 <= |a|
    ensures WordAt(a + b, i) == WordAt(a, i)
  {
    assert (a + b)[8 * i..8 * i + 8] == a[8 * i..8 * i + 8];
  }

  lemma WordBehind(a: seq<Byte>, b: seq<Byte>, i: nat, k: nat)
    requires |a| == 8 * i && 8 * k + 8 <= |b|
    ensures WordAt(a + b, i + k) == WordAt(b, k)
  {
    assert (a + b)[8 * (i + k)..8 * (i + k) + 8] == b[8 * k..8 * k + 8];
  }

  /** The nine words before the nonce. */
  lemma WordOfHeader(header: Header, i: nat)
    requires i < 9
    ensures WordAt(HeaderBytes(header), i)
         == if i < 4 then header.prePow[i] else if i == 4 then header.timestamp else 0
  {
    var zeros: seq<Byte> := seq(32, _ => 0);
    var head := HashToLe(header.prePow) + ToLe(header.timestamp, 8);
    if i < 4 {
      WordOfPrefix(head, zeros, i);
      WordOfPrefix(HashToLe(header.prePow), ToLe(header.timestamp, 8), i);
      WordOfHash(header.prePow, i);
    } else if i == 4 {
      WordOfPrefix(head, zeros, i);
      WordBehind(HashToLe(header.prePow), ToLe(header.timestamp, 8), 4, 0);
      assert ToLe(header.timestamp, 8)[0..8] == ToLe(header.timestamp, 8);
      WordRoundTrip(header.timestamp);
    } else {
      WordBehind(head, zeros, 5, i - 5);
      assert zeros[8 * (i - 5)..8 * (i - 5) + 8] == seq<Byte>(8, _ => 0);
      WordOfZeros();
    }
  }

  /** The state after the header, word by word: the zeros change nothing. */
  lemma AbsorbedHeader(p: Primitives, header: Header, i: nat)
    requires WellFormed(p) && i < 25
    ensures Absorbed(p, p.powInit, HeaderBytes(header))[i]
         == if i < 4 then p.xor(p.powInit[i], header.prePow[i])
            else if i == 4 then p.xor(p.powInit[4], header.timestamp) else p.powInit[i]
  {
    if i < 9 {
      WordOfHeader(header, i);
    }
  }

  /** Going on with the nonce is mixing it into word 9. */
  lemma AbsorbNonce(p: Primitives, header: Header, nonce: Word)
    requires WellFormed(p)
    ensures var s := Absorbed(p, p.powInit, HeaderBytes(header));
            Absorbed(p, p.powInit, HeaderBytes(header) + ToLe(nonce, 8)) == s[9 := p.xor(s[9], nonce)]
  {
    var bytes, last := HeaderBytes(header), ToLe(nonce, 8);
    forall i: nat | i < 9 ensures WordAt(bytes + last, i) == WordAt(bytes, i) {
      WordOfPrefix(bytes, last, i);
    }
    WordBehind(bytes, last, 9, 0);
    assert last[0..8] == last;
    WordRoundTrip(nonce);
  }

  /** The state that the first stage permutes: header hash, timestamp and nonce in words 0 to 4 and 9. */
  lemma StateOfStage1(p: Primitives, header: Header, nonce: Word) returns (s: seq<Word>)
    requires WellFormed(p)
    ensures |s| == 25 && Stage1(p, header, nonce) == p.perm(s)[..4]
    ensures forall i: nat | i < 25 ::
      s[i] == if i < 4 then p.xor(p.powInit[i], header.prePow[i])
              else if i == 4 then p.xor(p.powInit[i], header.timestamp)
              else if i == 9 then p.xor(p.powInit[i], nonce) else p.powInit[i]
  {
    hide HeaderBytes, Absorbed;
    var before := Absorbed(p, p.powInit, HeaderBytes(header));
    s := before[9 := p.xor(before[9], nonce)];
    AbsorbNonce(p, header, nonce);
    forall i: nat | i < 25
      ensures before[i] == if i < 4 then p.xor(p.powInit[i], header.prePow[i])
                           else if i == 4 then p.xor(p.powInit[4], header.timestamp) else p.powInit[i]
    {
      AbsorbedHeader(p, header, i);
    }
  }

  /** The state that the heavy hash permutes: its input in words 0 to 3. */
  lemma StateOfHeavy(p: Primitives, h: Hash) returns (s: seq<Word>)
    requires WellFormed(p)
    ensures |s| == 25 && Heavy(p, h) == p.perm(s)[..4]
    ensures forall i: nat | i < 25 :: s[i] == if i < 4 then p.xor(p.heavyInit[i], h[i]) else p.heavyInit[i]
  {
    hide HashToLe;
    s := Absorbed(p, p.heavyInit, HashToLe(h));
    forall i: nat | i < 4 ensures WordAt(HashToLe(h), i) == h[i] { WordOfHash(h, i); }
  }

  /** The half bytes of a hash, the upper half of each byte first. */
  function Nibble(bytes: seq<Byte>, j: nat): nat
    requires |bytes| == 32 && j < 64
  {
    if j % 2 == 0 then bytes[j / 2] / 16 else bytes[j / 2] % 16
  }

  lemma NibblesOfByte(bytes: seq<Byte>, k: nat)
    requires |bytes| == 32 && k < 32
    ensures bytes[k] == 16 * Nibble(bytes, 2 * k) + Nibble(bytes, 2 * k + 1)
    ensures Nibble(bytes, 2 * k) < 16 && Nibble(bytes, 2 * k + 1) < 16
  {
  }

  /** The first n terms of a row of the matrix times the vector of half bytes. */
  function RowSum(row: seq<Entry>, nibbles: seq<nat>, n: nat): nat
    requires |row| == 64 && |nibbles| == 64 && n <= 64
  {
    if n == 0 then 0 else RowSum(row, nibbles, n - 1) + row[n - 1] * nibbles[n - 1]
  }

  ghost predicate AreNibbles(nibbles: seq<nat>) { |nibbles| == 64 && forall j | 0 <= j < 64 :: nibbles[j] < 16 }

  lemma TermBound(e: Entry, b: nat)
    requires b < 16
    ensures e * b <= 225
  {
    assert e * b <= 15 * b;
  }

  /** No sum exceeds 225 times the number of its terms: 14400 in the end, far below 2^16. */
  lemma {:induction false} RowSumBound(row: seq<Entry>, nibbles: seq<nat>, n: nat)
    requires |row| == 64 && AreNibbles(nibbles) && n <= 64
    ensures RowSum(row, nibbles, n) <= 225 * n
  {
    if n > 0 {
      RowSumBound(row, nibbles, n - 1);
      TermBound(row[n - 1], nibbles[n - 1]);
    }
  }

  function Nibbles(bytes: seq<Byte>): (r: seq<nat>)
    requires |bytes| == 32
    ensures AreNibbles(r)
  {
    seq<nat>(64, j requires 0 <= j < 64 => Nibble(bytes, j))
  }

  /** Entry i of the product: the upper four bits from row 2i and the lower from row 2i + 1. */
  function Packed(m: Matrix, nibbles: seq<nat>, i: nat): (r: Byte)
    requires AreNibbles(nibbles) && i < 32
  {
    RowSumBound(m[2 * i], nibbles, 64);
    RowSumBound(m[2 * i + 1], nibbles, 64);
    16 * (RowSum(m[2 * i], nibbles, 64) / 1024) + RowSum(m[2 * i + 1], nibbles, 64) / 1024
  }

  /** The upper half is made from row 2i, and the lower half from row 2i + 1: the sums without their lowest ten bits. */
  lemma HalvesOfProduct(m: Matrix, nibbles: seq<nat>, i: nat)
    requires AreNibbles(nibbles) && i < 32
    ensures Packed(m, nibbles, i) / 16 == RowSum(m[2 * i], nibbles, 64) / 1024
    ensures Packed(m, nibbles, i) % 16 == RowSum(m[2 * i + 1], nibbles, 64) / 1024
  {
    RowSumBound(m[2 * i], nibbles, 64);
    RowSumBound(m[2 * i + 1], nibbles, 64);
  }

  /** Entry j is multiplied with half byte j: if that is the only one that is not zero, nothing else is left. */
  lemma {:induction false} RowSumOfOne(row: seq<Entry>, nibbles: seq<nat>, j: nat, n: nat)
    requires |row| == 64 && |nibbles| == 64 && j < 64 && n <= 64
    requires forall k: nat | k < 64 && k != j :: nibbles[k] == 0
    ensures RowSum(row, nibbles, n) == if j < n then row[j] * nibbles[j] else 0
  {
    if n > 0 {
      RowSumOfOne(row, nibbles, j, n - 1);
    }
  }

  function Product(p: Primitives, m: Matrix, bytes: seq<Byte>): (r: seq<Byte>)
    requires |bytes| == 32
    ensures |r| == 32
  {
    seq<Byte>(32, i requires 0 <= i < 32 => p.byteXor(Packed(m, Nibbles(bytes), i), bytes[i]))
  }

  /** Byte i of the product: the two sums without their lowest ten bits, mixed with byte i of the hash. */
  lemma ByteOfProduct(p: Primitives, m: Matrix, bytes: seq<Byte>, i: nat)
    requires |bytes| == 32 && i < 32
    ensures var (upper, lower) := (RowSum(m[2 * i], Nibbles(bytes), 64) / 1024,
                                   RowSum(m[2 * i + 1], Nibbles(bytes), 64) / 1024);
            0 <= upper < 16 && 0 <= lower < 16 && Product(p, m, bytes)[i] == p.byteXor(16 * upper + lower, bytes[i])
  {
    RowSumBound(m[2 * i], Nibbles(bytes), 64);
    RowSumBound(m[2 * i + 1], Nibbles(bytes), 64);
    assert Product(p, m, bytes)[i] == p.byteXor(Packed(m, Nibbles(bytes), i), bytes[i]);
    HalvesOfProduct(m, Nibbles(bytes), i);
  }

  function Stage2(p: Primitives, m: Matrix, stage1: Hash): Hash
    requires WellFormed(p)
  {
    Heavy(p, HashFromLe(Product(p, m, HashToLe(stage1))))
  }

  // ------------------------------------------------------------ sums and packing in machine words

  lemma SmallSum(a: nat, b: nat, width: nat)
    requires a + b < width
    ensures (a + b % width) % width == a + b
  {
    Remainder(b, width, 0, b);
    Remainder(a + b, width, 0, a + b);
  }

  /** One term more, added in words of some width. */
  lemma SumStep(row: seq<Entry>, nibbles: seq<nat>, j: nat, width: nat)
    requires |row| == 64 && AreNibbles(nibbles) && j < 64 && width >= 0x1_0000
    ensures (RowSum(row, nibbles, j) + row[j] * nibbles[j] % width) % width == RowSum(row, nibbles, j + 1)
  {
    TermBound(row[j], nibbles[j]);
    RowSumBound(row, nibbles, j);
    SmallSum(RowSum(row, nibbles, j), row[j] * nibbles[j], width);
  }

  lemma SmallByte(a: nat)
    requires a < 256
    ensures a % 256 == a
  {
  }

  lemma PackedHalves(m: Matrix, nibbles: seq<nat>, i: nat, sum1: nat, sum2: nat)
    requires AreNibbles(nibbles) && i < 32
    requires sum1 == RowSum(m[2 * i], nibbles, 64) && sum2 == RowSum(m[2 * i + 1], nibbles, 64)
    ensures sum1 <= 14400 && sum2 <= 14400
    ensures Or(sum1 / 1024 * 16, sum2 / 1024) % 256 == Packed(m, nibbles, i)
    ensures Or(sum1 / 1024 * 16 % 256, sum2 / 1024 % 256) == Packed(m, nibbles, i)
  {
    RowSumBound(m[2 * i], nibbles, 64);
    RowSumBound(m[2 * i + 1], nibbles, 64);
    HalvesPack(sum1 / 1024, sum2 / 1024);
    SmallByte(sum1 / 1024 * 16);
    SmallByte(sum2 / 1024);
    SmallByte(Packed(m, nibbles, i));
  }

  // ------------------------------------------------------------ the CPU

  const U16: nat := 0x1_0000

  /** The loop of heavy_hash over one pair of rows, in u16. */
  method PairOfRowsCpu(m: Matrix, nibbles: seq<nat>, i: nat) returns (r: Byte)
    requires AreNibbles(nibbles) && i < 32
    ensures r == Packed(m, nibbles, i)
  {
    var sum1, sum2 := 0, 0;
    for j: nat := 0 to 64
      invariant sum1 == RowSum(m[2 * i], nibbles, j) && sum2 == RowSum(m[2 * i + 1], nibbles, j)
    {
      SumStep(m[2 * i], nibbles, j, U16);
      SumStep(m[2 * i + 1], nibbles, j, U16);
      sum1 := (sum1 + m[2 * i][j] * nibbles[j] % U16) % U16;
      sum2 := (sum2 + m[2 * i + 1][j] * nibbles[j] % U16) % U16;
    }
    PackedHalves(m, nibbles, i, sum1, sum2);
    r := Or(sum1 / 1024 * 16 % 256, sum2 / 1024 % 256);
  }

  method NibblesOf(bytes: seq<Byte>) returns (vec: seq<nat>)
    requires |bytes| == 32
    ensures vec == Nibbles(bytes)
  {
    var a := new nat[64](_ => 0);
    for i: nat := 0 to 32
      invariant forall j: nat | j < 2 * i :: a[j] == Nibble(bytes, j)
    {
      a[2 * i] := bytes[i] / 16;
      a[2 * i + 1] := bytes[i] % 16;
    }
    vec := a[..];
  }

  method MatrixHeavyHashCpu(p: Primitives, m: Matrix, hash: Hash) returns (r: Hash)
    requires WellFormed(p)
    ensures r == Stage2(p, m, hash)
  {
    var bytes := HashToLe(hash);
    var vec := NibblesOf(bytes);
    var product: seq<Byte> := [];
    for i: nat := 0 to 32
      invariant |product| == i && forall k: nat | k < i :: product[k] == Packed(m, Nibbles(bytes), k)
    {
      var b := PairOfRowsCpu(m, vec, i);
      product := product + [b];
    }
    var mixed: seq<Byte> := [];
    for i: nat := 0 to 32
      invariant |mixed| == i && forall k: nat | k < i :: mixed[k] == Product(p, m, bytes)[k]
    {
      mixed := mixed + [p.byteXor(product[i], bytes[i])];
    }
    assert mixed == Product(p, m, bytes);
    r := HeavyHashCpu(p, HashFromLe(mixed));
  }

  /** HeavyHasher::hash: the state is mixed in place and permuted. */
  method HeavyHashCpu(p: Primitives, inHash: Hash) returns (r: Hash)
    requires WellFormed(p)
    ensures r == Heavy(p, inHash)
  {
    var state := p.heavyInit;
    for i: nat := 0 to 4
      invariant |state| == 25
      invariant forall k: nat | k < 25 :: state[k] == if k < i then p.xor(p.heavyInit[k], inHash[k]) else p.heavyInit[k]
    {
      state := state[i := p.xor(state[i], inHash[i])];
    }
    forall k: nat | k < 4 ensures WordAt(HashToLe(inHash), k) == inHash[k] { WordOfHash(inHash, k); }
    assert state == Absorbed(p, p.heavyInit, HashToLe(inHash));
    state := p.perm(state);
    r := state[..4];
  }

  /** The hasher of a job: it keeps the state in which the header is already mixed in. */
  class PowHasher {
    var state: seq<Word>

    ghost predicate HasAbsorbed(p: Primitives, header: Header)
      requires WellFormed(p)
      reads this
    {
      state == Absorbed(p, p.powInit, HeaderBytes(header))
    }

    constructor (p: Primitives, prePowHash: Hash, timestamp: Word)
      requires WellFormed(p)
      ensures HasAbsorbed(p, Header(prePowHash, timestamp))
    {
      var start := p.powInit;
      for i: nat := 0 to 4
        invariant |start| == 25
        invariant forall k: nat | k < 25 ::
          start[k] == if k < i then p.xor(p.powInit[k], prePowHash[k]) else p.powInit[k]
      {
        start := start[i := p.xor(start[i], prePowHash[i])];
      }
      start := start[4 := p.xor(start[4], timestamp)];
      state := start;
      forall k: nat | k < 25 ensures start[k] == Absorbed(p, p.powInit, HeaderBytes(Header(prePowHash, timestamp)))[k] {
        AbsorbedHeader(p, Header(prePowHash, timestamp), k);
      }
    }

    /** finalize_with_nonce, on a copy of the state: the hasher can be used again. */
    method FinalizeWithNonce(p: Primitives, nonce: Word, ghost header: Header) returns (r: Hash)
      requires WellFormed(p) && HasAbsorbed(p, header)
      ensures r == Stage1(p, header, nonce)
    {
      var words := state[9 := p.xor(state[9], nonce)];
      AbsorbNonce(p, header, nonce);
      words := p.perm(words);
      r := words[..4];
    }
  }

  /** stage3 || target || nonce, and the salt from the lower half of stage1 and the upper half of stage3. */
  function Password(stage3: Hash, target: Hash, nonce: Word): seq<Byte> {
    HashToLe(stage3) + HashToLe(target) + ToLe(nonce, 8)
  }

  function Salt(p: Primitives, stage1: Hash, stage3: Hash): (r: seq<Byte>)
    ensures |r| == 16
  {
    seq<Byte>(16, i requires 0 <= i < 16 => p.byteXor(HashToLe(stage1)[i], HashToLe(stage3)[i + 16]))
  }

  /** The password read back: the third stage, the target and the nonce, in this order. */
  lemma PasswordFields(stage3: Hash, target: Hash, nonce: Word)
    ensures var bytes := Password(stage3, target, nonce);
            && |bytes| == 72 && HashFromLe(bytes[..32]) == stage3 && HashFromLe(bytes[32..64]) == target
            && WordFromLe(bytes[64..]) == nonce
  {
    var bytes := Password(stage3, target, nonce);
    assert bytes[..32] == HashToLe(stage3) && bytes[32..64] == HashToLe(target) && bytes[64..] == ToLe(nonce, 8);
    HashRoundTrip(stage3);
    HashRoundTrip(target);
    WordRoundTrip(nonce);
  }

  /** Byte i of the salt is mixed from byte i of the first two words of stage1 and of the last two words of stage3. */
  lemma SaltBytes(p: Primitives, stage1: Hash, stage3: Hash, i: nat)
    requires i < 16
    ensures Salt(p, stage1, stage3)[i]
         == p.byteXor(Shr(stage1[i / 8], 8 * (i % 8)) % 256, Shr(stage3[2 + i / 8], 8 * (i % 8)) % 256)
  {
    ByteOfHash(stage1, i);
    ByteOfHash(stage3, i + 16);
  }

  lemma ByteOfHash(h: Hash, i: nat)
    requires i < 32
    ensures HashToLe(h)[i] == Shr(h[i / 8], 8 * (i % 8)) % 256
  {
    ToLeAt(h[i / 8], 8, i % 8);
    assert HashToLe(h)[8 * (i / 8)..8 * (i / 8) + 8] == ToLe(h[i / 8], 8);
    assert HashToLe(h)[i] == HashToLe(h)[8 * (i / 8)..8 * (i / 8) + 8][i % 8];
  }

  /** The inputs that memory_hard_hash gives to Argon2. */
  method MemoryHardInputs(p: Primitives, stage3: Hash, stage1: Hash, nonce: Word, target: Hash)
    returns (password: seq<Byte>, salt: seq<Byte>)
    ensures password == Password(stage3, target, nonce) && salt == Salt(p, stage1, stage3)
  {
    var a := new Byte[72](_ => 0);
    Write(a, 0, HashToLe(stage3));
    Write(a, 32, HashToLe(target));
    Write(a, 64, ToLe(nonce, 8));
    password := a[..];
    assert password == Password(stage3, target, nonce);
    salt := [];
    for i: nat := 0 to 16
      invariant |salt| == i && forall k: nat | k < i :: salt[k] == Salt(p, stage1, stage3)[k]
    {
      salt := salt + [p.byteXor(HashToLe(stage1)[i], HashToLe(stage3)[i + 16])];
    }
  }

  // ------------------------------------------------------------ the upload

  /** The entries of a row in 16 bits each. */
  ghost predicate RowUploaded(bytes: seq<Byte>, at: nat, row: seq<Entry>)
    requires |row| == 64
  {
    at + 128 <= |bytes| && forall c: nat | c < 64 :: bytes[at + 2 * c] == row[c] && bytes[at + 2 * c + 1] == 0
  }

  /** What the CPU uploads: the header hash, the timestamp, 32 zeros and the matrix, row by row. */
  ghost predicate Uploaded(constants: seq<Byte>, header: Header, m: Matrix)
  {
    && |constants| == 72 + 64 * 128
    && constants[..72] == HeaderBytes(header)
    && forall r: nat | r < 64 :: RowUploaded(constants, 72 + 128 * r, m[r])
  }

  /** gpu_hash_header */
  method GpuHashHeader(header: Header) returns (out: seq<Byte>)
    ensures out == HeaderBytes(header)
  {
    var a := new Byte[72](_ => 0);
    Write(a, 0, HashToLe(header.prePow));
    Write(a, 32, ToLe(header.timestamp, 8));
    out := a[..];
  }

  method WriteRow(out: array<Byte>, offset: nat, row: seq<Entry>)
    requires |row| == 64 && offset + 128 <= out.Length
    modifies out
    ensures RowUploaded(out[..], offset, row)
    ensures forall k: nat | k < out.Length && !(offset <= k < offset + 128) :: out[k] == old(out[k])
  {
    for c: nat := 0 to 64
      invariant forall c': nat | c' < c :: out[offset + 2 * c'] == row[c'] && out[offset + 2 * c' + 1] == 0
      invariant forall k: nat | k < out.Length && !(offset <= k < offset + 128) :: out[k] == old(out[k])
    {
      out[offset + 2 * c], out[offset + 2 * c + 1] := row[c] % 256, row[c] / 256;
    }
  }

  /** as_u16_le_bytes: an offset runs through the rows. */
  method AsU16LeBytes(m: Matrix) returns (out: seq<Byte>)
    ensures |out| == 64 * 128 && forall r: nat | r < 64 :: RowUploaded(out, 128 * r, m[r])
  {
    var a := new Byte[64 * 128](_ => 0);
    var offset := 0;
    for r: nat := 0 to 64
      invariant offset == 128 * r
      invariant forall r': nat | r' < r :: RowUploaded(a[..], 128 * r', m[r'])
    {
      ghost var before := a[..];
      WriteRow(a, offset, m[r]);
      forall r': nat | r' < r ensures RowUploaded(a[..], 128 * r', m[r']) {
        RowStays(before, a[..], 128 * r', m[r'], offset);
      }
      offset := offset + 128;
    }
    out := a[..];
  }

  lemma RowStays(before: seq<Byte>, after: seq<Byte>, at: nat, row: seq<Entry>, offset: nat)
    requires |row| == 64 && RowUploaded(before, at, row) && |after| == |before| && at + 128 <= offset
    requires forall k: nat | k < |after| && !(offset <= k < offset + 128) :: after[k] == before[k]
    ensures RowUploaded(after, at, row)
  {
  }

  lemma RowMoves(bytes: seq<Byte>, head: seq<Byte>, at: nat, row: seq<Entry>)
    requires |row| == 64 && RowUploaded(bytes, at, row)
    ensures RowUploaded(head + bytes, |head| + at, row)
  {
    forall c: nat | c < 64
      ensures (head + bytes)[|head| + at + 2 * c] == row[c] && (head + bytes)[|head| + at + 2 * c + 1] == 0
    {
      assert (head + bytes)[|head| + (at + 2 * c)] == bytes[at + 2 * c];
      assert (head + bytes)[|head| + (at + 2 * c + 1)] == bytes[at + 2 * c + 1];
    }
  }

  /** upload_constants */
  method UploadConstants(header: Header, m: Matrix) returns (constants: seq<Byte>)
    ensures Uploaded(constants, header, m)
  {
    var head := GpuHashHeader(header);
    var rows := AsU16LeBytes(m);
    constants := head + rows;
    assert constants[..72] == head;
    forall r: nat | r < 64 ensures RowUploaded(constants, 72 + 128 * r, m[r]) {
      RowMoves(rows, head, 128 * r, m[r]);
    }
  }

  // ------------------------------------------------------------ the GPU

  /** The copy of a constant state and the exclusive or of four words, as the kernel writes it out. */
  method MixFirstWords(p: Primitives, init: seq<Word>, words: Hash) returns (state: array<Word>)
    requires |init| == 25
    ensures fresh(state) && state.Length == 25
    ensures forall k: nat | k < 25 :: state[k] == if k < 4 then p.xor(init[k], words[k]) else init[k]
  {
    state := new Word[25](_ => 0);
    for i: nat := 0 to 25
      invariant forall k: nat | k < i :: state[k] == init[k]
    {
      state[i] := init[i];
    }
    for i: nat := 0 to 4
      invariant forall k: nat | k < 25 :: state[k] == if k < i then p.xor(init[k], words[k]) else init[k]
    {
      state[i] := p.xor(state[i], words[i]);
    }
  }

  method FirstWords(state: seq<Word>) returns (out: Hash)
    requires |state| == 25
    ensures out == state[..4]
  {
    var a := new Word[4](_ => 0);
    for i: nat := 0 to 4
      invariant forall k: nat | k < i :: a[k] == state[k]
    {
      a[i] := state[i];
    }
    out := a[..];
  }

  /** heavy_hash_words */
  method HeavyHashGpu(p: Primitives, inWords: Hash) returns (out: Hash)
    requires WellFormed(p)
    ensures out == Heavy(p, inWords)
  {
    var state := MixFirstWords(p, p.heavyInit, inWords);
    forall k: nat | k < 4 ensures WordAt(HashToLe(inWords), k) == inWords[k] { WordOfHash(inWords, k); }
    assert state[..] == Absorbed(p, p.heavyInit, HashToLe(inWords));
    out := FirstWords(p.perm(state[..]));
  }

  /** The first stage of velkar_prepare_jobs: header and nonce in one go. */
  method PowHashGpu(p: Primitives, prePow: Hash, timestamp: Word, nonce: Word) returns (out: Hash)
    requires WellFormed(p)
    ensures out == Stage1(p, Header(prePow, timestamp), nonce)
  {
    var state := MixFirstWords(p, p.powInit, prePow);
    state[4] := p.xor(state[4], timestamp);
    state[9] := p.xor(state[9], nonce);
    ghost var header := Header(prePow, timestamp);
    forall k: nat | k < 25 && k != 9 ensures state[k] == Absorbed(p, p.powInit, HeaderBytes(header))[k] {
      AbsorbedHeader(p, header, k);
    }
    AbsorbedHeader(p, header, 9);
    AbsorbNonce(p, header, nonce);
    assert state[..] == Absorbed(p, p.powInit, HeaderBytes(header) + ToLe(nonce, 8));
    out := FirstWords(p.perm(state[..]));
  }

  /** load_matrix_value */
  method LoadMatrixValue(constants: seq<Byte>, r: nat, c: nat, ghost row: seq<Entry>) returns (v: nat)
    requires |row| == 64 && r < 64 && c < 64 && RowUploaded(constants, 72 + 128 * r, row)
    ensures v == row[c]
  {
    var offset := 72 + (r * 64 + c) * 2;
    assert offset == 72 + 128 * r + 2 * c;
    OrZero(row[c]);
    v := Or(constants[offset], constants[offset + 1] * 256);
  }

  /** The loop of matrix_heavy_hash_words over one pair of rows, in 32 bits. */
  method PairOfRowsGpu(constants: seq<Byte>, nibbles: seq<nat>, i: nat, ghost upper: seq<Entry>,
                       ghost lower: seq<Entry>)
    returns (sum1: nat, sum2: nat)
    requires AreNibbles(nibbles) && i < 32 && |upper| == |lower| == 64
    requires RowUploaded(constants, 72 + 128 * (2 * i), upper) && RowUploaded(constants, 72 + 128 * (2 * i + 1), lower)
    ensures sum1 == RowSum(upper, nibbles, 64) && sum2 == RowSum(lower, nibbles, 64)
  {
    sum1, sum2 := 0, 0;
    for j: nat := 0 to 64
      invariant sum1 == RowSum(upper, nibbles, j) && sum2 == RowSum(lower, nibbles, j)
    {
      var a := LoadMatrixValue(constants, 2 * i, j, upper);
      var b := LoadMatrixValue(constants, 2 * i + 1, j, lower);
      sum1 := AddTerm(sum1, a, nibbles, j, upper);
      sum2 := AddTerm(sum2, b, nibbles, j, lower);
    }
  }

  method AddTerm(sum: nat, entry: nat, nibbles: seq<nat>, j: nat, ghost row: seq<Entry>) returns (r: nat)
    requires AreNibbles(nibbles) && j < 64 && |row| == 64 && entry == row[j] && sum == RowSum(row, nibbles, j)
    ensures r == RowSum(row, nibbles, j + 1)
  {
    SumStep(row, nibbles, j, TWO32);
    r := (sum + entry * nibbles[j] % TWO32) % TWO32;
  }

  method PackGpu(sum1: nat, sum2: nat, nibbles: seq<nat>, i: nat, ghost m: Matrix) returns (r: Byte)
    requires AreNibbles(nibbles) && i < 32
    requires sum1 == RowSum(m[2 * i], nibbles, 64) && sum2 == RowSum(m[2 * i + 1], nibbles, 64)
    ensures r == Packed(m, nibbles, i)
  {
    PackedHalves(m, nibbles, i, sum1, sum2);
    r := Or(sum1 / 1024 * 16, sum2 / 1024) % 256;
  }

  method ProductByteGpu(p: Primitives, constants: seq<Byte>, nibbles: seq<nat>, i: nat, b: Byte, ghost m: Matrix)
    returns (r: Byte)
    requires AreNibbles(nibbles) && i < 32 && forall r: nat | r < 64 :: RowUploaded(constants, 72 + 128 * r, m[r])
    ensures r == p.byteXor(Packed(m, nibbles, i), b)
  {
    var sum1, sum2 := PairOfRowsGpu(constants, nibbles, i, m[2 * i], m[2 * i + 1]);
    var packed := PackGpu(sum1, sum2, nibbles, i, m);
    r := p.byteXor(packed, b);
  }

  method MatrixHeavyHashGpu(p: Primitives, constants: seq<Byte>, words: Hash, ghost m: Matrix) returns (out: Hash)
    requires WellFormed(p) && forall r: nat | r < 64 :: RowUploaded(constants, 72 + 128 * r, m[r])
    ensures out == Stage2(p, m, words)
  {
    var input := HashToLe(words);
    var nibbles := NibblesOf(input);
    var product: seq<Byte> := [];
    for i: nat := 0 to 32
      invariant |product| == i && forall k: nat | k < i :: product[k] == p.byteXor(Packed(m, nibbles, k), input[k])
    {
      var b := ProductByteGpu(p, constants, nibbles, i, input[i], m);
      product := product + [b];
    }
    assert product == Product(p, m, input) && product[0..32] == product;
    var words' := LoadWords(product, 0);
    out := HeavyHashGpu(p, words');
  }

  /** Four words with load64_le. */
  method LoadWords(src: seq<Byte>, at: nat) returns (words: Hash)
    requires at + 32 <= |src|
    ensures words == HashFromLe(src[at..at + 32])
  {
    var w0 := Load64(src, at);
    var w1 := Load64(src, at + 8);
    var w2 := Load64(src, at + 16);
    var w3 := Load64(src, at + 24);
    words := [w0, w1, w2, w3];
    var part := src[at..at + 32];
    assert part[..8] == src[at..at + 8] && part[8..16] == src[at + 8..at + 16];
    assert part[16..24] == src[at + 16..at + 24] && part[24..] == src[at + 24..at + 32];
  }

  method StoreWords(dst: array<Byte>, at: nat, words: Hash)
    requires at + 32 <= dst.Length
    modifies dst
    ensures Placed(old(dst[..]), at, HashToLe(words), dst[..])
  {
    ghost var s0 := dst[..];
    Store64(dst, at, words[0]);
    ghost var s1 := dst[..];
    Store64(dst, at + 8, words[1]);
    ghost var s2 := dst[..];
    Store64(dst, at + 16, words[2]);
    ghost var s3 := dst[..];
    Store64(dst, at + 24, words[3]);
    ghost var b0, b1, b2, b3 := ToLe(words[0], 8), ToLe(words[1], 8), ToLe(words[2], 8), ToLe(words[3], 8);
    PlacedNext(s0, at, b0, s1, at + 8, b1, s2);
    PlacedNext(s0, at, b0 + b1, s2, at + 16, b2, s3);
    PlacedNext(s0, at, b0 + b1 + b2, s3, at + 24, b3, dst[..]);
  }

  // ------------------------------------------------------------ the record of a job

  /** Password, salt, nonce and the first three stages. */
  function Record(p: Primitives, header: Header, m: Matrix, target: Hash, nonce: Word): (r: seq<Byte>)
    requires WellFormed(p)
    ensures |r| == 192
  {
    var stage1 := Stage1(p, header, nonce);
    var stage2 := Stage2(p, m, stage1);
    var stage3 := Heavy(p, stage2);
    Password(stage3, target, nonce) + Salt(p, stage1, stage3) + ToLe(nonce, 8)
    + HashToLe(stage1) + HashToLe(stage2) + HashToLe(stage3)
  }

  /** The stages of velkar_prepare_jobs, from the constants. */
  method StagesGpu(p: Primitives, constants: seq<Byte>, nonce: Word, ghost header: Header, ghost m: Matrix)
    returns (stage1: Hash, stage2: Hash, stage3: Hash)
    requires WellFormed(p) && Uploaded(constants, header, m)
    ensures stage1 == Stage1(p, header, nonce) && stage2 == Stage2(p, m, stage1) && stage3 == Heavy(p, stage2)
  {
    assert constants[0..32] == constants[..72][..32] == HashToLe(header.prePow);
    assert constants[32..40] == constants[..72][32..40] == ToLe(header.timestamp, 8);
    var prePow := LoadWords(constants, 0);
    HashRoundTrip(header.prePow);
    var timestamp := Load64(constants, 32);
    WordRoundTrip(header.timestamp);
    stage1 := PowHashGpu(p, prePow, timestamp, nonce);
    stage2 := MatrixHeavyHashGpu(p, constants, stage1, m);
    stage3 := HeavyHashGpu(p, stage2);
  }

  /** What velkar_prepare_jobs writes from the place of its job on. */
  method WriteRecord(p: Primitives, out: array<Byte>, at: nat, target: Hash, nonce: Word, stage1: Hash, stage2: Hash,
                     stage3: Hash)
    requires at + 192 <= out.Length
    modifies out
    ensures Placed(old(out[..]), at, Password(stage3, target, nonce) + Salt(p, stage1, stage3) + ToLe(nonce, 8)
                                     + HashToLe(stage1) + HashToLe(stage2) + HashToLe(stage3), out[..])
  {
    ghost var start := out[..];
    ghost var head := Password(stage3, target, nonce) + Salt(p, stage1, stage3);
    WriteInputs(p, out, at, target, nonce, stage1, stage3);
    ghost var s0 := out[..];
    Store64(out, at + 88, nonce);
    ghost var s1 := out[..];
    PlacedNext(start, at, head, s0, at + 88, ToLe(nonce, 8), s1);
    StoreWords(out, at + 96, stage1);
    ghost var s2 := out[..];
    PlacedNext(start, at, head + ToLe(nonce, 8), s1, at + 96, HashToLe(stage1), s2);
    StoreWords(out, at + 128, stage2);
    ghost var s3 := out[..];
    PlacedNext(start, at, head + ToLe(nonce, 8) + HashToLe(stage1), s2, at + 128, HashToLe(stage2), s3);
    StoreWords(out, at + 160, stage3);
    PlacedNext(start, at, head + ToLe(nonce, 8) + HashToLe(stage1) + HashToLe(stage2), s3, at + 160, HashToLe(stage3),
               out[..]);
  }

  method WriteInputs(p: Primitives, out: array<Byte>, at: nat, target: Hash, nonce: Word, stage1: Hash, stage3: Hash)
    requires at + 88 <= out.Length
    modifies out
    ensures Placed(old(out[..]), at, Password(stage3, target, nonce) + Salt(p, stage1, stage3), out[..])
  {
    ghost var start := out[..];
    StoreWords(out, at, stage3);
    ghost var s0 := out[..];
    StoreWords(out, at + 32, target);
    ghost var s1 := out[..];
    PlacedNext(start, at, HashToLe(stage3), s0, at + 32, HashToLe(target), s1);
    Store64(out, at + 64, nonce);
    ghost var s2 := out[..];
    PlacedNext(start, at, HashToLe(stage3) + HashToLe(target), s1, at + 64, ToLe(nonce, 8), s2);
    WriteSalt(p, out, at + 72, stage1, stage3);
    PlacedNext(start, at, Password(stage3, target, nonce), s2, at + 72, Salt(p, stage1, stage3), out[..]);
  }

  method WriteSalt(p: Primitives, out: array<Byte>, at: nat, stage1: Hash, stage3: Hash)
    requires at + 16 <= out.Length
    modifies out
    ensures Placed(old(out[..]), at, Salt(p, stage1, stage3), out[..])
  {
    for i: nat := 0 to 16
      invariant forall k: nat | k < out.Length ::
        out[k] == if at <= k < at + i then Salt(p, stage1, stage3)[k - at] else old(out[k])
    {
      out[at + i] := p.byteXor(HashToLe(stage1)[i], HashToLe(stage3)[i + 16]);
    }
  }

  /** The nonce of a job: the base and the job's number, masked. */
  function JobNonce(partition: NoncePartition.Partition, base: nat, job: nat): Word
    requires partition.InWords()
  {
    NoncePartition.ApplyIsWord(partition, (base + job) % U64);
    partition.Apply((base + job) % U64)
  }

  /**
   The nonce of a job as a number: where the lowest f bits are free, it is the fixed part plus base and job number
   modulo 2^f.
   */
  lemma NonceOfJob(partition: NoncePartition.Partition, f: nat, base: nat, job: nat)
    requires partition.Splits(f) && partition.InWords()
    ensures JobNonce(partition, base, job) == partition.fixed + (base + job) % Pow2(f)
  {
    NoncePartition.JobNonce(partition, f, base + job);
  }

  /** One work item of velkar_prepare_jobs. */
  method PrepareJob(p: Primitives, out: array<Byte>, job: nat, constants: seq<Byte>, base: nat,
                    partition: NoncePartition.Partition, target: Hash, ghost header: Header, ghost m: Matrix)
    requires WellFormed(p) && Uploaded(constants, header, m) && partition.InWords()
    requires (job + 1) * 192 <= out.Length
    modifies out
    ensures Placed(old(out[..]), job * 192, Record(p, header, m, target, JobNonce(partition, base, job)), out[..])
  {
    ghost var expected := JobNonce(partition, base, job);
    var nonce := partition.Apply((base + job) % U64);
    var stage1, stage2, stage3 := StagesGpu(p, constants, nonce, header, m);
    WriteRecord(p, out, job * 192, target, nonce, stage1, stage2, stage3);
  }

  /** The 192 bytes of a job are the given ones. */
  ghost predicate JobHolds(bytes: seq<Byte>, job: nat, record: seq<Byte>) {
    PartStart(job, 192) + 192 <= |bytes| && Part(bytes, 192, job) == record
  }

  ghost function IsRecord(p: Primitives, header: Header, m: Matrix, target: Hash, base: nat,
                          partition: NoncePartition.Partition): (nat, seq<Byte>) -> bool
    requires WellFormed(p) && partition.InWords()
  {
    (job: nat, part: seq<Byte>) => part == Record(p, header, m, target, JobNonce(partition, base, job))
  }

  /** All work items, in any order: each fills its own part of the buffer, and the rest of it stays. */
  method PrepareJobs(p: Primitives, out: array<Byte>, order: seq<nat>, constants: seq<Byte>, base: nat,
                     partition: NoncePartition.Partition, target: Hash, ghost header: Header, ghost m: Matrix)
    requires WellFormed(p) && Uploaded(constants, header, m) && partition.InWords() && Fits(out.Length, 192, order)
    modifies out
    ensures forall job | job in order ::
      JobHolds(out[..], job, Record(p, header, m, target, JobNonce(partition, base, job)))
    ensures OthersStay(old(out[..]), out[..], 192, order)
  {
    hide Record, Uploaded, OthersStay, OnlyPart, JobNonce;
    ghost var good := IsRecord(p, header, m, target, base, partition);
    NothingDone(out[..], 192, good);
    for k: nat := 0 to |order|
      invariant AllHold(out[..], 192, order[..k], good)
      invariant OthersStay(old(out[..]), out[..], 192, order[..k])
    {
      ghost var before := out[..];
      assert order[k] in order;
      PrepareJob(p, out, order[k], constants, base, partition, target, header, m);
      PlacedIsPart(before, PartStart(order[k], 192), Record(p, header, m, target, JobNonce(partition, base, order[k])),
                   out[..]);
      OneMoreHolds(before, out[..], 192, order[..k], order[k], good);
      OneMoreStays(old(out[..]), before, out[..], 192, order[..k], order[k]);
      assert order[..k + 1] == order[..k] + [order[k]];
    }
    assert order[..|order|] == order;
  }

  // ------------------------------------------------------------ the host reads a record

  /** What the host finds in a record is what the CPU computes for the nonce. */
  lemma RecordDecodes(p: Primitives, header: Header, m: Matrix, target: Hash, nonce: Word)
    requires WellFormed(p)
    ensures var stage1 := Stage1(p, header, nonce);
            var stage2 := Stage2(p, m, stage1);
            var stage3 := Heavy(p, stage2);
            var r := Record(p, header, m, target, nonce);
            && r[..72] == Password(stage3, target, nonce) && r[72..88] == Salt(p, stage1, stage3)
            && WordFromLe(r[88..96]) == nonce
            && HashFromLe(r[96..128]) == stage1 && HashFromLe(r[128..160]) == stage2
              && HashFromLe(r[160..192]) == stage3
  {
    var stage1 := Stage1(p, header, nonce);
    var stage2 := Stage2(p, m, stage1);
    var stage3 := Heavy(p, stage2);
    RecordParts(Password(stage3, target, nonce), Salt(p, stage1, stage3), ToLe(nonce, 8),
                HashToLe(stage1), HashToLe(stage2), HashToLe(stage3));
    WordRoundTrip(nonce);
    HashRoundTrip(stage1);
    HashRoundTrip(stage2);
    HashRoundTrip(stage3);
  }

  lemma RecordParts(a: seq<Byte>, b: seq<Byte>, c: seq<Byte>, d: seq<Byte>, e: seq<Byte>, f: seq<Byte>)
    requires |a| == 72 && |b| == 16 && |c| == 8 && |d| == |e| == |f| == 32
    ensures var r := a + b + c + d + e + f;
            r[..72] == a && r[72..88] == b && r[88..96] == c && r[96..128] == d && r[128..160] == e && r[160..192] == f
  {
  }

  /**
   The comparison that the host makes for the first job of a batch, with the fourth stage that the device has
   exported: it can only fail in that stage, and does so if that is not the hash of the CPU.
   */
  method ValidateStages(p: Primitives, header: Header, m: Matrix, target: Hash, nonce: Word, input: seq<Byte>,
                        stage4: Hash)
    returns (same: bool)
    requires WellFormed(p) && input == Record(p, header, m, target, nonce)
    ensures same <==> stage4 == p.argon(input[..72], input[72..88])
  {
    var stage1, stage2, stage3 := HashFromLe(input[96..128]), HashFromLe(input[128..160]), HashFromLe(input[160..192]);
    var hasher := new PowHasher(p, header.prePow, header.timestamp);
    var cpu1 := hasher.FinalizeWithNonce(p, nonce, header);
    var cpu2 := MatrixHeavyHashCpu(p, m, cpu1);
    var cpu3 := HeavyHashCpu(p, cpu2);
    var password, salt := MemoryHardInputs(p, cpu3, cpu1, nonce, target);
    var cpu4 := p.argon(password, salt);
    RecordDecodes(p, header, m, target, nonce);
    same := stage1 == cpu1 && stage2 == cpu2 && stage3 == cpu3 && stage4 == cpu4;
  }
}
