/**
 Blocks of 128 words of 64 bits, and what the 32 threads of module BlockPermutation do with the blocks that
 they hold in their registers: the operations that the fill of module ArgonFill needs.
 */
module ThreadBlocks {
  import Bits
  import opened ArgonFill
  import opened BlockPermutation
  import opened LittleEndian
  import opened ReferenceIndex

  type LaneOfThreads = BlockPermutation.Lane<Word>
  type ThreadRegisters = BlockPermutation.Registers<Word>

  // ------------------------------------------------------------ numbers of words

  /** The number n below 256 in eight bits. */
  function Number(n: nat): bv8 { if n == 0 then 0 else 2 * Number(n / 2) + if n % 2 == 1 then 1 else 0 }

  function NatOf(i: bv8): nat
    decreases i
  {
    if i == 0 then 0 else 2 * NatOf(i / 2) + if i % 2 == 1 then 1 else 0
  }

  lemma {:induction false} NumberOfNat(i: bv8)
    ensures Number(NatOf(i)) == i
    decreases i
  {
    if i != 0 {
      NumberOfNat(i / 2);
    }
  }

  /** 2^k, as a number and in eight bits. */
  function Limit(k: nat): nat
    requires k <= 5
  {
    if k == 0 then 1 else 2 * Limit(k - 1)
  }

  function Power(k: nat): bv8
    requires k <= 5
  {
    if k == 0 then 1 else if k == 1 then 2 else if k == 2 then 4 else if k == 3 then 8 else if k == 4 then 16 else 32
  }

  lemma OneBitMore(n: nat, below: bv8)
    requires Number(n / 2) < below <= 64
    ensures Number(n) < 2 * below && Number(n) / 2 == Number(n / 2) && (Number(n) % 2 == 1 <==> n % 2 == 1)
  {
  }

  lemma {:induction false} NumberBelow(n: nat, k: nat)
    requires k <= 5 && n < Limit(k)
    ensures Number(n) < Power(k)
  {
    if k > 0 {
      NumberBelow(n / 2, k - 1);
      OneBitMore(n, Power(k - 1));
    }
  }

  lemma {:induction false} NatBelow(i: bv8, k: nat)
    requires k <= 5 && i < Power(k)
    ensures NatOf(i) < Limit(k)
  {
    if k > 0 {
      NatBelow(i / 2, k - 1);
    }
  }

  lemma {:induction false} NatOfNumber(n: nat, k: nat)
    requires k <= 5 && n < Limit(k)
    ensures NatOf(Number(n)) == n
  {
    if k > 0 {
      NumberBelow(n / 2, k - 1);
      OneBitMore(n, Power(k - 1));
      NatOfNumber(n / 2, k - 1);
    }
  }

  /** Word n of a block is register n / 32 of thread n % 32. */
  function IndexOf(n: nat): Index { 32 * Number(n / 32) + Number(n % 32) }

  function PlaceOf(i: Index): nat { 32 * NatOf(i / 32) + NatOf(i % 32) }

  lemma IndexParts(x: bv8, y: bv8)
    requires x < 4 && y < 32
    ensures 32 * x + y < 128 && (32 * x + y) / 32 == x && (32 * x + y) % 32 == y
  {
  }

  lemma IndexWhole(i: bv8)
    ensures 32 * (i / 32) + i % 32 == i && i % 32 < 32 && (i < 128 ==> i / 32 < 4)
  {
  }

  lemma SmallNumbers(n: nat)
    requires n < 128
    ensures Number(n / 32) < 4 && Number(n % 32) < 32
    ensures NatOf(Number(n / 32)) == n / 32 && NatOf(Number(n % 32)) == n % 32
  {
    LimitOf32();
    NumberBelow(n / 32, 2);
    NumberBelow(n % 32, 5);
    NatOfNumber(n / 32, 2);
    NatOfNumber(n % 32, 5);
  }

  lemma PlaceOfIndex(n: nat)
    requires n < 128
    ensures IndexOf(n) < 128 && PlaceOf(IndexOf(n)) == n
  {
    SmallNumbers(n);
    IndexParts(Number(n / 32), Number(n % 32));
  }

  lemma IndexOfPlace(i: Index)
    requires i < 128
    ensures PlaceOf(i) < 128 && IndexOf(PlaceOf(i)) == i
  {
    IndexWhole(i);
    SmallPlaces(i);
    PlaceParts(NatOf(i / 32), NatOf(i % 32));
  }

  lemma SmallPlaces(i: Index)
    requires i / 32 < 4 && i % 32 < 32
    ensures NatOf(i / 32) < 4 && NatOf(i % 32) < 32
    ensures Number(NatOf(i / 32)) == i / 32 && Number(NatOf(i % 32)) == i % 32
  {
    LimitOf32();
    NatBelow(i / 32, 2);
    NatBelow(i % 32, 5);
    NumberOfNat(i / 32);
    NumberOfNat(i % 32);
  }

  lemma PlaceParts(x: nat, y: nat)
    requires x < 4 && y < 32
    ensures 32 * x + y < 128 && (32 * x + y) / 32 == x && (32 * x + y) % 32 == y
  {
  }

  lemma LimitOf32()
    ensures Limit(2) == 4 && Limit(5) == 32
  {
  }

  // ------------------------------------------------------------ blocks of words

  type Block = s: seq<Word> | |s| == 128 witness seq(128, _ => 0)

  function Words(b: Block): Index -> Word { i => if PlaceOf(i) < 128 then b[PlaceOf(i)] else 0 }

  function Packed(f: Index -> Word): (b: Block)
    ensures forall i: Index | i < 128 :: Words(b)(i) == f(i)
  {
    assert forall i: Index | i < 128 :: PlaceOf(i) < 128 && IndexOf(PlaceOf(i)) == i by {
      forall i: Index | i < 128 ensures PlaceOf(i) < 128 && IndexOf(PlaceOf(i)) == i {
        IndexOfPlace(i);
      }
    }
    seq<Word>(128, n requires 0 <= n < 128 => f(IndexOf(n)))
  }

  lemma SameBlock(a: Block, b: Block)
    requires forall i: Index | i < 128 :: Words(a)(i) == Words(b)(i)
    ensures a == b
  {
    forall n: nat | n < 128 ensures a[n] == b[n] {
      PlaceOfIndex(n);
      assert Words(a)(IndexOf(n)) == Words(b)(IndexOf(n));
    }
  }

  function XorWord(x: Word, y: Word): Word {
    Bits.Pow2Of64();
    Bits.ZipBound((p: bool, q: bool) => p != q, x, y, 64);
    Bits.Xor(x, y)
  }

  lemma XorWordLaws(x: Word, y: Word, z: Word)
    ensures XorWord(x, y) == XorWord(y, x)
    ensures XorWord(XorWord(x, y), z) == XorWord(x, XorWord(y, z))
    ensures XorWord(0, x) == x == XorWord(x, 0)
  {
    Bits.XorCommutes(x, y);
    Bits.XorCommutes(x, 0);
    Bits.XorAssociates(x, y, z);
    Bits.XorZero(x);
  }

  /** thread_input: one 32-bit number for each of the first seven threads. */
  function InputOfThread(input: seq<nat>, t: Thread): Word {
    var k := if t == 0 then 0 else if t == 1 then 1 else if t == 2 then 2 else if t == 3 then 3
             else if t == 4 then 4 else if t == 5 then 5 else if t == 6 then 6 else 7;
    if k < 7 && k < |input| then Wrap(input[k]) else 0
  }

  function ThreadInput(input: seq<nat>): Thread -> Word { (t: Thread) => InputOfThread(input, t) }

  function HalvesOf(v: Word): Selector { Selector(v % Bits.TWO32, v / Bits.TWO32) }

  /** The operations that the fill needs, on blocks of words. */
  function KernelBlocks(gb: Mixer<Word>): Blocks<Block> {
    Blocks((x: Block, y: Block) => Packed(Xored(XorWord, Words(x), Words(y))),
           (x: Block) => Packed(Permute(gb, Words(x))),
           Packed(_ => 0),
           (input: seq<nat>) => Packed(ThreadInput(input)),
           (b: Block, n: nat) => HalvesOf(Words(b)(IndexOf(n))))
  }

  lemma KernelBlocksObeyLaws(gb: Mixer<Word>)
    ensures Laws(KernelBlocks(gb))
  {
    var b := KernelBlocks(gb);
    forall x: Block, y: Block, z: Block ensures XorLaws(b, x, y, z) {
      forall i: Index | i < 128
        ensures Words(b.xor(x, y))(i) == Words(b.xor(y, x))(i) && Words(b.xor(b.zero, x))(i) == Words(x)(i)
        ensures Words(b.xor(b.xor(x, y), z))(i) == Words(b.xor(x, b.xor(y, z)))(i)
      {
        XorWordLaws(Words(x)(i), Words(y)(i), Words(z)(i));
      }
      SameBlock(b.xor(x, y), b.xor(y, x));
      SameBlock(b.xor(b.zero, x), x);
      SameBlock(b.xor(b.xor(x, y), z), b.xor(x, b.xor(y, z)));
    }
  }

  // ------------------------------------------------------------ these operations in numbers

  lemma WordAt(block: Block, n: nat)
    requires n < 128
    ensures Words(block)(IndexOf(n)) == block[n]
  {
    PlaceOfIndex(n);
  }

  /** J1 is the lower half of the word and J2 the upper one. */
  lemma HalvesOfWord(gb: Mixer<Word>, block: Block, n: nat)
    requires n < 128
    ensures var s := KernelBlocks(gb).word(block, n);
            s.j1 + Bits.TWO32 * s.j2 == block[n] && s.j1 == block[n] % Bits.TWO32 && s.j2 == block[n] / Bits.TWO32
  {
    WordAt(block, n);
    WordOfBlock(gb, block, n, IndexOf(n));
  }

  /** The reference of section 3.4.2 of RFC 9106 that a word stands for, from its quotient and remainder by 2^32. */
  lemma ReferenceOfWord(p: Params, gb: Mixer<Word>, at: Position, block: Block, n: nat)
    requires p.Fits() && at.Reachable(p) && n < 128
    ensures var (j1, j2) := (block[n] % Bits.TWO32, block[n] / Bits.TWO32);
            var c := Standard(p)(at, KernelBlocks(gb).word(block, n));
            var w := Window(p, at, c.lane == at.lane);
            var z := |w| - 1 - |w| * (j1 * j1 / Bits.TWO32) / Bits.TWO32;
            && c.lane == (if at.pass == 0 && at.slice == 0 then at.lane else j2 % p.lanes)
            && 0 <= z < |w| && c.column == w[z]
  {
    hide Window, MulHi, KernelBlocks;
    HalvesOfWord(gb, block, n);
    var s := KernelBlocks(gb).word(block, n);
    var sameLane := RefLane(p, at, s.j2) == at.lane;
    WindowHasPlaces(p, at, sameLane);
    PlaceInWindow(|Window(p, at, sameLane)|, s.j1);
  }

  lemma WindowHasPlaces(p: Params, at: Position, sameLane: bool)
    requires p.Fits() && at.Reachable(p) && (at.pass == 0 && at.slice == 0 ==> sameLane)
    ensures 1 <= |Window(p, at, sameLane)| < Bits.TWO32
  {
    AreaSizeIsWindowSize(p, at, sameLane);
  }

  /** Where the two selecting values come from: in the first half of the first pass from the address blocks, in turn. */
  lemma SelectorInNumbers(p: Params, gb: Mixer<Word>, at: Position, previous: Block, counter: nat, n: nat)
    requires counter >= 1 && n < 128 && at.offset == 128 * (counter - 1) + n
    ensures var b := KernelBlocks(gb);
            var s := SelectorOf(b, p, at, previous);
            s.j1 + Bits.TWO32 * s.j2
              == if at.pass == 0 && at.slice < 2 then b.AddressBlock(p, at.lane, at.slice, counter)[n] else previous[0]
  {
    hide KernelBlocks;
    assert at.offset / QWORDS_IN_BLOCK == counter - 1 && at.offset % QWORDS_IN_BLOCK == n;
    HalvesOfWord(gb, previous, 0);
    HalvesOfWord(gb, KernelBlocks(gb).AddressBlock(p, at.lane, at.slice, counter), n);
  }

  /** Number k below 7 as a thread. */
  function SmallThread(k: nat): Thread {
    if k == 0 then 0 else if k == 1 then 1 else if k == 2 then 2 else if k == 3 then 3
    else if k == 4 then 4 else if k == 5 then 5 else 6
  }

  lemma SmallIndex(k: nat)
    requires k < 7
    ensures IndexOf(k) == SmallThread(k)
  {
    assert Number(0) == 0 && Number(1) == 1 && Number(2) == 2 && Number(3) == 3;
    assert Number(k) == SmallThread(k);
  }

  lemma InputOfSmallThread(input: seq<nat>, k: nat)
    requires |input| == 7 && k < 7 && input[k] < Bits.TWO32
    ensures InputOfThread(input, SmallThread(k)) == input[k]
  {
  }

  lemma InputOfOtherThread(input: seq<nat>, t: Thread)
    requires forall k: nat | k < 7 :: t != SmallThread(k)
    ensures InputOfThread(input, t) == 0
  {
    assert t != SmallThread(0) && t != SmallThread(1) && t != SmallThread(2) && t != SmallThread(3)
      && t != SmallThread(4) && t != SmallThread(5) && t != SmallThread(6);
  }

  /** The inputs of the threads are the first words of the block, and the others are zero. */
  lemma InputWord(gb: Mixer<Word>, input: seq<nat>, n: nat)
    requires |input| == 7 && n < 128 && (n < 7 ==> input[n] < Bits.TWO32)
    ensures KernelBlocks(gb).input(input)[n] == if n < 7 then input[n] else 0
  {
    hide IndexOf, InputOfThread, SmallThread;
    PackedInput(gb, input, n);
    if n < 7 {
      SmallIndex(n);
      InputOfSmallThread(input, n);
    } else {
      forall k: nat | k < 7 ensures IndexOf(n) != SmallThread(k) {
        PlaceOfIndex(n);
        PlaceOfIndex(k);
        SmallIndex(k);
      }
      InputOfOtherThread(input, IndexOf(n));
    }
  }

  lemma PackedInput(gb: Mixer<Word>, input: seq<nat>, n: nat)
    requires n < 128
    ensures KernelBlocks(gb).input(input)[n] == InputOfThread(input, IndexOf(n))
  {
    hide InputOfThread, IndexOf;
  }

  /** The input block of section 3.4.1.2 of RFC 9106, version 0x13, type ID, in the first pass. */
  lemma AddressInputWords(gb: Mixer<Word>, p: Params, lane: nat, slice: nat, counter: nat, n: nat)
    requires p.Valid() && lane < p.lanes && slice < 4 && counter < Bits.TWO32 && n < 128
    ensures KernelBlocks(gb).input(AddressInput(p, lane, slice, counter))[n]
         == if n == 1 then lane else if n == 2 then slice else if n == 3 then p.lanes * (4 * p.segmentBlocks)
            else if n == 4 then p.passes else if n == 5 then 2 else if n == 6 then counter else 0
  {
    hide IndexOf;
    InputWord(gb, AddressInput(p, lane, slice, counter), n);
  }

  // ------------------------------------------------------------ what the threads do

  ghost predicate OnWords(lane: LaneOfThreads) { lane.xor == XorWord }

  lemma XorIsAbelian()
    ensures Abelian(XorWord)
    ensures forall x: Word :: XorWord(x, 0) == x
  {
    forall x: Word, y: Word ensures XorWord(x, y) == XorWord(y, x) { XorWordLaws(x, y, 0); }
    forall x: Word, y: Word, z: Word ensures XorWord(XorWord(x, y), z) == XorWord(x, XorWord(y, z)) {
      XorWordLaws(x, y, z);
    }
    forall x: Word ensures XorWord(x, 0) == x { XorWordLaws(x, 0, 0); }
  }

  /** The threads hold a block. */
  ghost predicate HoldsBlock(s: ThreadRegisters, b: Block) { Holds(s, Words(b)) }

  /** A block that the threads hold is the one with the words that they hold. */
  lemma HeldBlock(s: ThreadRegisters, f: Index -> Word, b: Block)
    requires Holds(s, f) && forall i: Index | i < 128 :: Words(b)(i) == f(i)
    ensures HoldsBlock(s, b)
  {
    forall t: Thread | t < 32 ensures s(t) == Distribute(Words(b))(t) { }
  }

  /** next_addresses, on the inputs of the threads: the block of section 3.4.1.2 of RFC 9106. */
  method NextAddresses(lane: LaneOfThreads, input: seq<nat>)
    requires OnWords(lane)
    modifies lane
    ensures var b := KernelBlocks(lane.gb);
            HoldsBlock(lane.regs, b.Compress(b.zero, b.Compress(b.zero, b.input(input))))
  {
    XorIsAbelian();
    ghost var b := KernelBlocks(lane.gb);
    ghost var start := b.input(input);
    InputIsDistributed(lane.gb, input);
    lane.NextAddresses(0, ThreadInput(input), Words(start));
    ghost var once := Xored(XorWord, Permute(lane.gb, Words(start)), Words(start));
    AddressWords(lane.gb, start, once);
    HeldBlock(lane.regs, Xored(XorWord, Permute(lane.gb, once), once), b.Compress(b.zero, b.Compress(b.zero, start)));
  }

  lemma InputIsDistributed(gb: Mixer<Word>, input: seq<nat>)
    ensures forall t: Thread | t < 32 ::
      Distribute(Words(KernelBlocks(gb).input(input)))(t) == Quad(ThreadInput(input)(t), 0, 0, 0)
  {
    var start := KernelBlocks(gb).input(input);
    forall t: Thread | t < 32 ensures Distribute(Words(start))(t) == Quad(ThreadInput(input)(t), 0, 0, 0) {
      OtherRegisters(t);
      NoInput(input, 32 + t);
      NoInput(input, 64 + t);
      NoInput(input, 96 + t);
    }
  }

  lemma OtherRegisters(t: Thread)
    requires t < 32
    ensures 7 <= 32 + t < 128 && 7 <= 64 + t < 128 && 7 <= 96 + t < 128
  {
  }

  lemma NoInput(input: seq<nat>, t: Thread)
    requires 7 <= t
    ensures InputOfThread(input, t) == 0
  {
  }

  /** Compressing with the zero block twice, word by word. */
  lemma AddressWords(gb: Mixer<Word>, start: Block, once: Index -> Word)
    requires forall i: Index | i < 128 :: once(i) == XorWord(Permute(gb, Words(start))(i), Words(start)(i))
    ensures var b := KernelBlocks(gb);
            forall i: Index | i < 128 :: Words(b.Compress(b.zero, b.Compress(b.zero, start)))(i)
                                      == XorWord(Permute(gb, once)(i), once(i))
  {
    var b := KernelBlocks(gb);
    var first := b.Compress(b.zero, start);
    CompressedWithZero(gb, start);
    CompressedWithZero(gb, first);
    PermuteSame(gb, Words(first), once);
  }

  lemma CompressedWithZero(gb: Mixer<Word>, y: Block)
    ensures var b := KernelBlocks(gb);
            forall i: Index | i < 128 ::
              Words(b.Compress(b.zero, y))(i) == XorWord(Permute(gb, Words(y))(i), Words(y)(i))
  {
    var b := KernelBlocks(gb);
    KernelBlocksObeyLaws(gb);
    assert XorLaws(b, y, y, y);
    assert b.Compress(b.zero, y) == b.xor(y, b.permute(y));
    forall i: Index | i < 128
      ensures Words(b.Compress(b.zero, y))(i) == XorWord(Permute(gb, Words(y))(i), Words(y)(i))
    {
      XorWordLaws(Words(y)(i), Permute(gb, Words(y))(i), 0);
    }
  }

  lemma WordOfBlock(gb: Mixer<Word>, block: Block, n: nat, i: Index)
    requires i == IndexOf(n)
    ensures KernelBlocks(gb).word(block, n) == HalvesOf(Words(block)(i))
  {
  }

  /** The register and the thread that hold word n. */
  method ThreadOfWord(n: nat) returns (idx: bv8, thr: Thread)
    requires n < 128
    ensures idx < 4 && thr < 32 && 32 * idx + thr == IndexOf(n)
  {
    SmallNumbers(n);
    idx, thr := Number(n / 32), Number(n % 32);
  }

  /** block_th_get and u64_shuffle: every thread learns word n of the block that the threads hold. */
  method SelectorOfWord(lane: LaneOfThreads, n: nat, ghost block: Block) returns (s: Selector)
    requires HoldsBlock(lane.regs, block) && n < 128
    modifies lane`scratch
    ensures s == KernelBlocks(lane.gb).word(block, n) && s.j1 + Bits.TWO32 * s.j2 == block[n]
  {
    HalvesOfWord(lane.gb, block, n);
    var idx, thr := ThreadOfWord(n);
    ghost var regs := lane.regs;
    var v := lane.Broadcast(idx, thr);
    RegisterWord(regs, Words(block), idx, thr);
    WordOfBlock(lane.gb, block, n, 32 * idx + thr);
    s := HalvesOf(v(0));
  }

  lemma RegisterWord(regs: ThreadRegisters, f: Index -> Word, idx: bv8, thr: Thread)
    requires Holds(regs, f) && idx < 4 && thr < 32
    ensures regs(thr).Get(idx) == f(32 * idx + thr)
  {
    assert regs(thr) == Distribute(f)(thr);
    if idx == 0 { } else if idx == 1 { } else if idx == 2 { } else { assert idx == 3; }
  }

  /** argon2_core on the words of the threads: the new block of section 3.2 of RFC 9106. */
  method Argon2Core(lane: LaneOfThreads, ghost previous: Block, reference: Block, current: Block, pass: nat)
    returns (stored: Block)
    requires OnWords(lane) && HoldsBlock(lane.regs, previous)
    modifies lane
    ensures stored == KernelBlocks(lane.gb).NewBlock(previous, reference, current, pass)
    ensures HoldsBlock(lane.regs, stored)
  {
    XorIsAbelian();
    var words := lane.Argon2Core(Words(previous), Words(reference), Words(current), pass);
    stored := Packed(words);
    HeldBlock(lane.regs, words, stored);
    NewBlockWords(lane.gb, previous, reference, current, pass);
    SameBlock(stored, KernelBlocks(lane.gb).NewBlock(previous, reference, current, pass));
  }

  lemma NewBlockWords(gb: Mixer<Word>, previous: Block, reference: Block, current: Block, pass: nat)
    ensures forall i: Index | i < 128 ::
      Words(KernelBlocks(gb).NewBlock(previous, reference, current, pass))(i)
      == NewWord(gb, XorWord, Words(previous), Words(reference), Words(current), pass, i)
  {
    var b := KernelBlocks(gb);
    var r := b.xor(previous, reference);
    PermuteSame(gb, Words(r), Xored(XorWord, Words(previous), Words(reference)));
    forall i: Index | i < 128
      ensures Words(b.NewBlock(previous, reference, current, pass))(i)
           == NewWord(gb, XorWord, Words(previous), Words(reference), Words(current), pass, i)
    {
      XorWordLaws(Words(b.Compress(previous, reference))(i), Words(current)(i), 0);
    }
  }

  /** A thread of argon2_precompute_kernel finds its words of the address block in its own registers. */
  method OwnWord(lane: LaneOfThreads, n: nat, ghost block: Block) returns (s: Selector)
    requires HoldsBlock(lane.regs, block) && n < 128
    ensures s == KernelBlocks(lane.gb).word(block, n) && s.j1 + Bits.TWO32 * s.j2 == block[n]
  {
    HalvesOfWord(lane.gb, block, n);
    var idx, thr := ThreadOfWord(n);
    RegisterWord(lane.regs, Words(block), idx, thr);
    WordOfBlock(lane.gb, block, n, 32 * idx + thr);
    s := HalvesOf(lane.regs(thr).Get(idx));
  }

  method LoadBlock(lane: LaneOfThreads, block: Block)
    modifies lane`regs
    ensures HoldsBlock(lane.regs, block)
  {
    lane.LoadBlock(Words(block));
  }
}
