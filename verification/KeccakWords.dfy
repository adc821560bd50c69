/**
 KECCAK-f[1600] on numbers below 2^64: what the assembly leaves on the CPU and what the in-place walk leaves in
 the kernel is one function of 25 words, and with it and the initial states of the source the stages of module
 JobPreparation are no longer about an arbitrary permutation.
 */
module KeccakWords {
  import opened LittleEndian
  import Bits
  import BitStrings
  import JobPreparation
  import Keccak
  import KeccakAssembly
  import RoundConstants
  import ThreadBlocks

  function BitsOfWord(w: nat): Keccak.Bits { BitStrings.BitsOf(w, 64) }

  function WordOfBits(b: Keccak.Bits): Word {
    Bits.Pow2Of64();
    BitStrings.ValueOf(b)
  }

  lemma WordOfItsBits(x: Word)
    ensures WordOfBits(BitsOfWord(x)) == x
  {
    Bits.Pow2Of64();
    BitStrings.ValueOfBits(x, 64);
  }

  /**
   On numbers the operations of the permutation are exclusive or, and, or, the complement and rotation to the left.
   */
  lemma OperationsOfWords(x: Word, y: Word, n: nat)
    requires n < 64
    ensures var w := Keccak.Words64();
            && WordOfBits(w.rotl(BitsOfWord(x), n)) == x * Bits.Pow2(n) % Bits.U64 + x / Bits.Pow2(64 - n)
            && WordOfBits(w.xor(BitsOfWord(x), BitsOfWord(y))) == ThreadBlocks.XorWord(x, y)
            && WordOfBits(w.and(BitsOfWord(x), BitsOfWord(y))) == Bits.And(x, y)
            && WordOfBits(w.or(BitsOfWord(x), BitsOfWord(y))) == Bits.Or(x, y)
            && WordOfBits(w.not(BitsOfWord(x))) == Bits.U64 - 1 - x
  {
    hide BitsOfWord, Bits.Pow2, Bits.Zip;
    WordOfItsBits(x);
    WordOfItsBits(y);
    Keccak.RotateLeftValue(BitsOfWord(x), n);
    Keccak.OperationsOnNumbers(BitsOfWord(x), BitsOfWord(y));
  }

  function RoundConstantBits(): (r: seq<Keccak.Bits>)
    ensures |r| == 24
  {
    seq(24, i requires 0 <= i < 24 => BitsOfWord(RoundConstants.RNDC[i]))
  }

  /** They are those of section 3.2.5, from the first round on. */
  lemma RoundConstantOfRound(round: nat)
    requires round < 24
    ensures WordOfBits(RoundConstantBits()[round]) == RoundConstants.Constant(RoundConstants.Register(round))
  {
    hide RoundConstants.Constant, RoundConstants.Register, BitsOfWord, WordOfBits;
    RoundConstants.TableIsStandard(round);
    RoundConstants.TableFits(round);
    WordOfItsBits(RoundConstants.RNDC[round]);
  }

  /** Word x + 5y is the lane in column x and row y. */
  function StateOf(words: seq<Word>): Keccak.State<Keccak.Bits>
    requires |words| == 25
  {
    (x: nat, y: nat) => BitsOfWord(if x < 5 && y < 5 then words[x + 5 * y] else 0)
  }

  function WordsOf(s: Keccak.State<Keccak.Bits>): (r: seq<Word>)
    ensures |r| == 25
  {
    seq<Word>(25, k requires 0 <= k < 25 => WordOfBits(s(k % 5, k / 5)))
  }

  /** The 24 rounds of section 3.2 of FIPS 202 with its offsets and round constants. */
  function Permuted(words: seq<Word>): (r: seq<Word>)
    ensures |r| == |words|
  {
    if |words| != 25 then words
    else WordsOf(Keccak.Rounds(Keccak.Words64(), Keccak.Offset, RoundConstantBits(), StateOf(words), 24))
  }

  /** keccak_f1600_state of the kernel. */
  method PermuteInPlace(words: seq<Word>) returns (r: seq<Word>)
    requires |words| == 25
    ensures r == Permuted(words)
  {
    hide Keccak.Words64, Keccak.Rounds, Keccak.Laws, BitsOfWord, StateOf, Keccak.Holds, WordsOf;
    Keccak.Words64Laws();
    var st := Grid(words);
    Keccak.F1600InPlace(Keccak.Words64(), st, RoundConstantBits(), StateOf(words));
    r := Ungrid(st, Keccak.Rounds(Keccak.Words64(), Keccak.Offset, RoundConstantBits(), StateOf(words), 24));
  }

  method Grid(words: seq<Word>) returns (st: array2<Keccak.Bits>)
    requires |words| == 25
    ensures fresh(st) && Keccak.Holds(st, StateOf(words))
  {
    hide BitsOfWord;
    st := new Keccak.Bits[5, 5]((x: nat, y: nat) requires x < 5 && y < 5 => BitsOfWord(words[x + 5 * y]));
  }

  method Ungrid(st: array2<Keccak.Bits>, ghost s: Keccak.State<Keccak.Bits>) returns (r: seq<Word>)
    requires Keccak.Holds(st, s)
    ensures r == WordsOf(s)
  {
    hide WordOfBits;
    r := [];
    for k: nat := 0 to 25
      invariant |r| == k && forall i: nat | i < k :: r[i] == WordOfBits(s(i % 5, i / 5))
    {
      r := r + [WordOfBits(st[k % 5, k / 5])];
    }
  }

  /** KeccakF1600 of the assembly. */
  method PermuteByAssembly(words: seq<Word>) returns (r: seq<Word>)
    requires |words| == 25
    ensures r == Permuted(words)
  {
    hide Keccak.Words64, Keccak.Rounds, Keccak.Laws, BitsOfWord, StateOf, KeccakAssembly.HoldsFlat, WordsOf;
    Keccak.Words64Laws();
    var st := Flat(words);
    KeccakAssembly.KeccakF1600(Keccak.Words64(), st, RoundConstantBits(), StateOf(words));
    r := Unflat(st, Keccak.Rounds(Keccak.Words64(), Keccak.Offset, RoundConstantBits(), StateOf(words), 24));
  }

  method Flat(words: seq<Word>) returns (st: array<Keccak.Bits>)
    requires |words| == 25
    ensures fresh(st) && KeccakAssembly.HoldsFlat(st, StateOf(words))
  {
    hide BitsOfWord, KeccakAssembly.HoldsFlat;
    st := new Keccak.Bits[25](k requires 0 <= k < 25 => BitsOfWord(words[k]));
    LanesInRows(st, StateOf(words));
  }

  lemma LanesInRows(st: array<Keccak.Bits>, s: Keccak.State<Keccak.Bits>)
    requires st.Length == 25 && forall x: nat, y: nat | x < 5 && y < 5 :: st[x + 5 * y] == s(x, y)
    ensures KeccakAssembly.HoldsFlat(st, s)
  {
  }

  method Unflat(st: array<Keccak.Bits>, ghost s: Keccak.State<Keccak.Bits>) returns (r: seq<Word>)
    requires KeccakAssembly.HoldsFlat(st, s)
    ensures r == WordsOf(s)
  {
    hide WordOfBits;
    r := [];
    for k: nat := 0 to 25
      invariant |r| == k && forall i: nat | i < k :: r[i] == WordOfBits(s(i % 5, i / 5))
    {
      FlatLane(st, s, k);
      r := r + [WordOfBits(st[k])];
    }
  }

  lemma FlatLane(st: array<Keccak.Bits>, s: Keccak.State<Keccak.Bits>, k: nat)
    requires KeccakAssembly.HoldsFlat(st, s) && k < 25
    ensures st[k] == s(k % 5, k / 5)
  {
  }

  /** The state of the first stage before the header: the domain and the padding are in it. */
  const POW_INITIAL_STATE: seq<Word> :=
    [
     1242148031264380989, 3008272977830772284, 2188519011337848018, 1992179434288343456,
     8876506674959887717, 5399642050693751366, 1745875063082670864, 8605242046444978844,
     17936695144567157056, 3343109343542796272, 1123092876221303306, 4963925045340115282,
     17037383077651887893, 16629644495023626889, 12833675776649114147, 3784524041015224902,
     1082795874807940378, 13952716920571277634, 13411128033953605860, 15060696040649351053,
     9928834659948351306, 5237849264682708699, 12825353012139217522, 6706187291358897596,
     196324915476054915
    ]

  /** The same for the heavy hash. */
  const HEAVY_INITIAL_STATE: seq<Word> :=
    [
     4239941492252378377, 8746723911537738262, 8796936657246353646, 1272090201925444760,
     16654558671554924250, 8270816933120786537, 13907396207649043898, 6782861118970774626,
     9239690602118867528, 11582319943599406348, 17596056728278508070, 15212962468105129023,
     7812475424661425213, 3370482334374859748, 5690099369266491460, 8596393687355028144,
     570094237299545110, 9119540418498120711, 16901969272480492857, 13372017233735502424,
     14372891883993151831, 5171152063242093102, 10573107899694386186, 6096431547456407061,
     1592359455985097269
    ]

  /** The two tables of the kernel. */
  const POW_INITIAL_STATE_GPU: seq<Word> :=
    [
     1242148031264380989, 3008272977830772284, 2188519011337848018, 1992179434288343456,
     8876506674959887717, 5399642050693751366, 1745875063082670864, 8605242046444978844,
     17936695144567157056, 3343109343542796272, 1123092876221303306, 4963925045340115282,
     17037383077651887893, 16629644495023626889, 12833675776649114147, 3784524041015224902,
     1082795874807940378, 13952716920571277634, 13411128033953605860, 15060696040649351053,
     9928834659948351306, 5237849264682708699, 12825353012139217522, 6706187291358897596,
     196324915476054915
    ]

  const HEAVY_INITIAL_STATE_GPU: seq<Word> :=
    [
     4239941492252378377, 8746723911537738262, 8796936657246353646, 1272090201925444760,
     16654558671554924250, 8270816933120786537, 13907396207649043898, 6782861118970774626,
     9239690602118867528, 11582319943599406348, 17596056728278508070, 15212962468105129023,
     7812475424661425213, 3370482334374859748, 5690099369266491460, 8596393687355028144,
     570094237299545110, 9119540418498120711, 16901969272480492857, 13372017233735502424,
     14372891883993151831, 5171152063242093102, 10573107899694386186, 6096431547456407061,
     1592359455985097269
    ]

  /** The tables of the kernel are those of the CPU. */
  lemma TablesAgree()
    ensures POW_INITIAL_STATE_GPU == POW_INITIAL_STATE && HEAVY_INITIAL_STATE_GPU == HEAVY_INITIAL_STATE
    ensures |POW_INITIAL_STATE| == |HEAVY_INITIAL_STATE| == 25
  {
  }

  function XorByte(a: Byte, b: Byte): Byte {
    assert Bits.Pow2(8) == 256;
    Bits.ZipBound((p: bool, q: bool) => p != q, a, b, 8);
    Bits.Xor(a, b)
  }

  /** What the stages are made of, with some memory-hard hash. */
  function Instance(argon: (seq<Byte>, seq<Byte>) -> JobPreparation.Hash): JobPreparation.Primitives {
    JobPreparation.Primitives(Permuted, ThreadBlocks.XorWord, XorByte, POW_INITIAL_STATE, HEAVY_INITIAL_STATE, argon)
  }

  /** It is what the theorems of JobPreparation ask for. */
  lemma InstanceIsWellFormed(argon: (seq<Byte>, seq<Byte>) -> JobPreparation.Hash)
    ensures JobPreparation.WellFormed(Instance(argon))
  {
    forall w: Word ensures ThreadBlocks.XorWord(w, 0) == w { ThreadBlocks.XorWordLaws(w, 0, 0); }
  }

  /**
   Which words go where: the first stage permutes the first initial state with header hash, timestamp and nonce mixed
   into words 0 to 4 and 9, and the heavy hash the second one with its input mixed into words 0 to 3.  Words 10 and 4
   hold the padding behind 80 and 32 bytes, 0x04, and words 16 the last bit of the block of 136 bytes; the numbers
   without them are those in the comments of the source.
   */
  lemma StagesOfInstance(argon: (seq<Byte>, seq<Byte>) -> JobPreparation.Hash, header: JobPreparation.Header,
                         nonce: Word, h: JobPreparation.Hash)
    returns (first: seq<Word>, heavy: seq<Word>)
    ensures JobPreparation.WellFormed(Instance(argon)) && |first| == |heavy| == 25
    ensures JobPreparation.Stage1(Instance(argon), header, nonce) == Permuted(first)[..4]
    ensures JobPreparation.Heavy(Instance(argon), h) == Permuted(heavy)[..4]
    ensures first[0] == ThreadBlocks.XorWord(1242148031264380989, header.prePow[0])
    ensures first[3] == ThreadBlocks.XorWord(1992179434288343456, header.prePow[3])
    ensures first[4] == ThreadBlocks.XorWord(8876506674959887717, header.timestamp)
    ensures first[9] == ThreadBlocks.XorWord(3343109343542796272, nonce)
    ensures first[10] == 1123092876221303310 - 0x04 && first[16] == 10306167911662716186 - 0x8000_0000_0000_0000
    ensures first[24] == 196324915476054915
    ensures heavy[0] == ThreadBlocks.XorWord(4239941492252378377, h[0])
    ensures heavy[3] == ThreadBlocks.XorWord(1272090201925444760, h[3])
    ensures heavy[4] == 16654558671554924254 - 0x04 && heavy[16] == 9793466274154320918 - 0x8000_0000_0000_0000
    ensures heavy[24] == 1592359455985097269
  {
    hide ThreadBlocks.XorWord, Permuted, JobPreparation.Stage1, JobPreparation.Heavy;
    InstanceIsWellFormed(argon);
    first := JobPreparation.StateOfStage1(Instance(argon), header, nonce);
    heavy := JobPreparation.StateOfHeavy(Instance(argon), h);
  }
}
