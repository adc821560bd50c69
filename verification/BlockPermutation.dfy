/**
 The block permutation of the Argon2 kernel (src/argon2_kernel.cl), spread over the 32 threads of
 one lane, and the row-then-column permutation P of section 3.6 of RFC 9106 that it must compute.

 Words are an arbitrary type W, and the four-word operation GB and the exclusive or of words are
 arbitrary functions.  Threads and words of a block are numbered by bv8, as the kernel computes
 them with masks and shifts: a thread is below 32 and a word below 128.
 */
module BlockPermutation {

  type Thread = bv8
  type Index = bv8

  /** The four words of a block that one thread holds in registers (struct block_th). */
  datatype Quad<W> = Quad(a: W, b: W, c: W, d: W) {
    function Get(idx: bv8): W { if idx == 0 then a else if idx == 1 then b else if idx == 2 then c else d }

    function Set(idx: bv8, v: W): Quad<W> {
      if idx == 0 then this.(a := v) else if idx == 1 then this.(b := v) else if idx == 2 then this.(c := v)
        else this.(d := v)
    }
  }

  type Mixer<!W> = Quad<W> -> Quad<W>

  // ------------------------------------------------------------ RFC 9106, section 3.6

  /** One GB on words i, j, k and l of a vector. */
  function Mix<W>(gb: Mixer<W>, v: Index -> W, i: Index, j: Index, k: Index, l: Index): Index -> W {
    var q := gb(Quad(v(i), v(j), v(k), v(l)));
    x => if x == i then q.a else if x == j then q.b else if x == k then q.c else if x == l then q.d else v(x)
  }

  function MixColumns<W>(gb: Mixer<W>, v: Index -> W): Index -> W {
    Mix(gb, Mix(gb, Mix(gb, Mix(gb, v, 0, 4, 8, 12), 1, 5, 9, 13), 2, 6, 10, 14), 3, 7, 11, 15)
  }

  function MixDiagonals<W>(gb: Mixer<W>, v: Index -> W): Index -> W {
    Mix(gb, Mix(gb, Mix(gb, Mix(gb, v, 0, 5, 10, 15), 1, 6, 11, 12), 2, 7, 8, 13), 3, 4, 9, 14)
  }

  /** The permutation P of sixteen words: GB on the columns, then on the diagonals, of a 4x4 matrix. */
  function P<W>(gb: Mixer<W>, v: Index -> W): Index -> W { MixDiagonals(gb, MixColumns(gb, v)) }

  /** Word k of row r of a block. */
  function RowWord(r: Index, k: Index): Index { 16 * r + k }

  /** Word k of column c of a block, an 8x8 matrix of pairs of words. */
  function ColumnWord(c: Index, k: Index): Index { 16 * (k / 2) + 2 * c + k % 2 }

  function Row<W>(block: Index -> W, r: Index): Index -> W { k => block(RowWord(r, k)) }

  function Column<W>(block: Index -> W, c: Index): Index -> W { k => block(ColumnWord(c, k)) }

  function PermuteRows<W>(gb: Mixer<W>, block: Index -> W): Index -> W {
    w => P(gb, Row(block, w / 16))(w % 16)
  }

  function PermuteColumns<W>(gb: Mixer<W>, block: Index -> W): Index -> W {
    w => P(gb, Column(block, w % 16 / 2))(w / 16 * 2 + w % 2)
  }

  /** P on every row and then on every column of a block. */
  function Permute<W>(gb: Mixer<W>, block: Index -> W): Index -> W { PermuteColumns(gb, PermuteRows(gb, block)) }

  /** GB on column m of a 4x4 matrix. */
  function MixedColumn<W>(gb: Mixer<W>, v: Index -> W, m: Index): Quad<W> {
    gb(Quad(v(m), v(4 + m), v(8 + m), v(12 + m)))
  }

  /** GB on the diagonal that starts in column l, after GB on every column. */
  function MixedDiagonal<W>(gb: Mixer<W>, v: Index -> W, l: Index): Quad<W> {
    gb(Quad(MixedColumn(gb, v, l).a, MixedColumn(gb, v, (l + 1) % 4).b,
            MixedColumn(gb, v, (l + 2) % 4).c, MixedColumn(gb, v, (l + 3) % 4).d))
  }

  lemma MixColumnsWords<W>(gb: Mixer<W>, v: Index -> W, m: Index)
    requires m < 4
    ensures var r := MixColumns(gb, v); Quad(r(m), r(4 + m), r(8 + m), r(12 + m)) == MixedColumn(gb, v, m)
  {
  }

  lemma MixDiagonalsWords<W>(gb: Mixer<W>, v: Index -> W, l: Index)
    requires l < 4
    ensures var r := MixDiagonals(gb, v);
            Quad(r(l), r(4 + (l + 1) % 4), r(8 + (l + 2) % 4), r(12 + (l + 3) % 4))
            == gb(Quad(v(l), v(4 + (l + 1) % 4), v(8 + (l + 2) % 4), v(12 + (l + 3) % 4)))
  {
  }

  /** Word 4i+j of P is word i of the diagonal that starts in column j-i modulo 4. */
  lemma PWords<W>(gb: Mixer<W>, v: Index -> W, j: Index)
    requires j < 4
    ensures P(gb, v)(j) == MixedDiagonal(gb, v, j).a
    ensures P(gb, v)(4 + j) == MixedDiagonal(gb, v, (j + 3) % 4).b
    ensures P(gb, v)(8 + j) == MixedDiagonal(gb, v, (j + 2) % 4).c
    ensures P(gb, v)(12 + j) == MixedDiagonal(gb, v, (j + 1) % 4).d
  {
    MixColumnsWords(gb, v, 0); MixColumnsWords(gb, v, 1); MixColumnsWords(gb, v, 2); MixColumnsWords(gb, v, 3);
    var u := MixColumns(gb, v);
    MixDiagonalsWords(gb, u, 0); MixDiagonalsWords(gb, u, 1); MixDiagonalsWords(gb, u, 2); MixDiagonalsWords(gb, u, 3);
  }

  // ------------------------------------------------------------ thread numbers

  function ApplyShuffleShift1(thread: Thread, idx: bv8): Thread { (thread & 0x1c) | ((thread + idx) & 0x3) }

  function ApplyShuffleUnshift1(thread: Thread, idx: bv8): Thread { ApplyShuffleShift1(thread, (4 - idx) % 4) }

  function ApplyShuffleShift2(thread: Thread, idx: bv8): Thread {
    var lo := (thread & 0x1) | ((thread & 0x10) >> 3);
    var lo' := (lo + idx) & 0x3;
    ((lo' & 0x2) << 3) | (thread & 0xe) | (lo' & 0x1)
  }

  function ApplyShuffleUnshift2(thread: Thread, idx: bv8): Thread { ApplyShuffleShift2(thread, (4 - idx) % 4) }

  function ThreadGroup(thread: Thread): bv8 { (thread & 0x0C) >> 2 }

  function TransposePartner(thread: Thread, i: bv8): Thread { (i << 2) ^ thread }

  function TransposeRegister(thread: Thread, i: bv8): bv8 { ThreadGroup(thread) ^ i }

  // ------------------------------------------------------------ the registers of a lane

  type Registers<!W> = Thread -> Quad<W>

  function Distribute<W>(block: Index -> W): Registers<W> {
    t => Quad(block(t), block(32 + t), block(64 + t), block(96 + t))
  }

  /** The 32 threads hold the block in the layout of load_block and store_block. */
  ghost predicate Holds<W>(s: Registers<W>, block: Index -> W) {
    forall t: Thread | t < 32 :: s(t) == Distribute(block)(t)
  }

  ghost predicate Same<W>(s: Registers<W>, s': Registers<W>) {
    forall t: Thread :: s(t) == s'(t)
  }

  function Mixed<W>(gb: Mixer<W>, s: Registers<W>): Registers<W> { t => gb(s(t)) }

  /** Register i of thread t is taken from register i of thread src(t, i). */
  function Gathered<W>(s: Registers<W>, src: (Thread, bv8) -> Thread): Registers<W> {
    t => Quad(s(src(t, 0)).a, s(src(t, 1)).b, s(src(t, 2)).c, s(src(t, 3)).d)
  }

  /** The registers after the first i steps of a gathering loop. */
  function GatheredBelow<W>(s: Registers<W>, src: (Thread, bv8) -> Thread, i: bv8): Registers<W> {
    t => Quad(s(if 0 < i then src(t, 0) else t).a, s(if 1 < i then src(t, 1) else t).b,
              s(if 2 < i then src(t, 2) else t).c, s(if 3 < i then src(t, 3) else t).d)
  }

  lemma GatheredNext<W>(s: Registers<W>, src: (Thread, bv8) -> Thread, i: bv8)
    requires i < 4
    ensures forall t: Thread :: GatheredBelow(s, src, i + 1)(t)
                             == GatheredBelow(s, src, i)(t).Set(i, GatheredBelow(s, src, i)(src(t, i)).Get(i))
  {
  }

  function Exchanged<W>(s: Registers<W>, idx: Thread -> bv8, src: Thread -> Thread): Registers<W> {
    t => s(t).Set(idx(t), s(src(t)).Get(idx(src(t))))
  }

  /** The thread that differs from `thread` only in its group. */
  function InGroup(thread: Thread, group: bv8): Thread { (thread & 0xF3) | (group << 2) }

  /** Register k of a thread of group g becomes register g of the thread of group k. */
  function Transposed<W>(s: Registers<W>): Registers<W> {
    t => var g := ThreadGroup(t);
         Quad(s(InGroup(t, 0)).Get(g), s(InGroup(t, 1)).Get(g), s(InGroup(t, 2)).Get(g), s(InGroup(t, 3)).Get(g))
  }

  /** Register k of thread t after the steps below i of the transposition. */
  function Slot<W>(s: Registers<W>, i: bv8, t: Thread, k: bv8): W {
    if ThreadGroup(t) ^ k < i then s(InGroup(t, k)).Get(ThreadGroup(t)) else s(t).Get(k)
  }

  function TransposedBelow<W>(s: Registers<W>, i: bv8): Registers<W> {
    t => Quad(Slot(s, i, t, 0), Slot(s, i, t, 1), Slot(s, i, t, 2), Slot(s, i, t, 3))
  }

  lemma SlotNext<W>(s: Registers<W>, i: bv8, t: Thread, k: bv8)
    requires 1 <= i < 4 && k < 4
    ensures Slot(s, i + 1, t, k)
         == if k == TransposeRegister(t, i) then Slot(s, i, TransposePartner(t, i), ThreadGroup(t))
            else Slot(s, i, t, k)
  {
    var g, u := ThreadGroup(t), TransposePartner(t, i);
    assert u == InGroup(t, g ^ i) && ThreadGroup(u) == g ^ i;
    assert (g ^ i) ^ g == i && g ^ (g ^ i) == i;
    assert k != g ^ i ==> (g ^ k < i <==> g ^ k < i + 1);
  }

  lemma TransposedNext<W>(s: Registers<W>, i: bv8, t: Thread)
    requires 1 <= i < 4
    ensures var idx, u := TransposeRegister(t, i), TransposePartner(t, i);
            TransposedBelow(s, i + 1)(t)
              == TransposedBelow(s, i)(t).Set(idx, TransposedBelow(s, i)(u).Get(TransposeRegister(u, i)))
  {
    SlotNext(s, i, t, 0); SlotNext(s, i, t, 1); SlotNext(s, i, t, 2); SlotNext(s, i, t, 3);
    TransposeRegisters(t, i);
  }

  lemma TransposeRegisters(t: Thread, i: bv8)
    requires 1 <= i < 4
    ensures ThreadGroup(t) < 4 && TransposeRegister(t, i) < 4
    ensures TransposeRegister(TransposePartner(t, i), i) == ThreadGroup(t)
  {
  }

  // Transposing is its own inverse, and shifts and unshifts undo each other.

  lemma GroupsSwap(t: Thread, k: bv8)
    requires t < 32 && k < 4
    ensures ThreadGroup(InGroup(t, k)) == k && InGroup(InGroup(t, k), ThreadGroup(t)) == t && ThreadGroup(t) < 4
  {
  }

  lemma TransposedAt<W>(s: Registers<W>, t: Thread, k: bv8)
    requires k < 4
    ensures Transposed(s)(t).Get(k) == s(InGroup(t, k)).Get(ThreadGroup(t))
  {
    if k == 0 { } else if k == 1 { } else if k == 2 { } else { assert k == 3; }
  }

  lemma TransposedTwice<W>(s: Registers<W>, t: Thread)
    requires t < 32
    ensures Transposed(Transposed(s))(t) == s(t)
  {
    forall k: bv8 | k < 4 ensures Transposed(Transposed(s))(t).Get(k) == s(t).Get(k) {
      TransposedAt(Transposed(s), t, k);
      GroupsSwap(t, k);
      TransposedAt(s, InGroup(t, k), ThreadGroup(t));
    }
    SameRegisters(Transposed(Transposed(s))(t), s(t));
  }

  lemma SameRegisters<W>(q: Quad<W>, q': Quad<W>)
    requires forall k: bv8 | k < 4 :: q.Get(k) == q'.Get(k)
    ensures q == q'
  {
    assert q.Get(0) == q'.Get(0) && q.Get(1) == q'.Get(1) && q.Get(2) == q'.Get(2) && q.Get(3) == q'.Get(3);
  }

  lemma ShiftsOfThread(t: Thread, i: bv8)
    requires t < 32 && i < 4
    ensures ApplyShuffleShift1(ApplyShuffleUnshift1(t, i), i) == t
    ensures ApplyShuffleUnshift1(ApplyShuffleShift1(t, i), i) == t
    ensures ApplyShuffleShift2(ApplyShuffleUnshift2(t, i), i) == t
    ensures ApplyShuffleUnshift2(ApplyShuffleShift2(t, i), i) == t
  {
  }

  lemma ShiftsUndone<W>(s: Registers<W>, t: Thread)
    requires t < 32
    ensures Gathered(Gathered(s, ApplyShuffleShift1), ApplyShuffleUnshift1)(t) == s(t)
    ensures Gathered(Gathered(s, ApplyShuffleUnshift1), ApplyShuffleShift1)(t) == s(t)
    ensures Gathered(Gathered(s, ApplyShuffleShift2), ApplyShuffleUnshift2)(t) == s(t)
    ensures Gathered(Gathered(s, ApplyShuffleUnshift2), ApplyShuffleShift2)(t) == s(t)
  {
    ShiftsOfThread(t, 0); ShiftsOfThread(t, 1); ShiftsOfThread(t, 2); ShiftsOfThread(t, 3);
  }

  // The rows: after the transposition, thread t holds column t % 4 of the matrix of row RowOf(t).

  function RowOf(t: Thread): Index { 2 * ThreadGroup(t) + t / 16 }

  lemma RowColumnAt<W>(gb: Mixer<W>, s: Registers<W>, block: Index -> W, t: Thread)
    requires t < 32 && Holds(s, block)
    ensures Mixed(gb, Transposed(s))(t) == MixedColumn(gb, Row(block, RowOf(t)), t % 4)
  {
    var r, l := RowOf(t), t % 4;
    var g := ThreadGroup(t);
    assert RowWord(r, l) == 32 * g + InGroup(t, 0);
    assert RowWord(r, 4 + l) == 32 * g + InGroup(t, 1);
    assert RowWord(r, 8 + l) == 32 * g + InGroup(t, 2);
    assert RowWord(r, 12 + l) == 32 * g + InGroup(t, 3);
  }

  lemma RowDiagonalAt<W>(gb: Mixer<W>, s: Registers<W>, block: Index -> W, t: Thread)
    requires t < 32 && Holds(s, block)
    ensures Mixed(gb, Gathered(Mixed(gb, Transposed(s)), ApplyShuffleShift1))(t)
         == MixedDiagonal(gb, Row(block, RowOf(t)), t % 4)
  {
    RowColumnAt(gb, s, block, ApplyShuffleShift1(t, 0));
    RowColumnAt(gb, s, block, ApplyShuffleShift1(t, 1));
    RowColumnAt(gb, s, block, ApplyShuffleShift1(t, 2));
    RowColumnAt(gb, s, block, ApplyShuffleShift1(t, 3));
  }

  // The columns: thread t holds column BankOf(t) of the matrix of block column ColumnOf(t).

  function ColumnOf(t: Thread): Index { t / 2 % 8 }

  function BankOf(t: Thread): Index { t / 16 * 2 + t % 2 }

  lemma ColumnColumnAt<W>(gb: Mixer<W>, s: Registers<W>, block: Index -> W, t: Thread)
    requires t < 32 && Holds(s, block)
    ensures Mixed(gb, s)(t) == MixedColumn(gb, Column(block, ColumnOf(t)), BankOf(t))
  {
    var c, m := ColumnOf(t), BankOf(t);
    assert ColumnWord(c, m) == t;
    assert ColumnWord(c, 4 + m) == 32 + t;
    assert ColumnWord(c, 8 + m) == 64 + t;
    assert ColumnWord(c, 12 + m) == 96 + t;
  }

  lemma ColumnDiagonalAt<W>(gb: Mixer<W>, s: Registers<W>, block: Index -> W, t: Thread)
    requires t < 32 && Holds(s, block)
    ensures Mixed(gb, Gathered(Mixed(gb, s), ApplyShuffleShift2))(t)
         == MixedDiagonal(gb, Column(block, ColumnOf(t)), BankOf(t))
  {
    ColumnColumnAt(gb, s, block, ApplyShuffleShift2(t, 0));
    ColumnColumnAt(gb, s, block, ApplyShuffleShift2(t, 1));
    ColumnColumnAt(gb, s, block, ApplyShuffleShift2(t, 2));
    ColumnColumnAt(gb, s, block, ApplyShuffleShift2(t, 3));
  }

  // The two halves of shuffle_block.

  lemma RowsAt<W>(gb: Mixer<W>, s: Registers<W>, block: Index -> W, t: Thread)
    requires t < 32 && Holds(s, block)
    ensures var d := Mixed(gb, Gathered(Mixed(gb, Transposed(s)), ApplyShuffleShift1));
            Gathered(d, ApplyShuffleUnshift1)(t)
            == var v := P(gb, Row(block, RowOf(t))); Quad(v(t % 4), v(4 + t % 4), v(8 + t % 4), v(12 + t % 4))
  {
    PWords(gb, Row(block, RowOf(t)), t % 4);
    RowDiagonalAt(gb, s, block, ApplyShuffleUnshift1(t, 0));
    RowDiagonalAt(gb, s, block, ApplyShuffleUnshift1(t, 1));
    RowDiagonalAt(gb, s, block, ApplyShuffleUnshift1(t, 2));
    RowDiagonalAt(gb, s, block, ApplyShuffleUnshift1(t, 3));
  }

  lemma RowPlace(t: Thread, k: bv8)
    requires t < 32 && k < 4
    ensures (32 * k + t) / 16 == RowOf(InGroup(t, k))
    ensures (32 * k + t) % 16 == 4 * ThreadGroup(t) + InGroup(t, k) % 4
  {
  }

  lemma PermuteRowsAt<W>(gb: Mixer<W>, block: Index -> W, t: Thread, k: bv8)
    requires t < 32 && k < 4
    ensures var u := InGroup(t, k);
            PermuteRows(gb, block)(32 * k + t) == P(gb, Row(block, RowOf(u)))(4 * ThreadGroup(t) + u % 4)
  {
    RowPlace(t, k);
  }

  lemma MatrixWord<W>(v: Index -> W, i: bv8, j: bv8)
    requires i < 4 && j < 4
    ensures Quad(v(j), v(4 + j), v(8 + j), v(12 + j)).Get(i) == v(4 * i + j)
  {
    if i == 0 { } else if i == 1 { } else if i == 2 { } else { assert i == 3; }
  }

  lemma RowHalfAt<W>(gb: Mixer<W>, s: Registers<W>, block: Index -> W, t: Thread, k: bv8)
    requires t < 32 && k < 4 && Holds(s, block)
    ensures var d := Mixed(gb, Gathered(Mixed(gb, Transposed(s)), ApplyShuffleShift1));
            Gathered(d, ApplyShuffleUnshift1)(InGroup(t, k)).Get(ThreadGroup(t)) == PermuteRows(gb, block)(32 * k + t)
  {
    var u := InGroup(t, k);
    RowsAt(gb, s, block, u);
    PermuteRowsAt(gb, block, t, k);
    MatrixWord(P(gb, Row(block, RowOf(u))), ThreadGroup(t), u % 4);
  }

  /** transpose, g, shift1, g, unshift1, transpose: P on every row. */
  lemma RowHalf<W>(gb: Mixer<W>, s: Registers<W>, block: Index -> W)
    requires Holds(s, block)
    ensures Holds(Transposed(Gathered(Mixed(gb, Gathered(Mixed(gb, Transposed(s)), ApplyShuffleShift1)),
                                      ApplyShuffleUnshift1)),
                  PermuteRows(gb, block))
  {
    forall t: Thread | t < 32
      ensures Transposed(Gathered(Mixed(gb, Gathered(Mixed(gb, Transposed(s)), ApplyShuffleShift1)),
                                  ApplyShuffleUnshift1))(t)
           == Distribute(PermuteRows(gb, block))(t)
    {
      RowHalfAt(gb, s, block, t, 0); RowHalfAt(gb, s, block, t, 1);
      RowHalfAt(gb, s, block, t, 2); RowHalfAt(gb, s, block, t, 3);
    }
  }

  lemma ColumnPlace(t: Thread, k: bv8)
    requires t < 32 && k < 4
    ensures (32 * k + t) % 16 / 2 == ColumnOf(t)
    ensures (32 * k + t) / 16 * 2 + (32 * k + t) % 2 == 4 * k + BankOf(t)
  {
  }

  lemma PermuteColumnsAt<W>(gb: Mixer<W>, block: Index -> W, t: Thread, k: bv8)
    requires t < 32 && k < 4
    ensures PermuteColumns(gb, block)(32 * k + t) == P(gb, Column(block, ColumnOf(t)))(4 * k + BankOf(t))
  {
    ColumnPlace(t, k);
  }

  /** g, shift2, g, unshift2: P on every column. */
  lemma ColumnHalf<W>(gb: Mixer<W>, s: Registers<W>, block: Index -> W)
    requires Holds(s, block)
    ensures Holds(Gathered(Mixed(gb, Gathered(Mixed(gb, s), ApplyShuffleShift2)), ApplyShuffleUnshift2),
                  PermuteColumns(gb, block))
  {
    forall t: Thread | t < 32
      ensures Gathered(Mixed(gb, Gathered(Mixed(gb, s), ApplyShuffleShift2)), ApplyShuffleUnshift2)(t)
           == Distribute(PermuteColumns(gb, block))(t)
    {
      PWords(gb, Column(block, ColumnOf(t)), BankOf(t));
      ColumnDiagonalAt(gb, s, block, ApplyShuffleUnshift2(t, 0)); PermuteColumnsAt(gb, block, t, 0);
      ColumnDiagonalAt(gb, s, block, ApplyShuffleUnshift2(t, 1)); PermuteColumnsAt(gb, block, t, 1);
      ColumnDiagonalAt(gb, s, block, ApplyShuffleUnshift2(t, 2)); PermuteColumnsAt(gb, block, t, 2);
      ColumnDiagonalAt(gb, s, block, ApplyShuffleUnshift2(t, 3)); PermuteColumnsAt(gb, block, t, 3);
    }
  }

  lemma RowSteps<W>(gb: Mixer<W>, s0: Registers<W>, s1: Registers<W>, s2: Registers<W>, s3: Registers<W>,
                    s4: Registers<W>, s5: Registers<W>, s6: Registers<W>, block: Index -> W)
    requires Holds(s0, block)
    requires Same(s1, Transposed(s0)) && Same(s2, Mixed(gb, s1)) && Same(s3, Gathered(s2, ApplyShuffleShift1))
    requires Same(s4, Mixed(gb, s3)) && Same(s5, Gathered(s4, ApplyShuffleUnshift1)) && Same(s6, Transposed(s5))
    ensures Holds(s6, PermuteRows(gb, block))
  {
    var d := Gathered(Mixed(gb, Transposed(s0)), ApplyShuffleShift1);
    assert Same(s3, d);
    assert Same(s5, Gathered(Mixed(gb, d), ApplyShuffleUnshift1));
    RowHalf(gb, s0, block);
  }

  lemma ColumnSteps<W>(gb: Mixer<W>, s0: Registers<W>, s1: Registers<W>, s2: Registers<W>, s3: Registers<W>,
                       s4: Registers<W>, block: Index -> W)
    requires Holds(s0, block)
    requires Same(s1, Mixed(gb, s0)) && Same(s2, Gathered(s1, ApplyShuffleShift2))
    requires Same(s3, Mixed(gb, s2)) && Same(s4, Gathered(s3, ApplyShuffleUnshift2))
    ensures Holds(s4, PermuteColumns(gb, block))
  {
    var d := Gathered(Mixed(gb, s0), ApplyShuffleShift2);
    assert Same(s2, d);
    ColumnHalf(gb, s0, block);
  }

  // ------------------------------------------------------------ the kernel's code

  /**
   The 32 threads of a lane in lockstep.  One assignment to `regs` or to `scratch` is what all
   threads do between two barriers: every thread writes its own slot, or reads the scratch buffer.
   */
  class Lane<!W(!new)> {
    const gb: Mixer<W>
    const xor: (W, W) -> W
    var regs: Registers<W>
    var scratch: Thread -> W

    constructor (gb: Mixer<W>, xor: (W, W) -> W, regs: Registers<W>, scratch: Thread -> W)
      ensures this.gb == gb && this.xor == xor
    {
      this.gb, this.xor, this.regs, this.scratch := gb, xor, regs, scratch;
    }

    /** block_th_get, u64_shuffle, block_th_set */
    method Exchange(idx: Thread -> bv8, src: Thread -> Thread)
      modifies this
      ensures Same(regs, Exchanged(old(regs), idx, src))
    {
      var before := regs;
      scratch := t => before(t).Get(idx(t));
      // barrier
      var buffer := scratch;
      regs := t => before(t).Set(idx(t), buffer(src(t)));
      // barrier
    }

    /** shuffle_shift1, shuffle_unshift1, shuffle_shift2 and shuffle_unshift2, by their source thread */
    method Shuffle(src: (Thread, bv8) -> Thread)
      modifies this
      ensures Same(regs, Gathered(old(regs), src))
    {
      ghost var s := regs;
      var i: bv8 := 0;
      while i < 4
        invariant i <= 4
        invariant forall t: Thread :: regs(t) == GatheredBelow(s, src, i)(t)
        decreases 4 - i
      {
        Exchange(_ => i, t => src(t, i));
        GatheredNext(s, src, i);
        i := i + 1;
      }
    }

    method Transpose()
      modifies this
      ensures Same(regs, Transposed(old(regs)))
    {
      ghost var s := regs;
      var i: bv8 := 1;
      while i < 4
        invariant 1 <= i <= 4
        invariant forall t: Thread :: regs(t) == TransposedBelow(s, i)(t)
        decreases 4 - i
      {
        Exchange(t => TransposeRegister(t, i), t => TransposePartner(t, i));
        forall t: Thread ensures regs(t) == TransposedBelow(s, i + 1)(t) { TransposedNext(s, i, t); }
        i := i + 1;
      }
    }

    method G()
      modifies `regs
      ensures Same(regs, Mixed(gb, old(regs)))
    {
      var before := regs;
      regs := t => gb(before(t));
    }

    /** shuffle_block: if the threads hold a block, they end up holding its permutation. */
    method ShuffleBlock(ghost block: Index -> W)
      requires Holds(regs, block)
      modifies this
      ensures Holds(regs, Permute(gb, block))
    {
      ghost var s0 := regs;
      Transpose();
      ghost var s1 := regs;
      G();
      ghost var s2 := regs;
      Shuffle(ApplyShuffleShift1);
      ghost var s3 := regs;
      G();
      ghost var s4 := regs;
      Shuffle(ApplyShuffleUnshift1);
      ghost var s5 := regs;
      Transpose();
      RowSteps(gb, s0, s1, s2, s3, s4, s5, regs, block);

      s0 := regs;
      G();
      s1 := regs;
      Shuffle(ApplyShuffleShift2);
      s2 := regs;
      G();
      s3 := regs;
      Shuffle(ApplyShuffleUnshift2);
      ColumnSteps(gb, s0, s1, s2, s3, regs, PermuteRows(gb, block));
    }

    method LoadBlock(block: Index -> W)
      modifies `regs
      ensures Holds(regs, block)
    {
      regs := t => Quad(block(0 * 32 + t), block(1 * 32 + t), block(2 * 32 + t), block(3 * 32 + t));
    }

    /** load_block_xor and xor_block */
    method XorBlock(other: Registers<W>, ghost x: Index -> W, ghost y: Index -> W)
      requires Holds(regs, x) && Holds(other, y)
      modifies `regs
      ensures Holds(regs, Xored(xor, x, y))
    {
      var before, f := regs, xor;
      regs := t => Quad(f(before(t).a, other(t).a), f(before(t).b, other(t).b),
                        f(before(t).c, other(t).c), f(before(t).d, other(t).d));
    }

    method StoreBlock() returns (block: Index -> W)
      ensures Holds(regs, block)
    {
      var before := regs;
      block := w => before(w % 32).Get(w / 32);
      forall t: Thread | t < 32 ensures before(t) == Distribute(block)(t) { StorePlace(t); }
    }

    /** block_th_get and u64_shuffle: every thread gets a register of one thread. */
    method Broadcast(idx: bv8, src: Thread) returns (v: Thread -> W)
      modifies `scratch
      ensures forall t: Thread :: v(t) == regs(src).Get(idx)
    {
      var before := regs;
      scratch := t => before(t).Get(idx);
      // barrier
      var buffer := scratch;
      v := _ => buffer(src);
      // barrier
    }

    /**
     next_addresses: `start` is the block that begins with the inputs of the threads and is zero otherwise.
     It is permuted and added to itself twice.
     */
    method NextAddresses(zero: W, input: Thread -> W, ghost start: Index -> W)
      requires forall x :: xor(x, zero) == x
      requires forall t: Thread | t < 32 :: Distribute(start)(t) == Quad(input(t), zero, zero, zero)
      modifies this
      ensures var once := Xored(xor, Permute(gb, start), start); Holds(regs, Xored(xor, Permute(gb, once), once))
    {
      regs := t => Quad(input(t), zero, zero, zero);
      ShuffleBlock(start);
      var before, f := regs, xor;
      regs := t => before(t).(a := f(before(t).a, input(t)));
      ghost var once := Xored(xor, Permute(gb, start), start);
      assert Holds(regs, once);
      var tmp := regs;
      ShuffleBlock(once);
      XorBlock(tmp, Permute(gb, once), once);
    }

    /**
     argon2_core: `previous` is the block that the threads hold, `current` what the block to be
     written contains already.  Word by word, the stored block is the one of RFC 9106.
     */
    method Argon2Core(ghost previous: Index -> W, reference: Index -> W, current: Index -> W, pass: nat)
      returns (stored: Index -> W)
      requires Holds(regs, previous)
      requires Abelian(xor)
      modifies this
      ensures Holds(regs, stored)
      ensures forall w: Index | w < 128 :: stored(w) == NewWord(gb, xor, previous, reference, current, pass, w)
    {
      XorBlock(Distribute(reference), previous, reference);
      ghost var r := Xored(xor, previous, reference);
      ghost var mixin := r;
      var prev := regs;
      var tmp := prev;
      if pass != 0 {
        LoadBlock(current);
        XorBlock(prev, current, r);
        mixin := Xored(xor, current, r);
        tmp := regs;
      }
      regs := prev;
      ShuffleBlock(r);
      XorBlock(tmp, Permute(gb, r), mixin);
      stored := StoreBlock();
      HoldsUnique(regs, stored, Xored(xor, Permute(gb, r), mixin));
    }
  }

  /** The permutation depends on the 128 words of the block only. */
  lemma PermuteSame<W>(gb: Mixer<W>, x: Index -> W, y: Index -> W)
    requires forall w: Index | w < 128 :: x(w) == y(w)
    ensures forall w: Index | w < 128 :: Permute(gb, x)(w) == Permute(gb, y)(w)
  {
    RowHalf(gb, Distribute(x), x);
    RowHalf(gb, Distribute(x), y);
    var s := Transposed(Gathered(Mixed(gb, Gathered(Mixed(gb, Transposed(Distribute(x))), ApplyShuffleShift1)),
                                 ApplyShuffleUnshift1));
    ColumnHalf(gb, s, PermuteRows(gb, x));
    ColumnHalf(gb, s, PermuteRows(gb, y));
    HoldsUnique(Gathered(Mixed(gb, Gathered(Mixed(gb, s), ApplyShuffleShift2)), ApplyShuffleUnshift2),
                Permute(gb, x), Permute(gb, y));
  }

  lemma HoldsUnique<W>(s: Registers<W>, x: Index -> W, y: Index -> W)
    requires Holds(s, x) && Holds(s, y)
    ensures forall w: Index | w < 128 :: x(w) == y(w)
  {
    forall w: Index | w < 128 ensures x(w) == y(w) {
      WordPlace(w);
      assert s(w % 32) == Distribute(x)(w % 32) == Distribute(y)(w % 32);
    }
  }

  function Xored<W>(xor: (W, W) -> W, x: Index -> W, y: Index -> W): Index -> W { w => xor(x(w), y(w)) }

  ghost predicate Abelian<W(!new)>(xor: (W, W) -> W) {
    && (forall x, y :: xor(x, y) == xor(y, x))
    && (forall x, y, z :: xor(xor(x, y), z) == xor(x, xor(y, z)))
  }

  /** The compression function G of section 3.5 of RFC 9106. */
  function Compressed<W>(gb: Mixer<W>, xor: (W, W) -> W, x: Index -> W, y: Index -> W): Index -> W {
    var r := Xored(xor, x, y);
    Xored(xor, r, Permute(gb, r))
  }

  /** Word w of the new block: G, and from the second pass on the old contents are mixed in. */
  function NewWord<W>(gb: Mixer<W>, xor: (W, W) -> W, previous: Index -> W, reference: Index -> W,
                      current: Index -> W, pass: nat, w: Index): W
  {
    var fresh' := Compressed(gb, xor, previous, reference)(w);
    if pass == 0 then fresh' else xor(current(w), fresh')
  }

  lemma StorePlace(t: Thread)
    requires t < 32
    ensures t % 32 == t && t / 32 == 0
    ensures (32 + t) % 32 == t && (32 + t) / 32 == 1
    ensures (64 + t) % 32 == t && (64 + t) / 32 == 2
    ensures (96 + t) % 32 == t && (96 + t) / 32 == 3
  {
  }

  lemma WordPlace(w: Index)
    requires w < 128
    ensures var t := w % 32; t < 32 && (w == t || w == 32 + t || w == 64 + t || w == 96 + t)
  {
  }
}
