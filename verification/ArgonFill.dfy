/**
 What the fill kernels compute: the memory filling of Argon2id, version 0x13, block by block.

 Blocks are an arbitrary type B with the operations the kernels use on them; module ThreadBlocks
 shows how the 32 threads of a lane carry out these operations word by word.
 */
module ArgonFill {
  import Bits
  import opened ReferenceIndex

  const QWORDS_IN_BLOCK := 128
  const ARGON2_ID: U32 := 2

  /** The two 32-bit values J1 and J2 that select a reference: the low and the high half of a word. */
  datatype Selector = Selector(j1: U32, j2: U32)

  /**
   The operations on blocks: exclusive or, the permutation of shuffle_block, the zero block, the
   block that starts with the given words and is zero otherwise, and the halves of a word.
   */
  datatype Blocks<!B> = Blocks(xor: (B, B) -> B, permute: B -> B, zero: B, input: seq<nat> -> B,
                               word: (B, nat) -> Selector) {

    /** The compression function G of section 3.5 of RFC 9106. */
    function Compress(x: B, y: B): B { xor(xor(x, y), permute(xor(x, y))) }

    /** Section 3.2: the new block, which from the second pass on is added to the old one. */
    function NewBlock(previous: B, reference: B, current: B, pass: nat): B {
      if pass == 0 then Compress(previous, reference) else xor(Compress(previous, reference), current)
    }

    /** Section 3.4.1.2: the block of pseudo-random words with the given counter, for a segment of a lane. */
    function AddressBlock(p: Params, lane: nat, slice: nat, counter: nat): B {
      Compress(zero, Compress(zero, input(AddressInput(p, lane, slice, counter))))
    }
  }

  ghost predicate XorLaws<B>(b: Blocks<B>, x: B, y: B, z: B) {
    b.xor(x, y) == b.xor(y, x) && b.xor(b.xor(x, y), z) == b.xor(x, b.xor(y, z)) && b.xor(b.zero, x) == x
  }

  ghost predicate Laws<B(!new)>(b: Blocks<B>) {
    forall x, y, z {:trigger XorLaws(b, x, y, z)} :: XorLaws(b, x, y, z)
  }

  /** pass, lane, slice, total number of blocks, passes, type, counter */
  function AddressInput(p: Params, lane: nat, slice: nat, counter: nat): seq<nat> {
    [0, lane, slice, p.lanes * p.LaneBlocks(), p.passes, ARGON2_ID, counter]
  }

  // ------------------------------------------------------------ the memory

  /** A block of the memory; it is kept at address column * lanes + lane. */
  datatype Cell = Cell(column: nat, lane: nat)

  type Memory<B> = map<Cell, B>

  function Cells(p: Params): set<Cell> {
    set c: nat, l: nat | c < p.LaneBlocks() && l < p.lanes :: Cell(c, l)
  }

  /** Different blocks have different addresses, all within the memory. */
  lemma AddressesAreDistinct(p: Params, a: Cell, b: Cell)
    requires a.lane < p.lanes && b.lane < p.lanes && a.column < p.LaneBlocks()
    ensures a.column * p.lanes + a.lane < p.lanes * p.LaneBlocks()
    ensures a.column * p.lanes + a.lane == b.column * p.lanes + b.lane ==> a == b
  {
    var n := p.LaneBlocks();
    Bits.Minus(p.lanes, n, a.column);
    Bits.AtLeast(p.lanes, n - a.column);
    Bits.Minus(p.lanes, a.column, b.column);
    Bits.AtLeast(p.lanes, a.column - b.column);
  }

  function PreviousColumn(p: Params, column: nat): nat {
    if column != 0 then column - 1 else if p.LaneBlocks() != 0 then p.LaneBlocks() - 1 else 0
  }

  // ------------------------------------------------------------ the fill

  /** How the two selecting values of a step become a reference. */
  type Mapping = (Position, Selector) -> Cell

  /** compute_ref_pos */
  function Kernel(p: Params): Mapping {
    (at: Position, s: Selector) =>
      if at.lane < p.lanes then var r := RefPos(p, at, s.j2, s.j1); Cell(r.column, r.lane) else Cell(0, 0)
  }

  /** section 3.4.2 of RFC 9106 */
  function Standard(p: Params): Mapping {
    (at: Position, s: Selector) =>
      if at.lane < p.lanes then var r := RfcReference(p, at, s.j2, s.j1); Cell(r.column, r.lane) else Cell(0, 0)
  }

  /** References stay in the memory and out of the segments that other lanes are filling. */
  ghost predicate Admissible(p: Params, m: Mapping) {
    forall at: Position, s: Selector | at.Reachable(p) ::
      var c := m(at, s);
      && c in Cells(p)
      && (c.lane != at.lane ==> c.column < p.Start(at.slice) || p.Start(at.slice + 1) <= c.column)
  }

  lemma KernelIsAdmissible(p: Params)
    requires p.Fits()
    ensures Admissible(p, Kernel(p))
  {
    forall at: Position, s: Selector | at.Reachable(p)
      ensures var c := Kernel(p)(at, s);
              && c in Cells(p)
              && (c.lane != at.lane ==> c.column < p.Start(at.slice) || p.Start(at.slice + 1) <= c.column)
    {
      RefPosStaysClear(p, at, s.j2, s.j1);
    }
  }

  /** Where the selecting values of a step come from, given the block before it. */
  function SelectorOf<B>(b: Blocks<B>, p: Params, at: Position, previous: B): Selector {
    if at.pass == 0 && at.slice < SYNC_POINTS / 2
    then b.word(b.AddressBlock(p, at.lane, at.slice, at.offset / QWORDS_IN_BLOCK + 1), at.offset % QWORDS_IN_BLOCK)
    else b.word(previous, 0)
  }

  function Here(p: Params, at: Position): Cell { Cell(at.Column(p), at.lane) }

  function Preceding(p: Params, at: Position): Cell { Cell(PreviousColumn(p, at.Column(p)), at.lane) }

  ghost predicate WellSized<B>(p: Params, mem: Memory<B>) { p.Fits() && mem.Keys == Cells(p) }

  function Read<B>(b: Blocks<B>, mem: Memory<B>, c: Cell): B { if c in mem then mem[c] else b.zero }

  /** One block of the fill. */
  function Step<B>(m: Mapping, b: Blocks<B>, p: Params, mem: Memory<B>, at: Position): Memory<B> {
    var previous := Read(b, mem, Preceding(p, at));
    var reference := Read(b, mem, m(at, SelectorOf(b, p, at, previous)));
    mem[Here(p, at) := b.NewBlock(previous, reference, Read(b, mem, Here(p, at)), at.pass)]
  }

  /** The three blocks that a step reads are in the memory. */
  lemma StepReads<B>(m: Mapping, b: Blocks<B>, p: Params, mem: Memory<B>, at: Position)
    requires WellSized(p, mem) && Admissible(p, m) && at.Reachable(p)
    ensures Preceding(p, at) in mem && Here(p, at) in mem
    ensures var reference := m(at, SelectorOf(b, p, at, mem[Preceding(p, at)]));
            && reference in mem
            && Step(m, b, p, mem, at)
               == mem[Here(p, at) := b.NewBlock(mem[Preceding(p, at)], mem[reference], mem[Here(p, at)], at.pass)]
            && WellSized(p, Step(m, b, p, mem, at))
  {
  }

  /** The first block of a segment that the kernel fills. */
  function FirstOffset(pass: nat, slice: Slice): nat { if pass == 0 && slice == 0 then 2 else 0 }

  /** The blocks of a segment below offset n, one after the other. */
  function FillSegment<B>(m: Mapping, b: Blocks<B>, p: Params, mem: Memory<B>, pass: nat, slice: Slice, lane: nat,
                          n: nat): Memory<B>
    decreases n
  {
    if n <= FirstOffset(pass, slice) then mem
    else Step(m, b, p, FillSegment(m, b, p, mem, pass, slice, lane, n - 1), Position(pass, lane, slice, n - 1))
  }

  lemma SegmentStart<B>(m: Mapping, b: Blocks<B>, p: Params, mem: Memory<B>, pass: nat, slice: Slice, lane: nat, n: nat)
    requires n <= FirstOffset(pass, slice)
    ensures FillSegment(m, b, p, mem, pass, slice, lane, n) == mem
  {
  }

  lemma OneBlockMore<B>(m: Mapping, b: Blocks<B>, p: Params, mem: Memory<B>, pass: nat, slice: Slice, lane: nat, n: nat)
    requires FirstOffset(pass, slice) <= n
    ensures FillSegment(m, b, p, mem, pass, slice, lane, n + 1)
         == Step(m, b, p, FillSegment(m, b, p, mem, pass, slice, lane, n), Position(pass, lane, slice, n))
  {
  }

  /** One offset more: below the first offset nothing is filled. */
  lemma SkippedOrFilled<B>(m: Mapping, b: Blocks<B>, p: Params, mem: Memory<B>, pass: nat, slice: Slice, lane: nat,
                           n: nat)
    ensures FillSegment(m, b, p, mem, pass, slice, lane, n + 1)
         == if n < FirstOffset(pass, slice) then FillSegment(m, b, p, mem, pass, slice, lane, n)
            else Step(m, b, p, FillSegment(m, b, p, mem, pass, slice, lane, n), Position(pass, lane, slice, n))
  {
  }

  /** Filling a segment of one lane keeps the memory's size and the blocks of all other lanes. */
  lemma {:induction false} FillSegmentFrame<B>(m: Mapping, b: Blocks<B>, p: Params, mem: Memory<B>, pass: nat,
                                               slice: Slice, lane: nat, n: nat)
    requires WellSized(p, mem) && lane < p.lanes && n <= p.segmentBlocks
    ensures var filled := FillSegment(m, b, p, mem, pass, slice, lane, n);
            && WellSized(p, filled)
            && forall c | c in mem && c.lane != lane :: filled[c] == mem[c]
    decreases n
  {
    if FirstOffset(pass, slice) < n {
      FillSegmentFrame(m, b, p, mem, pass, slice, lane, n - 1);
      assert Here(p, Position(pass, lane, slice, n - 1)) in mem;
    }
  }

  /** The segments of one slice in the lanes below l, one lane after the other. */
  function FillSlice<B>(m: Mapping, b: Blocks<B>, p: Params, mem: Memory<B>, pass: nat, slice: Slice, l: nat): Memory<B>
    decreases l
  {
    if l == 0 then mem
    else FillSegment(m, b, p, FillSlice(m, b, p, mem, pass, slice, l - 1), pass, slice, l - 1, p.segmentBlocks)
  }

  /** All slices of the passes before `pass`, and the first n slices of that pass. */
  function Fill<B>(m: Mapping, b: Blocks<B>, p: Params, mem: Memory<B>, pass: nat, n: nat): Memory<B>
    requires n <= SYNC_POINTS
    decreases pass, n
  {
    if 0 < n then FillSlice(m, b, p, Fill(m, b, p, mem, pass, n - 1), pass, n - 1, p.lanes)
    else if 0 < pass then Fill(m, b, p, mem, pass - 1, SYNC_POINTS)
    else mem
  }

  lemma {:induction false} FillSliceSize<B>(m: Mapping, b: Blocks<B>, p: Params, mem: Memory<B>, pass: nat,
                                            slice: Slice, l: nat)
    requires WellSized(p, mem) && l <= p.lanes
    ensures WellSized(p, FillSlice(m, b, p, mem, pass, slice, l))
    decreases l
  {
    hide FillSegment, WellSized;
    if 0 < l {
      FillSliceSize(m, b, p, mem, pass, slice, l - 1);
      FillSegmentFrame(m, b, p, FillSlice(m, b, p, mem, pass, slice, l - 1), pass, slice, l - 1, p.segmentBlocks);
    }
  }

  lemma {:induction false} FillSize<B>(m: Mapping, b: Blocks<B>, p: Params, mem: Memory<B>, pass: nat, n: nat)
    requires WellSized(p, mem) && n <= SYNC_POINTS
    ensures WellSized(p, Fill(m, b, p, mem, pass, n))
    decreases pass, n
  {
    hide FillSlice, WellSized;
    if 0 < n {
      FillSize(m, b, p, mem, pass, n - 1);
      FillSliceSize(m, b, p, Fill(m, b, p, mem, pass, n - 1), pass, n - 1, p.lanes);
    } else if 0 < pass {
      FillSize(m, b, p, mem, pass - 1, SYNC_POINTS);
    }
  }

  // ------------------------------------------------------------ equal references fill equally

  ghost predicate Agree(p: Params, m: Mapping, m': Mapping) {
    forall at: Position, s: Selector | at.pass < p.passes && at.Reachable(p) :: m(at, s) == m'(at, s)
  }

  lemma {:induction false} SegmentsAgree<B>(m: Mapping, m': Mapping, b: Blocks<B>, p: Params, mem: Memory<B>, pass: nat,
                                            slice: Slice, lane: nat, n: nat)
    requires Agree(p, m, m')
    requires lane < p.lanes && n <= p.segmentBlocks && pass < p.passes
    ensures FillSegment(m, b, p, mem, pass, slice, lane, n) == FillSegment(m', b, p, mem, pass, slice, lane, n)
    decreases n
  {
    if FirstOffset(pass, slice) < n {
      SegmentsAgree(m, m', b, p, mem, pass, slice, lane, n - 1);
    }
  }

  lemma {:induction false} SlicesAgree<B>(m: Mapping, m': Mapping, b: Blocks<B>, p: Params, mem: Memory<B>, pass: nat,
                                          slice: Slice, l: nat)
    requires Agree(p, m, m')
    requires l <= p.lanes && pass < p.passes
    ensures FillSlice(m, b, p, mem, pass, slice, l) == FillSlice(m', b, p, mem, pass, slice, l)
    decreases l
  {
    hide FillSegment, Agree;
    if 0 < l {
      SlicesAgree(m, m', b, p, mem, pass, slice, l - 1);
      var before := FillSlice(m, b, p, mem, pass, slice, l - 1);
      SegmentsAgree(m, m', b, p, before, pass, slice, l - 1, p.segmentBlocks);
      assert FillSlice(m, b, p, mem, pass, slice, l)
        == FillSegment(m, b, p, before, pass, slice, l - 1, p.segmentBlocks);
    }
  }

  lemma {:induction false} FillsAgree<B>(m: Mapping, m': Mapping, b: Blocks<B>, p: Params, mem: Memory<B>, pass: nat,
                                         n: nat)
    requires Agree(p, m, m')
    requires n <= SYNC_POINTS && (pass < p.passes || (pass == p.passes && n == 0))
    ensures Fill(m, b, p, mem, pass, n) == Fill(m', b, p, mem, pass, n)
    decreases pass, n
  {
    if 0 < n {
      FillsAgree(m, m', b, p, mem, pass, n - 1);
      SlicesAgree(m, m', b, p, Fill(m, b, p, mem, pass, n - 1), pass, n - 1, p.lanes);
    } else if 0 < pass {
      FillsAgree(m, m', b, p, mem, pass - 1, SYNC_POINTS);
    }
  }

  /** On the launches of AlwaysMeetsRfcIff, what the kernels fill is the memory of RFC 9106. */
  lemma FillMeetsStandard<B>(b: Blocks<B>, p: Params, mem: Memory<B>)
    requires p.Fits() && 1 <= p.passes
    requires p.passes == 1 || 7 * p.segmentBlocks - 3 < Bits.TWO32
    ensures Fill(Kernel(p), b, p, mem, p.passes, 0) == Fill(Standard(p), b, p, mem, p.passes, 0)
  {
    AlwaysMeetsRfcIff(p);
    FillsAgree(Kernel(p), Standard(p), b, p, mem, p.passes, 0);
  }
}
