/**
 The fill kernels themselves, carried out by the 32 threads of each lane: the precomputed reference table,
 and the four ways to fill the memory, segment by segment or in one launch, with the table or with addresses
 generated on the fly.

 The lanes of a launch are run one after the other between barriers; LaneInterleaving.AnyLaunchFills
 shows that any other order of their actions leaves the same memory.
 */
module FillKernels {
  import opened Bits
  import opened ReferenceIndex
  import opened ArgonFill
  import opened ThreadBlocks

  /**
   The registers of a lane: its threads' words of the previous block, mem_curr, the refs pointer, its threads'
   words of the address block, thread_input, skip.
   */
  datatype Registers = Registers(previous: ThreadRegisters, curr: Cell, refs: nat, address: ThreadRegisters,
                                 input: seq<nat>, skip: nat)

  /** Where the table keeps the entry of a block of the first two slices. */
  function TablePlace(p: Params, at: Position): nat { at.lane * (p.LaneBlocks() / 2) + at.Column(p) }

  ghost predicate InTable(p: Params, at: Position) {
    at.pass == 0 && at.slice < SYNC_POINTS / 2 && at.lane < p.lanes && at.offset < p.segmentBlocks
  }

  function TableEntry<B>(m: Mapping, b: Blocks<B>, p: Params, at: Position): Cell {
    m(at, SelectorOf(b, p, at, b.zero))
  }

  /** at comes before at' when lanes, slices and offsets are enumerated in this order */
  ghost predicate Earlier(at: Position, at': Position) {
    at.lane < at'.lane
      || (at.lane == at'.lane && (at.slice < at'.slice || (at.slice == at'.slice && at.offset < at'.offset)))
  }

  lemma TablePlaceIncreases(p: Params, at: Position, at': Position)
    requires InTable(p, at) && InTable(p, at') && Earlier(at, at')
    ensures TablePlace(p, at) < TablePlace(p, at')
  {
    if at.lane < at'.lane {
      Product(at'.lane - at.lane - 1, p.LaneBlocks() / 2);
      assert at'.lane * (p.LaneBlocks() / 2)
          == (at'.lane - at.lane - 1) * (p.LaneBlocks() / 2) + at.lane * (p.LaneBlocks() / 2) + p.LaneBlocks() / 2;
    }
  }

  lemma TablePlaceBound(p: Params, at: Position)
    requires InTable(p, at)
    ensures TablePlace(p, at) < p.lanes * (p.LaneBlocks() / 2)
  {
    Product(p.lanes - at.lane - 1, p.LaneBlocks() / 2);
    assert p.lanes * (p.LaneBlocks() / 2)
        == (p.lanes - at.lane - 1) * (p.LaneBlocks() / 2) + at.lane * (p.LaneBlocks() / 2) + p.LaneBlocks() / 2;
  }

  /**
   Exactly the first two blocks of a lane have entries for which compute_ref_pos underflows, and no block that is
   filled has its entry in their place.
   */
  lemma UnderflowsAreNotRead(p: Params, at: Position, s: Selector)
    requires p.Fits() && InTable(p, at)
    ensures Underflows(p, at, s.j2, s.j1) <==> at.slice == 0 && at.offset < 2
    ensures Underflows(p, at, s.j2, s.j1) ==>
      forall at' | InTable(p, at') && at'.Reachable(p) :: TablePlace(p, at') != TablePlace(p, at)
  {
    UnderflowsIff(p, at, s.j2, s.j1);
    forall at' | InTable(p, at') && at'.Reachable(p) && !at.Reachable(p)
      ensures TablePlace(p, at') != TablePlace(p, at)
    {
      if Earlier(at, at') { TablePlaceIncreases(p, at, at'); } else { TablePlaceIncreases(p, at', at); }
    }
  }

  /**
   A device with its memory and reference table, and the threads of the lane that is running.  `m` is how a
   reference is computed and `b` the operations on blocks, for use in contracts; the proofs need no more of
   their definitions than the contracts say, and hide them.
   */
  class Device {
    const warp: LaneOfThreads
    const p: Params
    ghost const m: Mapping
    ghost const b: Blocks<Block>
    var mem: Memory<Block>
    var refs: seq<Cell>

    constructor (warp: LaneOfThreads, p: Params, mem: Memory<Block>, refs: seq<Cell>)
      ensures this.warp == warp && this.p == p && this.mem == mem && this.refs == refs
      ensures m == Kernel(p) && b == KernelBlocks(warp.gb)
    {
      this.warp, this.p, this.mem, this.refs := warp, p, mem, refs;
      m, b := Kernel(p), KernelBlocks(warp.gb);
    }

    ghost predicate Valid()
      reads this
    {
      && p.Valid() && m == Kernel(p) && b == KernelBlocks(warp.gb) && OnWords(warp)
      && mem.Keys == Cells(p) && |refs| >= p.lanes * (p.LaneBlocks() / 2)
    }

    /** Every entry is the reference of its block. */
    ghost predicate TableFilled()
      reads `refs
    {
      forall at: Position | InTable(p, at) ::
        TablePlace(p, at) < |refs| && refs[TablePlace(p, at)] == TableEntry(m, b, p, at)
    }

    /**
     What the fill needs of the table: the entries of the blocks that it fills.  Those of the first two
     blocks of a lane, for which the computation of the reference underflows, may hold anything.
     */
    ghost predicate TableReady()
      reads `refs
    {
      forall at: Position | InTable(p, at) && at.Reachable(p) ::
        TablePlace(p, at) < |refs| && refs[TablePlace(p, at)] == TableEntry(m, b, p, at)
    }

    /** The entries that come before `end` are in place. */
    ghost predicate ReadyBefore(end: Position)
      reads `refs
    {
      forall at: Position | InTable(p, at) && Earlier(at, end) ::
        TablePlace(p, at) < |refs| && refs[TablePlace(p, at)] == TableEntry(m, b, p, at)
    }

    /** compute_ref_pos on the halves of a word */
    method ReferenceOf(at: Position, s: Selector) returns (reference: Cell)
      requires p.Fits() && m == Kernel(p) && at.lane < p.lanes
      ensures reference == m(at, s)
    {
      var refLane, refIndex := ComputeRefPos(p, at, s.j2, s.j1);
      reference := Cell(refIndex, refLane);
    }

    // ------------------------------------------------------------ the table

    /** argon2_precompute_kernel: one work item for every lane, slice and address block. */
    method Precompute()
      requires Valid()
      modifies `refs, warp
      ensures Valid() && TableFilled() && TableReady()
    {
      var addressBlocks := (p.segmentBlocks + QWORDS_IN_BLOCK - 1) / QWORDS_IN_BLOCK;
      for lane := 0 to p.lanes
        invariant Valid()
        invariant ReadyBefore(Position(0, lane, 0, 0))
      {
        PrecomputeSegment(lane, 0, addressBlocks);
        PrecomputeSegment(lane, 1, addressBlocks);
      }
    }

    method PrecomputeSegment(lane: nat, slice: Slice, addressBlocks: nat)
      requires Valid() && lane < p.lanes && slice < SYNC_POINTS / 2
      requires addressBlocks == (p.segmentBlocks + QWORDS_IN_BLOCK - 1) / QWORDS_IN_BLOCK
      requires ReadyBefore(Position(0, lane, slice, 0))
      modifies `refs, warp
      ensures Valid() && ReadyBefore(Position(0, lane, slice + 1, 0))
    {
      for block := 0 to addressBlocks
        invariant Valid() && ReadyBefore(Position(0, lane, slice, block * QWORDS_IN_BLOCK))
      {
        PrecomputeBlock(lane, slice, block);
      }
    }

    /** The work item of one address block. */
    method PrecomputeBlock(lane: nat, slice: Slice, block: nat)
      requires Valid() && lane < p.lanes && slice < SYNC_POINTS / 2
      requires ReadyBefore(Position(0, lane, slice, block * QWORDS_IN_BLOCK))
      modifies `refs, warp
      ensures Valid() && ReadyBefore(Position(0, lane, slice, (block + 1) * QWORDS_IN_BLOCK))
    {
      hide Kernel, KernelBlocks, HoldsBlock;
      var segment := lane * (SYNC_POINTS / 2) + slice;
      NextAddresses(warp, AddressInput(p, lane, slice, block + 1));
      ghost var address := b.AddressBlock(p, lane, slice, block + 1);
      for pos := 0 to QWORDS_IN_BLOCK
        invariant Valid() && ReadyBefore(Position(0, lane, slice, block * QWORDS_IN_BLOCK + pos))
        invariant HoldsBlock(warp.regs, address)
      {
        var offset := block * QWORDS_IN_BLOCK + pos;
        if offset < p.segmentBlocks {
          var at := Position(0, lane, slice, offset);
          var s := OwnWord(warp, pos, address);
          var reference := ReferenceOf(at, s);
          EntryOfAddressBlock(m, b, p, at, block, pos);
          StoreReference(at, segment, reference);
        }
      }
    }

    method StoreReference(at: Position, segment: nat, reference: Cell)
      requires Valid() && InTable(p, at) && ReadyBefore(at)
      requires segment == at.lane * (SYNC_POINTS / 2) + at.slice && reference == TableEntry(m, b, p, at)
      modifies `refs
      ensures Valid() && ReadyBefore(at.(offset := at.offset + 1))
    {
      hide Kernel, KernelBlocks, HoldsBlock;
      TablePlaceBound(p, at);
      TablePlaceOfSegment(p, at);
      refs := refs[segment * p.segmentBlocks + at.offset := reference];
      forall at': Position | InTable(p, at') && Earlier(at', at.(offset := at.offset + 1))
        ensures TablePlace(p, at') < |refs| && refs[TablePlace(p, at')] == TableEntry(m, b, p, at')
      {
        if Earlier(at', at) { TablePlaceIncreases(p, at', at); } else { assert at' == at; }
      }
    }

    // ------------------------------------------------------------ one block

    /** The registers that every kernel keeps: the threads hold the preceding block; the place to write. */
    ghost predicate InStep(r: Registers, at: Position)
      reads `mem
    {
      && at.Reachable(p) && r.curr == Here(p, at)
      && Preceding(p, at) in mem && HoldsBlock(r.previous, mem[Preceding(p, at)])
    }

    ghost predicate RefsInStep(r: Registers, at: Position) {
      at.pass == 0 && at.slice < SYNC_POINTS / 2 ==> r.refs == TablePlace(p, at)
    }

    /** The reference of a step, which the kernel keeps in ref_lane and ref_index. */
    ghost function Reference(at: Position): Cell
      reads `mem
    {
      m(at, SelectorOf(b, p, at, Read(b, mem, Preceding(p, at))))
    }

    /** argon2_core: the threads, which hold the preceding block, write the next one and hold it. */
    method WriteBlock(r: Registers, at: Position, reference: Cell) returns (r': Registers)
      requires Valid() && InStep(r, at) && reference == Reference(at)
      modifies `mem, warp
      ensures Valid() && mem == Step(m, b, p, old(mem), at)
      ensures Here(p, at) in mem && r' == r.(previous := r'.previous) && HoldsBlock(r'.previous, mem[Here(p, at)])
    {
      hide Kernel, KernelBlocks, HoldsBlock;
      KernelIsAdmissible(p);
      StepReads(m, b, p, mem, at);
      warp.regs := r.previous;
      var block := Argon2Core(warp, mem[Preceding(p, at)], mem[reference], mem[r.curr], at.pass);
      mem := mem[r.curr := block];
      r' := r.(previous := warp.regs);
    }

    /** The first word of the previous block selects the reference. */
    method ReferenceFromPrevious(r: Registers, at: Position) returns (reference: Cell)
      requires Valid() && InStep(r, at) && !(at.pass == 0 && at.slice < SYNC_POINTS / 2)
      modifies warp
      ensures reference == Reference(at)
    {
      warp.regs := r.previous;
      var s := SelectorOfWord(warp, 0, mem[Preceding(p, at)]);
      reference := ReferenceOf(at, s);
    }

    method ReferenceFromTable(r: Registers, at: Position) returns (r': Registers, reference: Cell)
      requires Valid() && InStep(r, at) && TableReady() && RefsInStep(r, at)
      modifies warp
      ensures reference == Reference(at)
      ensures r' == r.(refs := if at.pass == 0 && at.slice < SYNC_POINTS / 2 then r.refs + 1 else r.refs)
    {
      r' := r;
      if at.pass == 0 && at.slice < SYNC_POINTS / 2 {
        assert InTable(p, at);
        reference := refs[r'.refs];
        r' := r'.(refs := r'.refs + 1);
      } else {
        reference := ReferenceFromPrevious(r', at);
      }
    }

    /** argon2_step_precompute */
    method StepPrecompute(r: Registers, at: Position) returns (r': Registers)
      requires Valid() && TableReady() && InStep(r, at) && RefsInStep(r, at)
      modifies `mem, warp
      ensures Valid() && mem == Step(m, b, p, old(mem), at)
      ensures Here(p, at) in mem && HoldsBlock(r'.previous, mem[Here(p, at)])
      ensures r' == r.(previous := r'.previous,
                       refs := if at.pass == 0 && at.slice < SYNC_POINTS / 2 then r.refs + 1 else r.refs)
    {
      var reference: Cell;
      r', reference := ReferenceFromTable(r, at);
      r' := WriteBlock(r', at, reference);
    }

    /** thread_input and the address block when the block at hand is next */
    ghost predicate AddressInStep(r: Registers, at: Position) {
      |r.input| == 7 &&
      (at.pass == 0 && at.slice < SYNC_POINTS / 2 ==>
        var counter := Counter(at.offset);
        && r.input == AddressInput(p, at.lane, at.slice, counter)
        && (at.offset % QWORDS_IN_BLOCK != 0 ==>
              HoldsBlock(r.address, b.AddressBlock(p, at.lane, at.slice, counter))))
    }

    /** Starts the next address block when the last one is used up: thread 6 counts. */
    method RefreshAddress(r: Registers, at: Position) returns (r': Registers)
      requires Valid() && AddressInStep(r, at) && at.pass == 0 && at.slice < SYNC_POINTS / 2
      modifies warp
      ensures r' == r.(input := r'.input, address := r'.address)
      ensures r'.input == AddressInput(p, at.lane, at.slice, at.offset / QWORDS_IN_BLOCK + 1)
      ensures HoldsBlock(r'.address, b.AddressBlock(p, at.lane, at.slice, at.offset / QWORDS_IN_BLOCK + 1))
    {
      r' := r;
      CounterNext(at.offset);
      if at.offset % QWORDS_IN_BLOCK == 0 {
        r' := r'.(input := r'.input[6 := r'.input[6] + 1]);
        NextAddresses(warp, r'.input);
        r' := r'.(address := warp.regs);
      }
    }

    /** In the first slices a word of the address block selects it. */
    method ReferenceFromAddress(r: Registers, at: Position) returns (reference: Cell)
      requires Valid() && at.lane < p.lanes && at.pass == 0 && at.slice < SYNC_POINTS / 2
      requires HoldsBlock(r.address, b.AddressBlock(p, at.lane, at.slice, at.offset / QWORDS_IN_BLOCK + 1))
      modifies warp
      ensures reference == Reference(at)
    {
      hide Kernel, KernelBlocks, HoldsBlock;
      ghost var address := b.AddressBlock(p, at.lane, at.slice, at.offset / QWORDS_IN_BLOCK + 1);
      warp.regs := r.address;
      var s := SelectorOfWord(warp, at.offset % QWORDS_IN_BLOCK, address);
      reference := ReferenceOf(at, s);
    }

    method ReferenceOnTheFly(r: Registers, at: Position) returns (r': Registers, reference: Cell)
      requires Valid() && InStep(r, at) && AddressInStep(r, at)
      modifies warp
      ensures reference == Reference(at)
      ensures r' == r.(input := r'.input, address := r'.address)
      ensures AddressInStep(r', at.(offset := at.offset + 1))
    {
      hide Kernel, KernelBlocks, HoldsBlock, AtBlock;
      r' := r;
      CounterNext(at.offset);
      if at.pass == 0 && at.slice < SYNC_POINTS / 2 {
        r' := RefreshAddress(r, at);
        reference := ReferenceFromAddress(r', at);
      } else {
        reference := ReferenceFromPrevious(r', at);
      }
    }

    /** argon2_step */
    method StepOnTheFly(r: Registers, at: Position) returns (r': Registers)
      requires Valid() && InStep(r, at) && AddressInStep(r, at)
      modifies `mem, warp
      ensures Valid() && mem == Step(m, b, p, old(mem), at)
      ensures Here(p, at) in mem && HoldsBlock(r'.previous, mem[Here(p, at)])
      ensures r' == r.(previous := r'.previous, input := r'.input, address := r'.address)
      ensures AddressInStep(r', at.(offset := at.offset + 1))
    {
      var reference: Cell;
      r', reference := ReferenceOnTheFly(r, at);
      r' := WriteBlock(r', at, reference);
    }

    // ------------------------------------------------------------ segment by segment

    /** The registers stand at a block that may be the first one after the segment. */
    ghost predicate AtBlock(r: Registers, at: Position)
      reads `mem
    {
      r.curr == Here(p, at) && Preceding(p, at) in mem && HoldsBlock(r.previous, mem[Preceding(p, at)])
    }

    /** The body of the loops over the table: one step, and mem_curr moves on. */
    method FillNextPrecompute(r: Registers, at: Position) returns (r': Registers)
      requires Valid() && TableReady() && at.Reachable(p) && AtBlock(r, at) && RefsInStep(r, at)
      modifies `mem, warp
      ensures Valid() && mem == Step(m, b, p, old(mem), at)
      ensures AtBlock(r', at.(offset := at.offset + 1)) && RefsInStep(r', at.(offset := at.offset + 1))
      ensures r'.skip == r.skip
    {
      hide Kernel, KernelBlocks, HoldsBlock;
      r' := StepPrecompute(r, at);
      r' := r'.(curr := Cell(r'.curr.column + 1, r'.curr.lane));
      NextBlock(p, at);
    }

    /** The body of the loops without a table. */
    method FillNextOnTheFly(r: Registers, at: Position) returns (r': Registers)
      requires Valid() && at.Reachable(p) && AtBlock(r, at) && AddressInStep(r, at)
      modifies `mem, warp
      ensures Valid() && mem == Step(m, b, p, old(mem), at)
      ensures AtBlock(r', at.(offset := at.offset + 1)) && AddressInStep(r', at.(offset := at.offset + 1))
      ensures r'.skip == r.skip
    {
      hide Kernel, KernelBlocks, HoldsBlock;
      r' := StepOnTheFly(r, at);
      r' := r'.(curr := Cell(r'.curr.column + 1, r'.curr.lane));
      NextBlock(p, at);
    }

    /** The pointers of a segment kernel, and the load of the block before the segment. */
    method SegmentRegisters(pass: nat, lane: nat, slice: Slice) returns (r: Registers)
      requires Valid() && lane < p.lanes
      modifies warp
      ensures AtBlock(r, Position(pass, lane, slice, FirstOffset(pass, slice))) && |r.input| == 7
    {
      hide Kernel, KernelBlocks, HoldsBlock;
      var segment := p.Start(slice);
      var memPrev, memCurr: nat;
      if pass == 0 {
        if slice == 0 {
          memPrev, memCurr := segment + 1, segment + 2;
        } else {
          memPrev, memCurr := segment - 1, segment;
        }
      } else {
        memPrev, memCurr := segment + (if slice == 0 then p.LaneBlocks() else 0) - 1, segment;
      }
      LoadBlock(warp, mem[Cell(memPrev, lane)]);
      r := Registers(warp.regs, Cell(memCurr, lane), 0, warp.regs, [0, 0, 0, 0, 0, 0, 0], 0);
    }

    /** Where a segment kernel starts in the table: behind the blocks that exist already. */
    method FirstRefs(pass: nat, lane: nat, slice: Slice) returns (r: Registers)
      requires Valid() && lane < p.lanes
      modifies warp
      ensures AtBlock(r, Position(pass, lane, slice, FirstOffset(pass, slice)))
      ensures RefsInStep(r, Position(pass, lane, slice, FirstOffset(pass, slice)))
    {
      hide Kernel, KernelBlocks, HoldsBlock;
      r := SegmentRegisters(pass, lane, slice);
      if pass == 0 && slice < SYNC_POINTS / 2 {
        Product(lane, p.LaneBlocks() / 2);
        r := r.(refs := lane * (p.LaneBlocks() / 2) + p.Start(slice) + FirstOffset(pass, slice));
      }
    }

    method PrecomputeStepAt(r: Registers, pass: nat, lane: nat, slice: Slice, offset: nat, ghost start: Memory<Block>)
      returns (r': Registers)
      requires Valid() && TableReady() && Position(pass, lane, slice, offset).Reachable(p)
      requires mem == FillSegment(m, b, p, start, pass, slice, lane, offset)
      requires AtBlock(r, Position(pass, lane, slice, offset)) && RefsInStep(r, Position(pass, lane, slice, offset))
      modifies `mem, warp
      ensures Valid() && mem == FillSegment(m, b, p, start, pass, slice, lane, offset + 1)
      ensures AtBlock(r', Position(pass, lane, slice, offset + 1))
        && RefsInStep(r', Position(pass, lane, slice, offset + 1))
    {
      hide Kernel, KernelBlocks, HoldsBlock;
      var at := Position(pass, lane, slice, offset);
      OneBlockMore(m, b, p, start, pass, slice, lane, offset);
      r' := FillNextPrecompute(r, at);
      assert at.(offset := at.offset + 1) == Position(pass, lane, slice, offset + 1);
    }

    /** argon2_kernel_segment_precompute, for one lane */
    method SegmentPrecompute(pass: nat, lane: nat, slice: Slice)
      requires Valid() && TableReady() && lane < p.lanes
      modifies `mem, warp
      ensures Valid() && mem == FillSegment(m, b, p, old(mem), pass, slice, lane, p.segmentBlocks)
    {
      hide Kernel, KernelBlocks, AtBlock, RefsInStep, TableReady, FillSegment;
      var start := FirstOffset(pass, slice);
      SegmentStart(m, b, p, mem, pass, slice, lane, start);
      var r := FirstRefs(pass, lane, slice);
      for offset := start to p.segmentBlocks
        invariant Valid() && TableReady()
        invariant mem == FillSegment(m, b, p, old(mem), pass, slice, lane, offset)
        invariant AtBlock(r, Position(pass, lane, slice, offset))
        invariant RefsInStep(r, Position(pass, lane, slice, offset))
      {
        r := PrecomputeStepAt(r, pass, lane, slice, offset, old(mem));
      }
    }

    /** thread_input and the first address block of a segment kernel */
    method FirstAddress(pass: nat, lane: nat, slice: Slice) returns (r: Registers)
      requires Valid() && lane < p.lanes
      modifies warp
      ensures AtBlock(r, Position(pass, lane, slice, FirstOffset(pass, slice)))
      ensures FirstOffset(pass, slice) < p.segmentBlocks ==>
        AddressInStep(r, Position(pass, lane, slice, FirstOffset(pass, slice)))
    {
      hide Kernel, KernelBlocks, HoldsBlock;
      r := SegmentRegisters(pass, lane, slice);
      r := r.(input := AddressInput(p, lane, slice, 0)[0 := pass]);
      if pass == 0 && slice == 0 && p.segmentBlocks > 2 {
        r := r.(input := r.input[6 := r.input[6] + 1]);
        NextAddresses(warp, r.input);
        r := r.(address := warp.regs);
      }
    }

    /** argon2_kernel_segment, for one lane */
    method SegmentOnTheFly(pass: nat, lane: nat, slice: Slice)
      requires Valid() && lane < p.lanes
      modifies `mem, warp
      ensures Valid() && mem == FillSegment(m, b, p, old(mem), pass, slice, lane, p.segmentBlocks)
    {
      hide Kernel, KernelBlocks, AtBlock, AddressInStep, FillSegment, Step;
      var start := FirstOffset(pass, slice);
      SegmentStart(m, b, p, mem, pass, slice, lane, start);
      var r := FirstAddress(pass, lane, slice);
      for offset := start to p.segmentBlocks
        invariant Valid()
        invariant mem == FillSegment(m, b, p, old(mem), pass, slice, lane, offset)
        invariant AtBlock(r, Position(pass, lane, slice, offset))
        invariant offset < p.segmentBlocks ==> AddressInStep(r, Position(pass, lane, slice, offset))
      {
        var at := Position(pass, lane, slice, offset);
        OneBlockMore(m, b, p, old(mem), pass, slice, lane, offset);
        r := FillNextOnTheFly(r, at);
        assert at.(offset := at.offset + 1) == Position(pass, lane, slice, offset + 1);
      }
    }

    /** One launch of a segment kernel, over all lanes. */
    method LaunchSegment(useTable: bool, pass: nat, slice: Slice)
      requires Valid() && (useTable ==> TableReady())
      modifies `mem, warp
      ensures Valid() && mem == FillSlice(m, b, p, old(mem), pass, slice, p.lanes)
    {
      for lane := 0 to p.lanes
        invariant Valid() && (useTable ==> TableReady())
        invariant mem == FillSlice(m, b, p, old(mem), pass, slice, lane)
      {
        if useTable {
          SegmentPrecompute(pass, lane, slice);
        } else {
          SegmentOnTheFly(pass, lane, slice);
        }
      }
    }

    /** A launch of a segment kernel for every slice of a pass. */
    method PassBySegments(useTable: bool, pass: nat, ghost start: Memory<Block>)
      requires Valid() && (useTable ==> TableReady())
      requires mem == Fill(m, b, p, start, pass, 0)
      modifies `mem, warp
      ensures Valid() && mem == Fill(m, b, p, start, pass, SYNC_POINTS)
    {
      hide Kernel, KernelBlocks, HoldsBlock;
      for slice := 0 to SYNC_POINTS
        invariant Valid() && (useTable ==> TableReady())
        invariant mem == Fill(m, b, p, start, pass, slice)
      {
        LaunchSegment(useTable, pass, slice);
      }
    }

    /** The whole fill, segment by segment. */
    method FillBySegments(useTable: bool)
      requires Valid() && (useTable ==> TableReady())
      modifies `mem, warp
      ensures Valid() && mem == Fill(m, b, p, old(mem), p.passes, 0)
    {
      hide Kernel, KernelBlocks, HoldsBlock;
      for pass := 0 to p.passes
        invariant Valid() && (useTable ==> TableReady())
        invariant mem == Fill(m, b, p, old(mem), pass, 0)
      {
        PassBySegments(useTable, pass, old(mem));
      }
    }

    // ------------------------------------------------------------ one launch for all slices
    //
    // argon2_kernel_oneshot_precompute (useTable) and argon2_kernel_oneshot keep the registers of a
    // lane from slice to slice.

    /** thread_input between the blocks of a slice; the counter and the address block only matter inside it */
    ghost predicate InputInStep(r: Registers, at: Position) {
      && |r.input| == 7
      && (at.pass == 0 && at.slice < SYNC_POINTS / 2 ==> r.input[6 := 0] == AddressInput(p, at.lane, at.slice, 0))
      && (at.offset < p.segmentBlocks ==> AddressInStep(r, at))
    }

    /** The registers from which the reference of a block is determined. */
    ghost predicate SourceInStep(useTable: bool, r: Registers, at: Position) {
      if useTable then RefsInStep(r, at) else InputInStep(r, at)
    }

    method FillNext(useTable: bool, r: Registers, pass: nat, lane: nat, slice: Slice, offset: nat)
      returns (r': Registers)
      requires Valid() && (useTable ==> TableReady()) && Position(pass, lane, slice, offset).Reachable(p)
      requires AtBlock(r, Position(pass, lane, slice, offset))
        && SourceInStep(useTable, r, Position(pass, lane, slice, offset))
      modifies `mem, warp
      ensures Valid() && mem == Step(m, b, p, old(mem), Position(pass, lane, slice, offset))
      ensures AtBlock(r', Position(pass, lane, slice, offset + 1))
      ensures SourceInStep(useTable, r', Position(pass, lane, slice, offset + 1))
      ensures r'.skip == r.skip
    {
      hide Kernel, KernelBlocks, HoldsBlock;
      var at := Position(pass, lane, slice, offset);
      if useTable {
        r' := FillNextPrecompute(r, at);
      } else {
        r' := FillNextOnTheFly(r, at);
      }
      assert at.(offset := at.offset + 1) == Position(pass, lane, slice, offset + 1);
    }

    /** One iteration of the inner loop: the blocks that exist already are skipped. */
    method SkipOrFill(useTable: bool, r: Registers, pass: nat, lane: nat, slice: Slice, offset: nat)
      returns (r': Registers)
      requires Valid() && (useTable ==> TableReady()) && lane < p.lanes && offset < p.segmentBlocks
      requires r.skip == if offset < FirstOffset(pass, slice) then FirstOffset(pass, slice) - offset else 0
      requires AtBlock(r, Position(pass, lane, slice, offset + r.skip))
      requires SourceInStep(useTable, r, Position(pass, lane, slice, offset + r.skip))
      modifies `mem, warp
      ensures Valid()
      ensures mem == if r.skip > 0 then old(mem) else Step(m, b, p, old(mem), Position(pass, lane, slice, offset))
      ensures r'.skip == if r.skip > 0 then r.skip - 1 else 0
      ensures AtBlock(r', Position(pass, lane, slice, offset + 1 + r'.skip))
      ensures SourceInStep(useTable, r', Position(pass, lane, slice, offset + 1 + r'.skip))
    {
      hide Kernel, KernelBlocks, HoldsBlock, Step, TableReady;
      if r.skip > 0 {
        r' := r.(skip := r.skip - 1);
      } else {
        r' := FillNext(useTable, r, pass, lane, slice, offset);
      }
    }

    /** The same, with what is filled so far. */
    method NextOfSlice(useTable: bool, r: Registers, pass: nat, lane: nat, slice: Slice, offset: nat,
                       ghost start: Memory<Block>) returns (r': Registers)
      requires Valid() && (useTable ==> TableReady()) && lane < p.lanes && offset < p.segmentBlocks
      requires r.skip == if offset < FirstOffset(pass, slice) then FirstOffset(pass, slice) - offset else 0
      requires mem == FillSegment(m, b, p, start, pass, slice, lane, offset)
      requires AtBlock(r, Position(pass, lane, slice, offset + r.skip))
      requires SourceInStep(useTable, r, Position(pass, lane, slice, offset + r.skip))
      modifies `mem, warp
      ensures Valid() && mem == FillSegment(m, b, p, start, pass, slice, lane, offset + 1)
      ensures r'.skip == if r.skip > 0 then r.skip - 1 else 0
      ensures AtBlock(r', Position(pass, lane, slice, offset + 1 + r'.skip))
      ensures SourceInStep(useTable, r', Position(pass, lane, slice, offset + 1 + r'.skip))
    {
      SkippedOrFilled(m, b, p, start, pass, slice, lane, offset);
      r' := SkipOrFill(useTable, r, pass, lane, slice, offset);
    }

    lemma LongEnough(pass: nat, slice: Slice)
      requires Valid()
      ensures FirstOffset(pass, slice) <= p.segmentBlocks
    {
    }

    /** The inner loop, up to the barrier. */
    method RunSlice(useTable: bool, r: Registers, pass: nat, lane: nat, slice: Slice) returns (r': Registers)
      requires Valid() && (useTable ==> TableReady()) && lane < p.lanes && r.skip == FirstOffset(pass, slice)
      requires AtBlock(r, Position(pass, lane, slice, r.skip))
      requires SourceInStep(useTable, r, Position(pass, lane, slice, r.skip))
      modifies `mem, warp
      ensures Valid() && mem == FillSegment(m, b, p, old(mem), pass, slice, lane, p.segmentBlocks)
      ensures r'.skip == 0
      ensures AtBlock(r', Position(pass, lane, slice, p.segmentBlocks))
      ensures SourceInStep(useTable, r', Position(pass, lane, slice, p.segmentBlocks))
    {
      hide Valid, AtBlock, SourceInStep, TableReady, FillSegment;
      LongEnough(pass, slice);
      SegmentStart(m, b, p, mem, pass, slice, lane, 0);
      r' := r;
      for offset := 0 to p.segmentBlocks
        invariant Valid() && (useTable ==> TableReady())
        invariant r'.skip == if offset < r.skip then r.skip - offset else 0
        invariant mem == FillSegment(m, b, p, old(mem), pass, slice, lane, offset)
        invariant AtBlock(r', Position(pass, lane, slice, offset + r'.skip))
        invariant SourceInStep(useTable, r', Position(pass, lane, slice, offset + r'.skip))
      {
        r' := NextOfSlice(useTable, r', pass, lane, slice, offset, old(mem));
      }
    }

    /** The lanes from `from` to `to` stand at the given offset of a slice. */
    ghost predicate LanesAt(threads: seq<Registers>, from: nat, to: nat, pass: nat, slice: Slice, offset: nat)
      requires to <= |threads|
      reads `mem
    {
      forall l | from <= l < to :: AtBlock(threads[l], Position(pass, l, slice, offset))
    }

    ghost predicate LanesReady(useTable: bool, threads: seq<Registers>, from: nat, to: nat, pass: nat, slice: Slice,
                               offset: nat)
      requires to <= |threads|
    {
      forall l | from <= l < to :: SourceInStep(useTable, threads[l], Position(pass, l, slice, offset))
    }

    /** Between two barriers, each lane in turn. */
    method RunLanes(useTable: bool, threads: seq<Registers>, pass: nat, slice: Slice)
      returns (threads': seq<Registers>)
      requires Valid() && (useTable ==> TableReady()) && |threads| == p.lanes
      requires forall l | 0 <= l < p.lanes :: threads[l].skip == FirstOffset(pass, slice)
      requires LanesAt(threads, 0, p.lanes, pass, slice, FirstOffset(pass, slice))
      requires LanesReady(useTable, threads, 0, p.lanes, pass, slice, FirstOffset(pass, slice))
      modifies `mem, warp
      ensures Valid() && mem == FillSlice(m, b, p, old(mem), pass, slice, p.lanes)
      ensures |threads'| == p.lanes && forall l | 0 <= l < p.lanes :: threads'[l].skip == 0
      ensures LanesAt(threads', 0, p.lanes, pass, slice, p.segmentBlocks)
      ensures LanesReady(useTable, threads', 0, p.lanes, pass, slice, p.segmentBlocks)
    {
      hide Kernel, KernelBlocks, HoldsBlock, SourceInStep, TableReady;
      threads' := threads;
      for lane := 0 to p.lanes
        invariant Valid() && (useTable ==> TableReady()) && |threads'| == p.lanes
        invariant forall l | lane <= l < p.lanes :: threads'[l] == threads[l]
        invariant mem == FillSlice(m, b, p, old(mem), pass, slice, lane)
        invariant forall l | 0 <= l < lane :: threads'[l].skip == 0
        invariant LanesAt(threads', 0, lane, pass, slice, p.segmentBlocks)
        invariant LanesReady(useTable, threads', 0, lane, pass, slice, p.segmentBlocks)
        invariant LanesAt(threads', lane, p.lanes, pass, slice, FirstOffset(pass, slice))
        invariant LanesReady(useTable, threads', lane, p.lanes, pass, slice, FirstOffset(pass, slice))
      {
        FillSegmentFrame(m, b, p, mem, pass, slice, lane, p.segmentBlocks);
        var r := RunSlice(useTable, threads'[lane], pass, lane, slice);
        threads' := threads'[lane := r];
      }
    }

    /** The registers with which a lane of a one-shot kernel starts. */
    method FirstRegisters(useTable: bool, lane: nat) returns (r: Registers)
      requires Valid() && lane < p.lanes
      modifies warp
      ensures AtBlock(r, Position(0, lane, 0, 2)) && SourceInStep(useTable, r, Position(0, lane, 0, 2)) && r.skip == 2
    {
      hide Kernel, KernelBlocks, HoldsBlock;
      LoadBlock(warp, mem[Cell(1, lane)]);
      r := Registers(warp.regs, Cell(2, lane), 0, warp.regs, AddressInput(p, lane, 0, 0), 2);
      if useTable {
        Product(lane, p.LaneBlocks() / 2);
        r := r.(refs := lane * (p.LaneBlocks() / 2) + 2);
      } else if p.segmentBlocks > 2 {
        r := r.(input := r.input[6 := r.input[6] + 1]);
        NextAddresses(warp, r.input);
        r := r.(address := warp.regs);
      }
    }

    method FirstThreads(useTable: bool) returns (threads: seq<Registers>)
      requires Valid()
      modifies warp
      ensures |threads| == p.lanes && LanesAt(threads, 0, p.lanes, 0, 0, 2)
        && LanesReady(useTable, threads, 0, p.lanes, 0, 0, 2)
      ensures forall l | 0 <= l < p.lanes :: threads[l].skip == 2
    {
      hide Kernel, KernelBlocks, HoldsBlock;
      threads := [];
      for lane := 0 to p.lanes
        invariant Valid() && |threads| == lane && LanesAt(threads, 0, lane, 0, 0, 2)
          && LanesReady(useTable, threads, 0, lane, 0, 0, 2)
        invariant forall l | 0 <= l < lane :: threads[l].skip == 2
      {
        var r := FirstRegisters(useTable, lane);
        threads := threads + [r];
      }
    }

    lemma InputOfNextSlice(r: Registers, pass: nat, lane: nat, slice: Slice)
      requires InputInStep(r, Position(pass, lane, slice, p.segmentBlocks))
      ensures var r' := r.(input := r.input[2 := r.input[2] + 1][6 := 0]);
              && (slice < SYNC_POINTS - 1 ==> InputInStep(r', Position(pass, lane, slice + 1, 0)))
              && InputInStep(r', Position(pass + 1, lane, 0, 0))
    {
      if pass == 0 && slice == 0 {
        assert r.input[2 := r.input[2] + 1][6 := 0] == r.input[6 := 0][2 := r.input[6 := 0][2] + 1];
      }
    }

    /** After the barrier the on-the-fly kernel moves thread_input on to the next slice. */
    method NextInput(useTable: bool, threads: seq<Registers>, pass: nat, slice: Slice)
      returns (threads': seq<Registers>)
      requires p.Fits() && |threads| == p.lanes
        && LanesReady(useTable, threads, 0, p.lanes, pass, slice, p.segmentBlocks)
      requires LanesAt(threads, 0, p.lanes, pass, slice, p.segmentBlocks)
      ensures |threads'| == p.lanes
        && forall l | 0 <= l < p.lanes :: threads'[l] == threads[l].(input := threads'[l].input)
      ensures LanesAt(threads', 0, p.lanes, pass, slice, p.segmentBlocks)
      ensures slice < SYNC_POINTS - 1 ==> LanesReady(useTable, threads', 0, p.lanes, pass, slice + 1, 0)
      ensures LanesReady(useTable, threads', 0, p.lanes, pass + 1, 0, 0)
    {
      if useTable {
        threads' := threads;
      } else {
        threads' := [];
        for l := 0 to p.lanes
          invariant |threads'| == l
          invariant forall k | 0 <= k < l ::
            threads'[k] == threads[k].(input := threads[k].input[2 := threads[k].input[2] + 1][6 := 0])
        {
          threads' := threads' + [threads[l].(input := threads[l].input[2 := threads[l].input[2] + 1][6 := 0])];
        }
        forall l | 0 <= l < p.lanes
          ensures slice < SYNC_POINTS - 1 ==> InputInStep(threads'[l], Position(pass, l, slice + 1, 0))
          ensures InputInStep(threads'[l], Position(pass + 1, l, 0, 0))
        {
          InputOfNextSlice(threads[l], pass, l, slice);
        }
      }
    }

    /** The lanes before the barrier of a slice, or after the last one of a pass. */
    ghost predicate ThreadsAt(useTable: bool, threads: seq<Registers>, pass: nat, slice: nat)
      requires p.Fits() && slice <= SYNC_POINTS
      reads `mem
    {
      && |threads| == p.lanes
      && if slice < SYNC_POINTS then
           && (forall l | 0 <= l < p.lanes :: threads[l].skip == FirstOffset(pass, slice))
           && LanesAt(threads, 0, p.lanes, pass, slice, FirstOffset(pass, slice))
           && LanesReady(useTable, threads, 0, p.lanes, pass, slice, FirstOffset(pass, slice))
         else
           && (forall l | 0 <= l < p.lanes :: threads[l].skip == 0)
           && LanesAt(threads, 0, p.lanes, pass, 3, p.segmentBlocks)
           && LanesReady(useTable, threads, 0, p.lanes, pass + 1, 0, 0)
    }

    /** One slice, up to the registers with which the next one starts. */
    method OneshotSlice(useTable: bool, threads: seq<Registers>, pass: nat, slice: Slice)
      returns (threads': seq<Registers>)
      requires Valid() && (useTable ==> TableReady()) && ThreadsAt(useTable, threads, pass, slice)
      modifies `mem, warp
      ensures Valid() && mem == FillSlice(m, b, p, old(mem), pass, slice, p.lanes)
      ensures ThreadsAt(useTable, threads', pass, slice + 1)
    {
      hide Kernel, KernelBlocks, HoldsBlock, SourceInStep, TableReady;
      threads' := RunLanes(useTable, threads, pass, slice);
      threads' := NextInput(useTable, threads', pass, slice);
      if slice < 3 {
        assert forall l: nat ::
          Position(pass, l, slice, p.segmentBlocks).Column(p) == Position(pass, l, slice + 1, 0).Column(p);
      }
    }

    /** The slices of one pass. */
    method OneshotPass(useTable: bool, threads: seq<Registers>, pass: nat, ghost start: Memory<Block>)
      returns (threads': seq<Registers>)
      requires Valid() && (useTable ==> TableReady()) && ThreadsAt(useTable, threads, pass, 0)
      requires mem == Fill(m, b, p, start, pass, 0)
      modifies `mem, warp
      ensures Valid() && mem == Fill(m, b, p, start, pass, SYNC_POINTS)
      ensures ThreadsAt(useTable, threads', pass, SYNC_POINTS)
    {
      hide Kernel, KernelBlocks, ThreadsAt, TableReady;
      threads' := threads;
      for slice := 0 to SYNC_POINTS
        invariant Valid() && (useTable ==> TableReady())
        invariant mem == Fill(m, b, p, start, pass, slice) && ThreadsAt(useTable, threads', pass, slice)
      {
        threads' := OneshotSlice(useTable, threads', pass, slice);
      }
    }

    /** At the end of a pass mem_curr returns to the start of the lane. */
    method Rewind(threads: seq<Registers>, pass: nat) returns (threads': seq<Registers>)
      requires p.Fits() && |threads| == p.lanes && LanesAt(threads, 0, p.lanes, pass, 3, p.segmentBlocks)
      ensures |threads'| == p.lanes && LanesAt(threads', 0, p.lanes, pass + 1, 0, 0)
      ensures forall l | 0 <= l < p.lanes :: threads'[l] == threads[l].(curr := Cell(0, l))
    {
      threads' := seq(p.lanes, l requires 0 <= l < |threads| => threads[l].(curr := Cell(0, l)));
    }

    /** The whole fill in one launch. */
    method FillOneshot(useTable: bool)
      requires Valid() && (useTable ==> TableReady())
      modifies `mem, warp
      ensures Valid() && mem == Fill(m, b, p, old(mem), p.passes, 0)
    {
      hide Kernel, KernelBlocks, HoldsBlock;
      var threads := FirstThreads(useTable);
      for pass := 0 to p.passes
        invariant Valid() && (useTable ==> TableReady()) && |threads| == p.lanes
        invariant mem == Fill(m, b, p, old(mem), pass, 0)
        invariant forall l | 0 <= l < p.lanes :: threads[l].skip == FirstOffset(pass, 0)
        invariant LanesAt(threads, 0, p.lanes, pass, 0, FirstOffset(pass, 0))
        invariant LanesReady(useTable, threads, 0, p.lanes, pass, 0, FirstOffset(pass, 0))
      {
        threads := OneshotPass(useTable, threads, pass, old(mem));
        threads := Rewind(threads, pass);
      }
    }
  }

  /** refs_buffer_bytes: the table is allocated in whole address blocks, with two 32-bit words an entry. */
  function RefsBufferBytes(p: Params): nat {
    p.lanes * (SYNC_POINTS / 2) * ((p.segmentBlocks + QWORDS_IN_BLOCK - 1) / QWORDS_IN_BLOCK) * QWORDS_IN_BLOCK * 2 * 4
  }

  /** The buffer has room for every entry of the table. */
  lemma TableFitsBuffer(p: Params)
    ensures p.lanes * (p.LaneBlocks() / 2) * 8 <= RefsBufferBytes(p)
  {
    var blocks := (p.segmentBlocks + QWORDS_IN_BLOCK - 1) / QWORDS_IN_BLOCK;
    assert p.LaneBlocks() / 2 == 2 * p.segmentBlocks && p.segmentBlocks <= 128 * blocks;
    Product(p.lanes, 128 * blocks - p.segmentBlocks);
    assert p.lanes * (128 * blocks - p.segmentBlocks) == p.lanes * 2 * blocks * 64 - p.lanes * p.segmentBlocks;
    assert p.lanes * (p.LaneBlocks() / 2) == 2 * (p.lanes * p.segmentBlocks);
    assert RefsBufferBytes(p) == p.lanes * 2 * blocks * 1024;
  }

  lemma NextBlock(p: Params, at: Position)
    ensures Preceding(p, at.(offset := at.offset + 1)) == Here(p, at)
    ensures Here(p, at.(offset := at.offset + 1)).column == Here(p, at).column + 1
  {
  }

  /** The number of address blocks generated before the block at an offset is filled. */
  function Counter(offset: nat): nat { (offset + QWORDS_IN_BLOCK - 1) / QWORDS_IN_BLOCK }

  lemma CounterNext(offset: nat)
    ensures Counter(offset + 1) == offset / QWORDS_IN_BLOCK + 1
    ensures Counter(offset)
      == if offset % QWORDS_IN_BLOCK == 0 then offset / QWORDS_IN_BLOCK else offset / QWORDS_IN_BLOCK + 1
  {
  }

  lemma EntryOfAddressBlock<B>(m: Mapping, b: Blocks<B>, p: Params, at: Position, block: nat, pos: nat)
    requires InTable(p, at) && pos < QWORDS_IN_BLOCK && at.offset == block * QWORDS_IN_BLOCK + pos
    ensures TableEntry(m, b, p, at) == m(at, b.word(b.AddressBlock(p, at.lane, at.slice, block + 1), pos))
  {
    assert at.offset / QWORDS_IN_BLOCK == block && at.offset % QWORDS_IN_BLOCK == pos;
  }

  lemma TablePlaceOfSegment(p: Params, at: Position)
    requires at.slice < SYNC_POINTS / 2
    ensures (at.lane * (SYNC_POINTS / 2) + at.slice) * p.segmentBlocks + at.offset == TablePlace(p, at)
  {
    assert p.LaneBlocks() / 2 == 2 * p.segmentBlocks;
    assert (at.lane * 2 + at.slice) * p.segmentBlocks == at.lane * (2 * p.segmentBlocks) + at.slice * p.segmentBlocks;
  }
}
