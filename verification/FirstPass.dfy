/**
 The first pass writes every block before it is referred to: what the memory held before, apart from the
 first two blocks of every lane, has no part in the result.
 */
module FirstPass {
  import opened ArgonFill
  import opened ReferenceIndex

  /** In the first pass references are to blocks that the pass has written, or to the first two of a lane. */
  ghost predicate Backward(p: Params, m: Mapping) {
    forall at: Position, s: Selector | at.pass == 0 && at.Reachable(p) ::
      var c := m(at, s);
      && c in Cells(p)
      && (c.lane == at.lane ==> c.column < at.Column(p))
      && (c.lane != at.lane ==> c.column < p.Start(at.slice))
  }

  lemma FirstPassIsExact(p: Params, at: Position, j2: U32, j1: U32)
    requires p.Fits() && at.Reachable(p) && at.pass == 0
    ensures RfcReference(p, at, j2, j1) == RefPos(p, at, j2, j1)
    ensures var r := RefPos(p, at, j2, j1);
            && r.lane < p.lanes && r.column < p.LaneBlocks()
            && r.column < if r.lane == at.lane then at.Column(p) else p.Start(at.slice)
  {
    hide Window, Place, Cyclic, Wrap, AreaSize, MulHi;
    var n := |Window(p, at, RefLane(p, at, j2) == at.lane)|;
    RefPosColumn(p, at, j2, j1, n);
    assert NoOverflow(p, at, j2, j1);
    RefPosMeetsRfc(p, at, j2, j1);
    RefersToCompleteBlock(p, at, j2, j1);
    RefPosStaysClear(p, at, j2, j1);
  }

  lemma StandardIsBackward(p: Params)
    requires p.Fits()
    ensures Backward(p, Standard(p))
  {
    hide RfcReference, RefPos;
    forall at: Position, s: Selector | at.pass == 0 && at.Reachable(p)
      ensures var c := Standard(p)(at, s);
              && c in Cells(p)
              && (c.lane == at.lane ==> c.column < at.Column(p))
              && (c.lane != at.lane ==> c.column < p.Start(at.slice))
    {
      FirstPassIsExact(p, at, s.j2, s.j1);
    }
  }

  /** The blocks that exist when the block at hand is filled, the lanes of a slice taken one after the other. */
  ghost predicate Exists(p: Params, at: Position, c: Cell) {
    || c.column < 2 || c.column < p.Start(at.slice)
    || (c.lane < at.lane && c.column < p.Start(at.slice + 1))
    || (c.lane == at.lane && c.column < at.Column(p))
  }

  ghost predicate AgreeUpTo<B>(p: Params, at: Position, x: Memory<B>, y: Memory<B>) {
    WellSized(p, x) && WellSized(p, y) && forall c | c in x && Exists(p, at, c) :: x[c] == y[c]
  }

  /** A step reads blocks that exist, and so writes the same block into both memories. */
  lemma StepAgrees<B>(m: Mapping, b: Blocks<B>, p: Params, x: Memory<B>, y: Memory<B>, at: Position)
    requires Backward(p, m) && at.pass == 0 && at.Reachable(p) && AgreeUpTo(p, at, x, y)
    ensures AgreeUpTo(p, at.(offset := at.offset + 1), Step(m, b, p, x, at), Step(m, b, p, y, at))
  {
    assert Exists(p, at, Preceding(p, at)) && Preceding(p, at) in x && Here(p, at) in x;
    var c := m(at, SelectorOf(b, p, at, x[Preceding(p, at)]));
    assert Exists(p, at, c) && c in x;
  }

  lemma {:induction false} SegmentAgrees<B>(m: Mapping, b: Blocks<B>, p: Params, x: Memory<B>, y: Memory<B>,
                                            slice: Slice, lane: nat, n: nat)
    requires Backward(p, m) && lane < p.lanes && FirstOffset(0, slice) <= n <= p.segmentBlocks
    requires AgreeUpTo(p, Position(0, lane, slice, FirstOffset(0, slice)), x, y)
    ensures AgreeUpTo(p, Position(0, lane, slice, n), FillSegment(m, b, p, x, 0, slice, lane, n),
                      FillSegment(m, b, p, y, 0, slice, lane, n))
    decreases n
  {
    hide Backward, AgreeUpTo, Step;
    if FirstOffset(0, slice) < n {
      SegmentAgrees(m, b, p, x, y, slice, lane, n - 1);
      var at := Position(0, lane, slice, n - 1);
      StepAgrees(m, b, p, FillSegment(m, b, p, x, 0, slice, lane, n - 1),
                 FillSegment(m, b, p, y, 0, slice, lane, n - 1), at);
      assert at.(offset := at.offset + 1) == Position(0, lane, slice, n);
    }
  }

  /** Where one segment ends the next one starts. */
  lemma NextLane<B>(p: Params, slice: Slice, lane: nat, x: Memory<B>, y: Memory<B>)
    requires AgreeUpTo(p, Position(0, lane, slice, p.segmentBlocks), x, y)
    ensures AgreeUpTo(p, Position(0, lane + 1, slice, FirstOffset(0, slice)), x, y)
  {
    var at, next := Position(0, lane, slice, p.segmentBlocks), Position(0, lane + 1, slice, FirstOffset(0, slice));
    assert forall c | c in x && Exists(p, next, c) :: Exists(p, at, c);
  }

  lemma {:induction false} SliceAgrees<B>(m: Mapping, b: Blocks<B>, p: Params, x: Memory<B>, y: Memory<B>, slice: Slice,
                                          l: nat)
    requires Backward(p, m) && l <= p.lanes && p.Fits()
    requires AgreeUpTo(p, Position(0, 0, slice, FirstOffset(0, slice)), x, y)
    ensures AgreeUpTo(p, Position(0, l, slice, FirstOffset(0, slice)), FillSlice(m, b, p, x, 0, slice, l),
                      FillSlice(m, b, p, y, 0, slice, l))
    decreases l
  {
    hide Backward, AgreeUpTo, FillSegment;
    if 0 < l {
      SliceAgrees(m, b, p, x, y, slice, l - 1);
      var x', y' := FillSlice(m, b, p, x, 0, slice, l - 1), FillSlice(m, b, p, y, 0, slice, l - 1);
      SegmentAgrees(m, b, p, x', y', slice, l - 1, p.segmentBlocks);
      NextLane(p, slice, l - 1, FillSegment(m, b, p, x', 0, slice, l - 1, p.segmentBlocks),
               FillSegment(m, b, p, y', 0, slice, l - 1, p.segmentBlocks));
    }
  }

  /** After the last lane of a slice everything below the next slice agrees. */
  lemma NextSlice<B>(p: Params, slice: Slice, x: Memory<B>, y: Memory<B>)
    requires p.Fits() && AgreeUpTo(p, Position(0, p.lanes, slice, FirstOffset(0, slice)), x, y)
    ensures slice < 3 ==> AgreeUpTo(p, Position(0, 0, slice + 1, 0), x, y)
    ensures slice == 3 ==> x == y
  {
    var at := Position(0, p.lanes, slice, FirstOffset(0, slice));
    assert forall c | c in x && c.column < p.Start(slice + 1) :: Exists(p, at, c);
  }

  lemma {:induction false} SlicesAgree<B>(m: Mapping, b: Blocks<B>, p: Params, x: Memory<B>, y: Memory<B>, n: nat)
    requires Backward(p, m) && n < SYNC_POINTS && p.Fits()
    requires AgreeUpTo(p, Position(0, 0, 0, 2), x, y)
    ensures AgreeUpTo(p, Position(0, 0, n, FirstOffset(0, n)), Fill(m, b, p, x, 0, n), Fill(m, b, p, y, 0, n))
    decreases n
  {
    hide Backward, AgreeUpTo, FillSlice;
    if 0 < n {
      SlicesAgree(m, b, p, x, y, n - 1);
      var x', y' := Fill(m, b, p, x, 0, n - 1), Fill(m, b, p, y, 0, n - 1);
      SliceAgrees(m, b, p, x', y', n - 1, p.lanes);
      NextSlice(p, n - 1, FillSlice(m, b, p, x', 0, n - 1, p.lanes), FillSlice(m, b, p, y', 0, n - 1, p.lanes));
    }
  }

  /** Memories with the same first two blocks in every lane are the same after the first pass. */
  lemma FirstPassForgets<B>(m: Mapping, b: Blocks<B>, p: Params, x: Memory<B>, y: Memory<B>)
    requires Backward(p, m) && WellSized(p, x) && WellSized(p, y)
    requires forall c | c in x && c.column < 2 :: x[c] == y[c]
    ensures Fill(m, b, p, x, 1, 0) == Fill(m, b, p, y, 1, 0)
  {
    hide Backward, FillSlice;
    assert AgreeUpTo(p, Position(0, 0, 0, 2), x, y);
    SlicesAgree(m, b, p, x, y, 3);
    var x', y' := Fill(m, b, p, x, 0, 3), Fill(m, b, p, y, 0, 3);
    SliceAgrees(m, b, p, x', y', 3, p.lanes);
    NextSlice(p, 3, FillSlice(m, b, p, x', 0, 3, p.lanes), FillSlice(m, b, p, y', 0, 3, p.lanes));
    assert Fill(m, b, p, x, 1, 0) == Fill(m, b, p, x, 0, 4) && Fill(m, b, p, y, 1, 0) == Fill(m, b, p, y, 0, 4);
  }
}
