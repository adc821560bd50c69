/**
 Which block a step of the fill refers to: the kernel's 32-bit computation (compute_ref_pos) and
 the mapping of section 3.4.2 of RFC 9106.
 */
module ReferenceIndex {

  import opened Bits

  type U32 = x: nat | x < TWO32

  const SYNC_POINTS := 4

  type Slice = s: nat | s < SYNC_POINTS

  /** Launch parameters; a valid Argon2 memory is a 32-bit number of blocks, at least 8 for every lane. */
  datatype Params = Params(lanes: nat, passes: nat, segmentBlocks: nat) {
    ghost predicate Valid() {
      && Fits() && 1 <= passes < TWO32
      && lanes * LaneBlocks() < TWO32
    }

    /** What the index computation relies on. */
    ghost predicate Fits() { 1 <= lanes < TWO32 && 2 <= segmentBlocks && LaneBlocks() < TWO32 }

    function LaneBlocks(): nat { SYNC_POINTS * segmentBlocks }

    /** s * segmentBlocks for the start of a segment, spelled out so that it is linear */
    function Start(s: nat): (r: nat)
      requires s <= SYNC_POINTS
    {
      if s == 0 then 0
      else if s == 1 then segmentBlocks
      else if s == 2 then 2 * segmentBlocks
      else if s == 3 then 3 * segmentBlocks
      else 4 * segmentBlocks
    }
  }

  /** A block to be filled; the first two blocks of a lane are filled before the kernel runs. */
  datatype Position = Position(pass: nat, lane: nat, slice: Slice, offset: nat) {
    ghost predicate Reachable(p: Params) {
      && lane < p.lanes && offset < p.segmentBlocks
      && (pass == 0 && slice == 0 ==> 2 <= offset)
    }

    function Column(p: Params): nat { p.Start(slice) + offset }
  }

  datatype Reference = Reference(lane: nat, column: nat)

  function Wrap(x: int): U32 { x % TWO32 }

  function MulHi(x: U32, y: U32): (r: U32)
    ensures r <= x && r <= y
    ensures 0 < x ==> r < x
  {
    HighHalf(x, y);
    HighHalf(y, x);
    x * y / TWO32
  }

  lemma HighHalf(x: nat, y: U32)
    ensures 0 <= x * y / TWO32 <= x
    ensures 0 < x ==> x * y / TWO32 < x
  {
    if 0 < x {
      Product(x, TWO32 - y);
      assert x * (TWO32 - y) == x * TWO32 - x * y;
      Product(x, y);
    } else {
      assert x * y == 0;
    }
  }

  // ------------------------------------------------------------ the kernel

  function RefLane(p: Params, at: Position, j2: U32): (r: nat)
    requires 1 <= p.lanes && at.lane < p.lanes
    ensures r < p.lanes
  {
    if at.pass == 0 && at.slice == 0 then at.lane else j2 % p.lanes
  }

  function Base(p: Params, at: Position): U32 {
    if at.pass != 0 then Wrap(Wrap(p.LaneBlocks()) - p.segmentBlocks) else Wrap(p.Start(at.slice))
  }

  function AreaSize(p: Params, at: Position, sameLane: bool): U32 {
    var size := Wrap(Base(p, at) + at.offset - 1);
    if !sameLane && Base(p, at) <= size then Base(p, at) else size
  }

  /** The column that a place in the area stands for, in 32-bit arithmetic. */
  function ColumnOfPlace(p: Params, at: Position, z: U32): nat {
    if at.pass == 0 || at.slice == SYNC_POINTS - 1 then z
    else Cyclic(Wrap(p.LaneBlocks()), Wrap(z + p.Start(at.slice + 1)))
  }

  /** Column c of a lane of n columns that are read cyclically. */
  function Cyclic(n: nat, c: nat): nat { if c < n then c else c - n }

  function RefPos(p: Params, at: Position, j2: U32, j1: U32): Reference
    requires 1 <= p.lanes && at.lane < p.lanes
  {
    var l := RefLane(p, at, j2);
    var size := AreaSize(p, at, l == at.lane);
    Reference(l, ColumnOfPlace(p, at, Wrap(size - 1 - MulHi(size, MulHi(j1, j1)))))
  }

  /** compute_ref_pos: every operation wraps modulo 2^32. */
  method ComputeRefPos(p: Params, at: Position, refLane0: U32, refIndex0: U32) returns (refLane: U32, refIndex: U32)
    requires 1 <= p.lanes < TWO32 && at.lane < p.lanes
    ensures Reference(refLane, refIndex) == RefPos(p, at, refLane0, refIndex0)
  {
    refLane, refIndex := refLane0, refIndex0;
    var laneBlocks := Wrap(p.LaneBlocks());
    refLane := refLane % p.lanes;
    var base: U32;
    if at.pass != 0 {
      base := Wrap(laneBlocks - p.segmentBlocks);
    } else {
      if at.slice == 0 {
        refLane := at.lane;
      }
      base := Wrap(p.Start(at.slice));
    }
    var refAreaSize := Wrap(base + at.offset - 1);
    if refLane != at.lane {
      refAreaSize := if refAreaSize < base then refAreaSize else base;
    }
    refIndex := MulHi(refIndex, refIndex);
    refIndex := Wrap(refAreaSize - 1 - MulHi(refAreaSize, refIndex));
    if at.pass != 0 && at.slice != SYNC_POINTS - 1 {
      refIndex := Wrap(refIndex + p.Start(at.slice + 1));
      if refIndex >= laneBlocks {
        refIndex := refIndex - laneBlocks;
      }
    }
  }

  /** One of the two differences that compute_ref_pos takes is negative before it wraps. */
  predicate Underflows(p: Params, at: Position, j2: U32, j1: U32)
    requires 1 <= p.lanes && at.lane < p.lanes
  {
    var size := AreaSize(p, at, RefLane(p, at, j2) == at.lane);
    Base(p, at) + at.offset - 1 < 0 || size - 1 - MulHi(size, MulHi(j1, j1)) < 0
  }

  // ------------------------------------------------------------ RFC 9106, section 3.4.2

  function Plus(x: nat, y: nat): nat { x + y }

  /** The first n columns of a segment. */
  function Segment(p: Params, s: Slice, n: nat): (r: seq<nat>)
    ensures |r| == n
  {
    seq(n, k requires 0 <= k < n => Plus(p.Start(s), k))
  }

  /** The segment that was filled n segments before `slice`. */
  function Before(slice: Slice, n: nat): Slice
    requires n <= 3
  {
    if n <= slice then slice - n else slice + SYNC_POINTS - n
  }

  /** The columns of the last n finished segments, oldest first, when `slice` is being filled. */
  function Finished(p: Params, slice: Slice, n: nat): (r: seq<nat>)
    requires n <= 3
    ensures |r| == p.Start(n)
    decreases n
  {
    if n == 0 then [] else Segment(p, Before(slice, n), p.segmentBlocks) + Finished(p, slice, n - 1)
  }

  function DropLast(s: seq<nat>): seq<nat> { if s == [] then s else s[..|s| - 1] }

  /** The number of finished segments that may be referred to. */
  function Segments(at: Position): (n: nat)
    ensures n <= 3
  {
    if at.pass == 0 then at.slice else SYNC_POINTS - 1
  }

  /**
   The set W of section 3.4.2, oldest first: the blocks of the finished segments, at most three of
   them, and in the current lane those of the current segment; without the predecessor of the
   current block in the current lane, and without the last one in another lane at the start of a segment.
   */
  function Window(p: Params, at: Position, sameLane: bool): seq<nat> {
    var finished := Finished(p, at.slice, Segments(at));
    if sameLane then DropLast(finished + Segment(p, at.slice, at.offset))
    else if at.offset == 0 then DropLast(finished)
    else finished
  }

  /** The place in W, a set of n blocks, that J1 selects. */
  function Place(n: nat, j1: U32): int {
    var x := j1 * j1 / TWO32;
    n - 1 - n * x / TWO32
  }

  /** The reference that section 3.4.2 derives from the 32-bit values J1 and J2. */
  function RfcReference(p: Params, at: Position, j2: U32, j1: U32): Reference
    requires 1 <= p.lanes && at.lane < p.lanes
  {
    var l := RefLane(p, at, j2);
    var w := Window(p, at, l == at.lane);
    var z := Place(|w|, j1);
    Reference(l, if 0 <= z < |w| then w[z] else 0)
  }

  // ------------------------------------------------------------ the two agree

  /** The first column of W: the start of the oldest finished segment that may be referred to. */
  function WindowStart(p: Params, at: Position): nat {
    if at.pass == 0 || at.slice == SYNC_POINTS - 1 then 0 else p.Start(at.slice + 1)
  }

  /** Moving to the next of n finished segments does not change the column. */
  lemma NextSegment(p: Params, slice: Slice, n: nat, k: nat)
    requires 1 <= n <= 3 && p.segmentBlocks <= k < p.Start(n)
    ensures k - p.segmentBlocks < p.Start(n - 1)
    ensures Cyclic(p.LaneBlocks(), p.Start(Before(slice, n)) + k)
         == Cyclic(p.LaneBlocks(), p.Start(Before(slice, n - 1)) + (k - p.segmentBlocks))
  {
  }

  lemma {:induction false} FinishedAt(p: Params, slice: Slice, n: nat, k: nat)
    requires n <= 3 && k < p.Start(n)
    ensures Finished(p, slice, n)[k] == Cyclic(p.LaneBlocks(), p.Start(Before(slice, n)) + k)
    decreases n
  {
    if k < p.segmentBlocks {
      assert Finished(p, slice, n)[k] == Segment(p, Before(slice, n), p.segmentBlocks)[k] == p.Start(Before(slice, n)) +
        k;
    } else {
      NextSegment(p, slice, n, k);
      FinishedAt(p, slice, n - 1, k - p.segmentBlocks);
      assert Finished(p, slice, n)[k] == Finished(p, slice, n - 1)[k - p.segmentBlocks];
    }
  }

  /** The segments before the current one start where W starts, and the current one follows them. */
  lemma CurrentSegment(p: Params, at: Position, k: nat)
    requires p.Start(Segments(at)) <= k < p.Start(Segments(at)) + p.segmentBlocks
    ensures Cyclic(p.LaneBlocks(), WindowStart(p, at) + k) == p.Start(at.slice) + (k - p.Start(Segments(at)))
  {
  }

  /** The set W is an interval of columns, read cyclically. */
  lemma WindowAt(p: Params, at: Position, sameLane: bool, k: nat)
    requires at.Reachable(p) && k < |Window(p, at, sameLane)|
    ensures Window(p, at, sameLane)[k] == Cyclic(p.LaneBlocks(), WindowStart(p, at) + k)
  {
    var w, f := Window(p, at, sameLane), Finished(p, at.slice, Segments(at));
    if k < |f| {
      assert w[k] == f[k];
      FinishedAt(p, at.slice, Segments(at), k);
      assert p.Start(Before(at.slice, Segments(at))) == WindowStart(p, at);
    } else {
      CurrentSegment(p, at, k);
      assert w[k] == Segment(p, at.slice, at.offset)[k - |f|] == p.Start(at.slice) + (k - |f|);
    }
  }

  lemma SizeOfWindow(p: Params, at: Position, sameLane: bool)
    requires p.Start(Segments(at)) + at.offset >= 1 && (!sameLane ==> p.Start(Segments(at)) >= 1)
    ensures var f := p.Start(Segments(at));
            |Window(p, at, sameLane)|
            == if sameLane then f + at.offset - 1 else if at.offset == 0 then f - 1 else f
  {
  }

  lemma BaseIsStart(p: Params, at: Position)
    requires p.Fits()
    ensures Base(p, at) == p.Start(Segments(at)) <= 3 * p.segmentBlocks
  {
  }

  lemma ReachableStart(p: Params, at: Position, sameLane: bool)
    requires p.Fits() && at.Reachable(p)
    requires at.pass == 0 && at.slice == 0 ==> sameLane
    ensures p.Start(Segments(at)) + at.offset >= 2 && (!sameLane ==> p.Start(Segments(at)) >= 2)
  {
  }

  /** In 32 bits the size of W is computed without loss, and there is always a block to refer to. */
  lemma AreaSizeIsWindowSize(p: Params, at: Position, sameLane: bool)
    requires p.Fits() && at.Reachable(p)
    requires at.pass == 0 && at.slice == 0 ==> sameLane
    ensures 1 <= AreaSize(p, at, sameLane) == |Window(p, at, sameLane)|
  {
    BaseIsStart(p, at);
    ReachableStart(p, at, sameLane);
    SizeOfWindow(p, at, sameLane);
  }

  /** The computation underflows exactly for the blocks that the kernel does not fill: the first two of a lane. */
  lemma UnderflowsIff(p: Params, at: Position, j2: U32, j1: U32)
    requires p.Fits() && at.lane < p.lanes && at.offset < p.segmentBlocks
    ensures Underflows(p, at, j2, j1) <==> at.pass == 0 && at.slice == 0 && at.offset < 2
  {
    var sameLane := RefLane(p, at, j2) == at.lane;
    if at.Reachable(p) {
      AreaSizeIsWindowSize(p, at, sameLane);
      ReachableStart(p, at, sameLane);
      BaseIsStart(p, at);
    }
  }

  lemma WindowBound(p: Params, at: Position, sameLane: bool)
    requires p.Fits() && at.Reachable(p)
    requires at.pass == 0 && at.slice == 0 ==> sameLane
    ensures |Window(p, at, sameLane)| <= p.Start(3) + at.offset - 1
  {
  }

  lemma PlaceInWindow(n: nat, j1: U32)
    requires 1 <= n < TWO32
    ensures 0 <= Place(n, j1) < n
    ensures Place(n, j1) == n - 1 - MulHi(n, MulHi(j1, j1))
  {
    HighHalf(j1, j1);
    HighHalf(n, j1 * j1 / TWO32);
  }

  lemma ColumnOfPlaceIsCyclic(p: Params, at: Position, z: nat)
    requires p.Fits() && z < p.LaneBlocks()
    ensures Wrap(z) == z
    ensures ColumnOfPlace(p, at, z) == Cyclic(p.LaneBlocks(), Wrap(WindowStart(p, at) + z))
  {
  }

  /** The kernel adds the start of W to the place in 32 bits, and only then reduces it to a column. */
  lemma RefPosColumn(p: Params, at: Position, j2: U32, j1: U32, n: nat)
    requires p.Fits() && at.Reachable(p)
    requires n == |Window(p, at, RefLane(p, at, j2) == at.lane)|
    ensures 0 <= Place(n, j1) < n <= p.Start(3) + at.offset - 1
    ensures RefPos(p, at, j2, j1).column == Cyclic(p.LaneBlocks(), Wrap(WindowStart(p, at) + Place(n, j1)))
    ensures RfcReference(p, at, j2, j1).column == Cyclic(p.LaneBlocks(), WindowStart(p, at) + Place(n, j1))
  {
    var sameLane := RefLane(p, at, j2) == at.lane;
    AreaSizeIsWindowSize(p, at, sameLane);
    WindowBound(p, at, sameLane);
    PlaceInWindow(n, j1);
    var z := Place(n, j1);
    WindowAt(p, at, sameLane, z);
    ColumnOfPlaceIsCyclic(p, at, z);
    assert RefPos(p, at, j2, j1).column == ColumnOfPlace(p, at, Wrap(z));
  }

  /** The sum of the kernel does not leave 32 bits. */
  ghost predicate NoOverflow(p: Params, at: Position, j2: U32, j1: U32)
    requires 1 <= p.lanes && at.lane < p.lanes
  {
    WindowStart(p, at) + Place(|Window(p, at, RefLane(p, at, j2) == at.lane)|, j1) < TWO32
  }

  /** compute_ref_pos is the mapping of the standard exactly when its sum does not wrap. */
  lemma RefPosMeetsRfc(p: Params, at: Position, j2: U32, j1: U32)
    requires p.Fits() && at.Reachable(p)
    ensures RefPos(p, at, j2, j1) == RfcReference(p, at, j2, j1) <==> NoOverflow(p, at, j2, j1)
  {
    var n := |Window(p, at, RefLane(p, at, j2) == at.lane)|;
    RefPosColumn(p, at, j2, j1, n);
    CyclicWrap(p.LaneBlocks(), WindowStart(p, at) + Place(n, j1));
  }

  lemma CyclicWrap(n: nat, sum: nat)
    requires n < TWO32 && sum < 2 * n
    ensures Cyclic(n, Wrap(sum)) == Cyclic(n, sum) <==> sum < TWO32
  {
  }

  /** On a launch, compute_ref_pos never departs from the standard. */
  ghost predicate AlwaysMeetsRfc(p: Params)
    requires 1 <= p.lanes
  {
    forall at: Position, j2: U32, j1: U32 | at.pass < p.passes && at.Reachable(p) ::
      RefPos(p, at, j2, j1) == RfcReference(p, at, j2, j1)
  }

  /**
   The launches on which the index computation is exact: those with one pass, as this miner uses,
   and those whose segments are short enough for the sum to stay within 32 bits.
   */
  lemma AlwaysMeetsRfcIff(p: Params)
    requires p.Fits() && 1 <= p.passes
    ensures AlwaysMeetsRfc(p) <==> p.passes == 1 || 7 * p.segmentBlocks - 3 < TWO32
  {
    if p.passes == 1 || 7 * p.segmentBlocks - 3 < TWO32 {
      forall at: Position, j2: U32, j1: U32 | at.pass < p.passes && at.Reachable(p)
        ensures RefPos(p, at, j2, j1) == RfcReference(p, at, j2, j1)
      {
        RefPosColumn(p, at, j2, j1, |Window(p, at, RefLane(p, at, j2) == at.lane)|);
        RefPosMeetsRfc(p, at, j2, j1);
      }
    } else {
      OverflowWitness(p);
      var at := Position(1, 0, 2, p.segmentBlocks - 1);
      assert RefPos(p, at, 0, 0) != RfcReference(p, at, 0, 0);
    }
  }

  /** The input on which long segments go wrong: the last block of the third slice, with J1 = J2 = 0. */
  lemma OverflowWitness(p: Params)
    requires p.Fits() && 7 * p.segmentBlocks - 3 >= TWO32
    ensures var at := Position(1, 0, 2, p.segmentBlocks - 1);
            at.Reachable(p) && RefPos(p, at, 0, 0) != RfcReference(p, at, 0, 0)
  {
    var at := Position(1, 0, 2, p.segmentBlocks - 1);
    SelectedByZero(p, at);
    RefPosMeetsRfc(p, at, 0, 0);
  }

  lemma SelectedByZero(p: Params, at: Position)
    requires p.Fits() && 7 * p.segmentBlocks - 3 >= TWO32 && at == Position(1, 0, 2, p.segmentBlocks - 1)
    ensures !NoOverflow(p, at, 0, 0)
  {
    assert |Window(p, at, true)| == 4 * p.segmentBlocks - 2;
    assert Place(4 * p.segmentBlocks - 2, 0) == 4 * p.segmentBlocks - 3;
  }

  /** Wrapping or not, a reference stays inside the memory, and never meets the segment another lane is filling. */
  lemma RefPosStaysClear(p: Params, at: Position, j2: U32, j1: U32)
    requires p.Fits() && at.Reachable(p)
    ensures var r := RefPos(p, at, j2, j1);
            && r.lane < p.lanes && r.column < p.LaneBlocks()
            && (r.lane != at.lane ==> r.column < p.Start(at.slice) || p.Start(at.slice + 1) <= r.column)
  {
    hide Place, Window, MulHi, AreaSize, ColumnOfPlace, Cyclic, Wrap;
    var n := |Window(p, at, RefLane(p, at, j2) == at.lane)|;
    RefPosColumn(p, at, j2, j1, n);
    var z := Place(n, j1);
    var r := RefPos(p, at, j2, j1);
    ColumnInLane(p, at, z);
    if r.lane != at.lane {
      WindowSize(p, at, false);
      OutsideSegment(p, at, z);
    }
  }

  lemma ColumnInLane(p: Params, at: Position, z: nat)
    requires p.Fits() && at.Reachable(p) && z < p.Start(3) + at.offset - 1
    ensures Cyclic(p.LaneBlocks(), Wrap(WindowStart(p, at) + z)) < p.LaneBlocks()
  {
    var sum := WindowStart(p, at) + z;
    assert Wrap(sum) == if sum < TWO32 then sum else sum - TWO32;
  }

  lemma OutsideSegment(p: Params, at: Position, z: nat)
    requires p.Fits() && at.Reachable(p) && z < p.Start(Segments(at))
    ensures var c := Cyclic(p.LaneBlocks(), Wrap(WindowStart(p, at) + z));
            c < p.Start(at.slice) || p.Start(at.slice + 1) <= c
  {
    var sum := WindowStart(p, at) + z;
    assert Wrap(sum) == if sum < TWO32 then sum else sum - TWO32;
  }

  /** The block referred to is complete and is neither the block at hand nor, in its lane, the one before it. */
  ghost predicate Complete(p: Params, at: Position, r: Reference) {
    var here := at.Column(p);
    && (r.lane == at.lane ==> r.column != here && r.column != (if here == 0 then p.LaneBlocks() else here) - 1)
    && (at.pass == 0 ==> r.column < if r.lane == at.lane then here - 1 else p.Start(at.slice))
  }

  lemma WindowSize(p: Params, at: Position, sameLane: bool)
    requires at.Reachable(p)
    ensures |Window(p, at, sameLane)| <= if sameLane then p.Start(Segments(at)) + at.offset - 1
      else p.Start(Segments(at))
  {
  }

  lemma PlaceIsComplete(p: Params, at: Position, r: Reference, z: nat)
    requires p.Fits() && at.Reachable(p)
    requires z < |Window(p, at, r.lane == at.lane)|
    requires r.column == Cyclic(p.LaneBlocks(), WindowStart(p, at) + z)
    ensures Complete(p, at, r)
  {
    WindowSize(p, at, r.lane == at.lane);
    if r.lane == at.lane { NotRecent(p, at, z); } else { EarlierSegment(p, at, z); }
  }

  /** The kernel refers to complete blocks only, also where its sum wraps and it departs from the standard. */
  lemma RefersToCompleteBlock(p: Params, at: Position, j2: U32, j1: U32)
    requires p.Fits() && at.Reachable(p)
    ensures Complete(p, at, RefPos(p, at, j2, j1))
  {
    hide Place, MulHi, Window, AreaSize, ColumnOfPlace, Cyclic, Wrap;
    var r := RefPos(p, at, j2, j1);
    var n := |Window(p, at, r.lane == at.lane)|;
    RefPosColumn(p, at, j2, j1, n);
    var z := Place(n, j1);
    if NoOverflow(p, at, j2, j1) {
      RefPosMeetsRfc(p, at, j2, j1);
      PlaceIsComplete(p, at, r, z);
    } else {
      WrappedIsClear(p, at, z);
    }
  }

  /** A sum only wraps from the second pass on, and then to a column below the current block and its predecessor. */
  lemma WrappedIsClear(p: Params, at: Position, z: nat)
    requires p.Fits() && at.Reachable(p)
    requires z < p.Start(3) + at.offset - 1 && WindowStart(p, at) + z >= TWO32
    ensures var c, here := Cyclic(p.LaneBlocks(), Wrap(WindowStart(p, at) + z)), at.Column(p);
            at.pass != 0 && c < here - 1
  {
    var sum := WindowStart(p, at) + z;
    assert Wrap(sum) == sum - TWO32;
  }

  lemma EarlierSegment(p: Params, at: Position, z: nat)
    requires p.Fits() && at.Reachable(p) && z < p.Start(Segments(at))
    ensures at.pass == 0 ==> Cyclic(p.LaneBlocks(), WindowStart(p, at) + z) < p.Start(at.slice)
  {
  }

  lemma NotRecent(p: Params, at: Position, z: nat)
    requires p.Fits() && at.Reachable(p) && z + 1 < p.Start(Segments(at)) + at.offset
    ensures var c, here := Cyclic(p.LaneBlocks(), WindowStart(p, at) + z), at.Column(p);
            && c != here && c != (if here == 0 then p.LaneBlocks() else here) - 1
            && (at.pass == 0 ==> c < here - 1)
  {
  }

  /** Every block of W can be selected by its own place: no column occurs twice. */
  lemma WindowIsInjective(p: Params, at: Position, sameLane: bool, i: nat, j: nat)
    requires p.Fits() && at.Reachable(p) && (at.pass == 0 && at.slice == 0 ==> sameLane)
    requires i < j < |Window(p, at, sameLane)|
    ensures Window(p, at, sameLane)[i] != Window(p, at, sameLane)[j]
  {
    WindowAt(p, at, sameLane, i);
    WindowAt(p, at, sameLane, j);
    WindowBound(p, at, sameLane);
  }
}
