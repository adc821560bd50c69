/**
 The lanes of a memory run concurrently between the barriers that end a slice.  Every lane step
 reads a block that may belong to another lane and later writes a block of its own; here the two
 are separate actions that any other lane may come between.
 */
module LaneInterleaving {
  import opened ReferenceIndex
  import opened ArgonFill
  import opened Options

  /** A slice of a pass, with the references and block operations in use. */
  datatype Context<!B> = Context(m: Mapping, b: Blocks<B>, p: Params, pass: nat, slice: Slice) {
    ghost predicate Valid() { p.Fits() && Admissible(p, m) }

    function At(lane: nat, offset: nat): Position { Position(pass, lane, slice, offset) }

    function First(): nat { FirstOffset(pass, slice) }
  }

  /** Where a lane stands: the next offset, the block before it, and the reference block once it is loaded. */
  datatype LaneState<B> = LaneState(offset: nat, previous: B, fetched: Option<B>)

  datatype Solo<B> = Solo(mem: Memory<B>, lane: LaneState<B>)

  datatype State<B> = State(mem: Memory<B>, lanes: seq<LaneState<B>>)

  /** One action of a lane: load the reference block, or compute and store the new block. */
  function Act<B>(c: Context<B>, mem: Memory<B>, l: nat, s: LaneState<B>): Solo<B> {
    var at := c.At(l, s.offset);
    if s.offset >= c.p.segmentBlocks then Solo(mem, s)
    else match s.fetched
      case None =>
        var reference := Read(c.b, mem, c.m(at, SelectorOf(c.b, c.p, at, s.previous)));
        Solo(mem, s.(fetched := Some(reference)))
      case Some(reference) =>
        var block := c.b.NewBlock(s.previous, reference, Read(c.b, mem, Here(c.p, at)), c.pass);
        Solo(mem[Here(c.p, at) := block], LaneState(s.offset + 1, block, None))
  }

  function Initial<B>(c: Context<B>, mem: Memory<B>, l: nat): LaneState<B> {
    LaneState(c.First(), Read(c.b, mem, Preceding(c.p, c.At(l, c.First()))), None)
  }

  /** Lane l after k actions, when no other lane runs. */
  function Alone<B>(c: Context<B>, mem: Memory<B>, l: nat, k: nat): Solo<B> {
    if k == 0 then Solo(mem, Initial(c, mem, l))
    else var s := Alone(c, mem, l, k - 1); Act(c, s.mem, l, s.lane)
  }

  function InitialState<B>(c: Context<B>, mem: Memory<B>): State<B> {
    State(mem, seq(c.p.lanes, l requires 0 <= l => Initial(c, mem, l)))
  }

  /** One action of lane l, if there is such a lane. */
  function ActIn<B>(c: Context<B>, s: State<B>, l: nat): (r: State<B>)
    ensures |r.lanes| == |s.lanes|
  {
    if l < |s.lanes| then var a := Act(c, s.mem, l, s.lanes[l]); State(a.mem, s.lanes[l := a.lane]) else s
  }

  /** The state after the lanes act in the order of the schedule. */
  function Run<B>(c: Context<B>, s: State<B>, schedule: seq<nat>): (r: State<B>)
    ensures |r.lanes| == |s.lanes|
  {
    if schedule == [] then s
    else ActIn(c, Run(c, s, schedule[..|schedule| - 1]), schedule[|schedule| - 1])
  }

  function Count(schedule: seq<nat>, l: nat): nat {
    if schedule == [] then 0
    else Count(schedule[..|schedule| - 1], l) + if schedule[|schedule| - 1] == l then 1 else 0
  }

  ghost predicate Complete<B>(c: Context<B>, s: State<B>) {
    forall l | 0 <= l < |s.lanes| :: s.lanes[l].offset >= c.p.segmentBlocks
  }

  // ------------------------------------------------------------ one lane on its own

  ghost predicate InSegment<B>(c: Context<B>, cell: Cell) {
    c.p.Start(c.slice) <= cell.column < c.p.Start(c.slice + 1)
  }

  /** A lane writes blocks of its own segment only. */
  lemma {:induction false} AloneFrame<B>(c: Context<B>, mem: Memory<B>, l: nat, k: nat)
    requires c.Valid() && mem.Keys == Cells(c.p) && l < c.p.lanes
    ensures var s := Alone(c, mem, l, k);
            && s.mem.Keys == mem.Keys
            && c.First() <= s.lane.offset <= c.p.segmentBlocks
            && forall cell | cell in mem && (cell.lane != l || !InSegment(c, cell)) :: s.mem[cell] == mem[cell]
  {
    if 0 < k {
      AloneFrame(c, mem, l, k - 1);
    }
  }

  /** A lane that has finished stays as it is. */
  lemma {:induction false} AloneFixed<B>(c: Context<B>, mem: Memory<B>, l: nat, k: nat, k': nat)
    requires k <= k' && Alone(c, mem, l, k).lane.offset >= c.p.segmentBlocks
    ensures Alone(c, mem, l, k') == Alone(c, mem, l, k)
    decreases k'
  {
    if k < k' {
      AloneFixed(c, mem, l, k, k' - 1);
    }
  }

  lemma AloneUnique<B>(c: Context<B>, mem: Memory<B>, l: nat, k: nat, k': nat)
    requires Alone(c, mem, l, k).lane.offset >= c.p.segmentBlocks
      && Alone(c, mem, l, k').lane.offset >= c.p.segmentBlocks
    ensures Alone(c, mem, l, k) == Alone(c, mem, l, k')
  {
    if k <= k' { AloneFixed(c, mem, l, k, k'); } else { AloneFixed(c, mem, l, k', k); }
  }

  // ------------------------------------------------------------ all lanes together

  /** After a schedule, every lane and its blocks are as if the lane had run alone. */
  ghost predicate AsIfAlone<B>(c: Context<B>, mem: Memory<B>, s: State<B>, count: nat -> nat) {
    && |s.lanes| == c.p.lanes
    && s.mem.Keys == mem.Keys
    && (forall l | 0 <= l < c.p.lanes :: s.lanes[l] == Alone(c, mem, l, count(l)).lane)
    && (forall cell | cell in mem :: cell in Alone(c, mem, cell.lane, count(cell.lane)).mem
                                  && s.mem[cell] == Alone(c, mem, cell.lane, count(cell.lane)).mem[cell])
  }

  lemma ReferenceIsClear<B>(c: Context<B>, at: Position, sel: Selector)
    requires c.Valid() && at.Reachable(c.p) && at.slice == c.slice
    ensures c.m(at, sel) in Cells(c.p) && (c.m(at, sel).lane != at.lane ==> !InSegment(c, c.m(at, sel)))
  {
  }

  lemma OutsideIsUntouched<B>(c: Context<B>, mem: Memory<B>, l: nat, k: nat, cell: Cell)
    requires c.Valid() && mem.Keys == Cells(c.p) && l < c.p.lanes && cell in mem && !InSegment(c, cell)
    ensures cell in Alone(c, mem, l, k).mem && Alone(c, mem, l, k).mem[cell] == mem[cell]
  {
    AloneFrame(c, mem, l, k);
  }

  /** What lane l reads through a reference is what it would read if it had run alone. */
  lemma SameReference<B>(c: Context<B>, mem: Memory<B>, s: State<B>, count: nat -> nat, l: nat, at: Position,
                         sel: Selector)
    requires c.Valid() && mem.Keys == Cells(c.p) && l < c.p.lanes
    requires AsIfAlone(c, mem, s, count)
    requires at == c.At(l, at.offset) && at.Reachable(c.p)
    ensures var cell := c.m(at, sel);
            cell in s.mem && cell in Alone(c, mem, l, count(l)).mem
              && s.mem[cell] == Alone(c, mem, l, count(l)).mem[cell]
  {
    var cell := c.m(at, sel);
    ReferenceIsClear(c, at, sel);
    if cell.lane != l {
      OutsideIsUntouched(c, mem, l, count(l), cell);
      OutsideIsUntouched(c, mem, cell.lane, count(cell.lane), cell);
    } else {
      AloneFrame(c, mem, l, count(l));
    }
  }

  /** The cell that a lane at the given place reads next through its reference. */
  function NextReference<B>(c: Context<B>, l: nat, s: LaneState<B>): Cell {
    var at := c.At(l, s.offset); c.m(at, SelectorOf(c.b, c.p, at, s.previous))
  }

  /** An action depends on the blocks of its own lane and on the block it refers to. */
  lemma ActDependsOn<B>(c: Context<B>, mem: Memory<B>, mem': Memory<B>, l: nat, s: LaneState<B>)
    requires mem.Keys == mem'.Keys == Cells(c.p) && l < c.p.lanes && c.First() <= s.offset
    requires forall cell | cell in mem && cell.lane == l :: mem[cell] == mem'[cell]
    requires s.offset < c.p.segmentBlocks ==>
      Read(c.b, mem, NextReference(c, l, s)) == Read(c.b, mem', NextReference(c, l, s))
    ensures var a, a' := Act(c, mem, l, s), Act(c, mem', l, s);
            && a.lane == a'.lane && a.mem.Keys == a'.mem.Keys == mem.Keys
            && forall cell | cell in mem :: a.mem[cell] == if cell.lane == l then a'.mem[cell] else mem[cell]
  {
    assert s.offset < c.p.segmentBlocks ==> Here(c.p, c.At(l, s.offset)) in mem;
  }

  /** An action of lane l has the effect that it has when the lane runs alone, and changes no other lane's blocks. */
  lemma ActSame<B>(c: Context<B>, mem: Memory<B>, s: State<B>, count: nat -> nat, l: nat)
    requires c.Valid() && mem.Keys == Cells(c.p) && l < c.p.lanes
    requires AsIfAlone(c, mem, s, count)
    ensures var alone := Alone(c, mem, l, count(l));
            var a, a' := Act(c, s.mem, l, alone.lane), Act(c, alone.mem, l, alone.lane);
            && a.lane == a'.lane && a.mem.Keys == a'.mem.Keys == mem.Keys
            && forall cell | cell in mem :: a.mem[cell] == if cell.lane == l then a'.mem[cell] else s.mem[cell]
  {
    var alone := Alone(c, mem, l, count(l));
    AloneFrame(c, mem, l, count(l));
    if alone.lane.offset < c.p.segmentBlocks {
      var at := c.At(l, alone.lane.offset);
      SameReference(c, mem, s, count, l, at, SelectorOf(c.b, c.p, at, alone.lane.previous));
    }
    ActDependsOn(c, s.mem, alone.mem, l, alone.lane);
  }

  /** Any further action of a lane keeps the lanes as if each had run alone. */
  lemma ActAsIfAlone<B>(c: Context<B>, mem: Memory<B>, s: State<B>, count: nat -> nat, l: nat, count': nat -> nat)
    requires c.Valid() && mem.Keys == Cells(c.p)
    requires AsIfAlone(c, mem, s, count)
    requires forall k :: count'(k) == count(k) + if k == l then 1 else 0
    ensures AsIfAlone(c, mem, ActIn(c, s, l), count')
  {
    if l < c.p.lanes {
      ActSame(c, mem, s, count, l);
      var alone := Alone(c, mem, l, count(l));
      assert Alone(c, mem, l, count'(l)) == Act(c, alone.mem, l, alone.lane);
    }
  }

  lemma {:induction false} RunAsIfAlone<B>(c: Context<B>, mem: Memory<B>, schedule: seq<nat>)
    requires c.Valid() && mem.Keys == Cells(c.p)
    ensures AsIfAlone(c, mem, Run(c, InitialState(c, mem), schedule), l => Count(schedule, l))
  {
    if schedule != [] {
      var n := |schedule| - 1;
      RunAsIfAlone(c, mem, schedule[..n]);
      ActAsIfAlone(c, mem, Run(c, InitialState(c, mem), schedule[..n]), l => Count(schedule[..n], l),
                   schedule[n], l => Count(schedule, l));
    }
  }

  /** Whatever the order in which the lanes act, once all of them have finished the memory is the same. */
  lemma CompleteRunsAgree<B>(c: Context<B>, mem: Memory<B>, schedule: seq<nat>, schedule': seq<nat>)
    requires c.Valid() && mem.Keys == Cells(c.p)
    requires Complete(c, Run(c, InitialState(c, mem), schedule))
    requires Complete(c, Run(c, InitialState(c, mem), schedule'))
    ensures Run(c, InitialState(c, mem), schedule).mem == Run(c, InitialState(c, mem), schedule').mem
  {
    hide Run, Alone, Complete, Count;
    var s, s' := Run(c, InitialState(c, mem), schedule), Run(c, InitialState(c, mem), schedule');
    RunAsIfAlone(c, mem, schedule);
    RunAsIfAlone(c, mem, schedule');
    forall cell | cell in mem ensures s.mem[cell] == s'.mem[cell] {
      AgreeAt(c, mem, s, s', l => Count(schedule, l), l => Count(schedule', l), cell);
    }
  }

  lemma AgreeAt<B>(c: Context<B>, mem: Memory<B>, s: State<B>, s': State<B>, count: nat -> nat, count': nat -> nat,
                   cell: Cell)
    requires AsIfAlone(c, mem, s, count) && AsIfAlone(c, mem, s', count') && Complete(c, s) && Complete(c, s')
    requires cell in mem && cell.lane < c.p.lanes
    ensures s.mem[cell] == s'.mem[cell]
  {
    AloneUnique(c, mem, cell.lane, count(cell.lane), count'(cell.lane));
  }

  // ------------------------------------------------------------ blocks are not torn
  //
  // Loading or storing a block is one action here, while the kernel moves its words one by one. That makes no
  // difference: until a lane acts again, nobody writes what it reads or reads what it writes.

  lemma {:induction false} CountOfOthers(schedule: seq<nat>, more: seq<nat>, l: nat)
    requires l !in more
    ensures Count(schedule + more, l) == Count(schedule, l)
  {
    if more == [] {
      assert schedule + more == schedule;
    } else {
      var all, k := schedule + more, |more| - 1;
      assert all[..|all| - 1] == schedule + more[..k] && all[|all| - 1] == more[k];
      CountOfOthers(schedule, more[..k], l);
    }
  }

  /** While only other lanes act, the blocks outside their segments, and the lane itself, stay as they are. */
  lemma OthersLeaveBlocks<B>(c: Context<B>, mem: Memory<B>, schedule: seq<nat>, more: seq<nat>, l: nat)
    requires c.Valid() && mem.Keys == Cells(c.p) && l < c.p.lanes && l !in more
    ensures var s, s' := Run(c, InitialState(c, mem), schedule), Run(c, InitialState(c, mem), schedule + more);
            && s'.lanes[l] == s.lanes[l] && s.mem.Keys == s'.mem.Keys == mem.Keys
            && forall cell | cell in mem && (cell.lane == l || !InSegment(c, cell)) :: s'.mem[cell] == s.mem[cell]
  {
    RunAsIfAlone(c, mem, schedule);
    RunAsIfAlone(c, mem, schedule + more);
    CountOfOthers(schedule, more, l);
    forall cell | cell in mem && cell.lane != l && !InSegment(c, cell)
      ensures Run(c, InitialState(c, mem), schedule).mem[cell] == mem[cell]
           == Run(c, InitialState(c, mem), schedule + more).mem[cell]
    {
      OutsideIsUntouched(c, mem, cell.lane, Count(schedule, cell.lane), cell);
      OutsideIsUntouched(c, mem, cell.lane, Count(schedule + more, cell.lane), cell);
    }
  }

  /** The block that a lane is about to write. */
  function NextWritten<B>(c: Context<B>, l: nat, s: LaneState<B>): Cell { Here(c.p, c.At(l, s.offset)) }

  /** What an unfinished lane reads and writes next. */
  lemma NextCells<B>(c: Context<B>, mem: Memory<B>, l: nat, k: nat)
    requires c.Valid() && mem.Keys == Cells(c.p) && l < c.p.lanes
    requires Alone(c, mem, l, k).lane.offset < c.p.segmentBlocks
    ensures var s := Alone(c, mem, l, k).lane;
            var read, written := NextReference(c, l, s), NextWritten(c, l, s);
            && read in mem && (read.lane == l || !InSegment(c, read))
            && written in mem && written.lane == l && InSegment(c, written)
  {
    AloneFrame(c, mem, l, k);
    var s := Alone(c, mem, l, k).lane;
    var at := c.At(l, s.offset);
    ReferenceIsClear(c, at, SelectorOf(c.b, c.p, at, s.previous));
  }

  /**
   While only other lanes act, the block that a lane is about to read through its reference and the one that it
   is about to write stay as they are, and no reference of another lane leads to the latter.
   */
  lemma BlocksAreNotTorn<B>(c: Context<B>, mem: Memory<B>, schedule: seq<nat>, more: seq<nat>, l: nat)
    requires c.Valid() && mem.Keys == Cells(c.p) && l < c.p.lanes && l !in more
    requires Run(c, InitialState(c, mem), schedule).lanes[l].offset < c.p.segmentBlocks
    ensures var s, s' := Run(c, InitialState(c, mem), schedule), Run(c, InitialState(c, mem), schedule + more);
            var read, written := NextReference(c, l, s.lanes[l]), NextWritten(c, l, s.lanes[l]);
            && read in mem && written in mem
            && s'.mem.Keys == s.mem.Keys == mem.Keys
            && s'.mem[read] == s.mem[read] && s'.mem[written] == s.mem[written]
            && forall k: nat | k < c.p.lanes && k != l && s'.lanes[k].offset < c.p.segmentBlocks ::
                 NextReference(c, k, s'.lanes[k]) != written
  {
    OthersLeaveBlocks(c, mem, schedule, more, l);
    RunAsIfAlone(c, mem, schedule);
    RunAsIfAlone(c, mem, schedule + more);
    NextCells(c, mem, l, Count(schedule, l));
    var s' := Run(c, InitialState(c, mem), schedule + more);
    forall k: nat | k < c.p.lanes && k != l && s'.lanes[k].offset < c.p.segmentBlocks
      ensures NextReference(c, k, s'.lanes[k]).lane == k || !InSegment(c, NextReference(c, k, s'.lanes[k]))
    {
      NextCells(c, mem, k, Count(schedule + more, k));
    }
  }

  // ------------------------------------------------------------ the sequential fill is one of the orders

  /** Two actions for every block of a segment that the kernel fills. */
  function Actions<B>(c: Context<B>): nat {
    if c.First() <= c.p.segmentBlocks then 2 * (c.p.segmentBlocks - c.First()) else 0
  }

  function ActTwice<B>(c: Context<B>, l: nat, s: Solo<B>): Solo<B> {
    var s' := Act(c, s.mem, l, s.lane); Act(c, s'.mem, l, s'.lane)
  }

  lemma AloneTwice<B>(c: Context<B>, mem: Memory<B>, l: nat, k: nat)
    ensures Alone(c, mem, l, k + 2) == ActTwice(c, l, Alone(c, mem, l, k))
  {
    assert Alone(c, mem, l, k + 1) == Act(c, Alone(c, mem, l, k).mem, l, Alone(c, mem, l, k).lane);
  }

  /** Lane l about to fill the block at offset n. */
  function ReadyFor<B>(c: Context<B>, l: nat, mem: Memory<B>, n: nat): Solo<B> {
    Solo(mem, LaneState(n, Read(c.b, mem, Preceding(c.p, c.At(l, n))), None))
  }

  /** The two actions on a block are one step of the fill. */
  lemma TwoActions<B>(c: Context<B>, mem: Memory<B>, l: nat, n: nat)
    requires c.p.Fits() && n < c.p.segmentBlocks
    ensures ActTwice(c, l, ReadyFor(c, l, mem, n)) == ReadyFor(c, l, Step(c.m, c.b, c.p, mem, c.At(l, n)), n + 1)
  {
    assert Preceding(c.p, c.At(l, n + 1)) == Here(c.p, c.At(l, n));
  }

  lemma AloneOneBlockMore<B>(c: Context<B>, mem: Memory<B>, l: nat, k: nat, filled: Memory<B>, n: nat)
    requires c.p.Fits() && n < c.p.segmentBlocks && Alone(c, mem, l, k) == ReadyFor(c, l, filled, n)
    ensures Alone(c, mem, l, k + 2) == ReadyFor(c, l, Step(c.m, c.b, c.p, filled, c.At(l, n)), n + 1)
  {
    AloneTwice(c, mem, l, k);
    TwoActions(c, filled, l, n);
  }

  /** The memory grows by one block of the lane's segment from n to n + 1. */
  ghost predicate GrowsAt<B>(c: Context<B>, l: nat, filled: nat -> Memory<B>, n: nat) {
    filled(n + 1) == Step(c.m, c.b, c.p, filled(n), c.At(l, n))
  }

  ghost predicate Grows<B>(c: Context<B>, l: nat, filled: nat -> Memory<B>) {
    forall n: nat {:trigger GrowsAt(c, l, filled, n)} | c.First() <= n :: GrowsAt(c, l, filled, n)
  }

  lemma AloneGrowsAt<B>(c: Context<B>, mem: Memory<B>, l: nat, k: nat, n: nat, filled: nat -> Memory<B>)
    requires c.p.Fits() && c.First() <= n < c.p.segmentBlocks && Grows(c, l, filled)
    requires Alone(c, mem, l, k) == ReadyFor(c, l, filled(n), n)
    ensures Alone(c, mem, l, k + 2) == ReadyFor(c, l, filled(n + 1), n + 1)
  {
    AloneOneBlockMore(c, mem, l, k, filled(n), n);
    assert GrowsAt(c, l, filled, n);
  }

  lemma NothingFilledYet<B>(c: Context<B>, mem: Memory<B>, l: nat)
    ensures Alone(c, mem, l, 0) == ReadyFor(c, l, mem, c.First())
  {
  }

  /** Two actions for each of the first i blocks. */
  lemma {:induction false} AloneGrows<B>(c: Context<B>, mem: Memory<B>, l: nat, i: nat, k: nat, n: nat,
                                         filled: nat -> Memory<B>)
    requires c.p.Fits() && n == c.First() + i <= c.p.segmentBlocks && k == 2 * i
    requires Grows(c, l, filled) && filled(c.First()) == mem
    ensures Alone(c, mem, l, k) == ReadyFor(c, l, filled(n), n)
  {
    hide Alone, ReadyFor, Grows;
    if i == 0 {
      NothingFilledYet(c, mem, l);
    } else {
      AloneGrows(c, mem, l, i - 1, k - 2, n - 1, filled);
      AloneGrowsAt(c, mem, l, k - 2, n - 1, filled);
    }
  }

  /** A lane alone fills its segment. */
  lemma AloneFills<B>(c: Context<B>, mem: Memory<B>, l: nat)
    requires c.p.Fits()
    ensures var n := c.p.segmentBlocks;
            Alone(c, mem, l, Actions(c)) == ReadyFor(c, l, FillSegment(c.m, c.b, c.p, mem, c.pass, c.slice, l, n), n)
  {
    var filled := (n: nat) => FillSegment(c.m, c.b, c.p, mem, c.pass, c.slice, l, n);
    forall n: nat | c.First() <= n ensures GrowsAt(c, l, filled, n) {
      OneBlockMore(c.m, c.b, c.p, mem, c.pass, c.slice, l, n);
    }
    AloneGrows(c, mem, l, c.p.segmentBlocks - c.First(), Actions(c), c.p.segmentBlocks, filled);
  }

  function Repeat(l: nat, k: nat): (r: seq<nat>)
    ensures |r| == k
  {
    seq(k, _ => l)
  }

  lemma {:induction false} RunLane<B>(c: Context<B>, s0: State<B>, schedule: seq<nat>, l: nat, k: nat)
    requires var s := Run(c, s0, schedule); l < |s.lanes| && s.lanes[l] == Initial(c, s.mem, l)
    ensures var s := Run(c, s0, schedule);
            var a := Alone(c, s.mem, l, k);
            Run(c, s0, schedule + Repeat(l, k)) == State(a.mem, s.lanes[l := a.lane])
  {
    if k == 0 {
      assert schedule + Repeat(l, k) == schedule;
    } else {
      RunLane(c, s0, schedule, l, k - 1);
      var longer := schedule + Repeat(l, k);
      assert longer[..|longer| - 1] == schedule + Repeat(l, k - 1);
    }
  }

  /** One lane after the other, each until it has finished. */
  function Sequential<B>(c: Context<B>, l: nat): seq<nat> {
    if l == 0 then [] else Sequential(c, l - 1) + Repeat(l - 1, Actions(c))
  }

  /** The first l lanes have filled their segments, and the others have not begun. */
  ghost predicate LanesDone<B>(c: Context<B>, mem: Memory<B>, s: State<B>, l: nat) {
    && s.mem == FillSlice(c.m, c.b, c.p, mem, c.pass, c.slice, l)
    && s.mem.Keys == mem.Keys && |s.lanes| == c.p.lanes
    && (forall cell | cell in mem && l <= cell.lane :: s.mem[cell] == mem[cell])
    && (forall k | 0 <= k < c.p.lanes :: if k < l then s.lanes[k].offset == c.p.segmentBlocks
                                         else s.lanes[k] == Initial(c, mem, k))
  }

  /** What a lane leaves when it runs alone to its end. */
  lemma FilledLane<B>(c: Context<B>, mem: Memory<B>, l: nat) returns (a: Solo<B>)
    requires c.Valid() && mem.Keys == Cells(c.p) && l < c.p.lanes
    ensures a == Alone(c, mem, l, Actions(c))
    ensures a.mem == FillSegment(c.m, c.b, c.p, mem, c.pass, c.slice, l, c.p.segmentBlocks)
    ensures a.lane.offset == c.p.segmentBlocks && a.mem.Keys == mem.Keys
    ensures forall cell | cell in mem && cell.lane != l :: a.mem[cell] == mem[cell]
  {
    a := Alone(c, mem, l, Actions(c));
    AloneFills(c, mem, l);
    AloneFrame(c, mem, l, Actions(c));
  }

  /** One lane more. */
  lemma LaneDone<B>(c: Context<B>, mem: Memory<B>, s: State<B>, l: nat) returns (a: Solo<B>)
    requires c.Valid() && mem.Keys == Cells(c.p) && l < c.p.lanes && LanesDone(c, mem, s, l)
    ensures a == Alone(c, s.mem, l, Actions(c)) && |s.lanes| == c.p.lanes && s.lanes[l] == Initial(c, s.mem, l)
    ensures LanesDone(c, mem, State(a.mem, s.lanes[l := a.lane]), l + 1)
  {
    a := FilledLane(c, s.mem, l);
    assert FillSlice(c.m, c.b, c.p, mem, c.pass, c.slice, l + 1) == a.mem;
  }

  lemma OneLaneMore<B>(c: Context<B>, mem: Memory<B>, schedule: seq<nat>, l: nat)
    requires c.Valid() && mem.Keys == Cells(c.p) && l < c.p.lanes
    requires LanesDone(c, mem, Run(c, InitialState(c, mem), schedule), l)
    ensures LanesDone(c, mem, Run(c, InitialState(c, mem), schedule + Repeat(l, Actions(c))), l + 1)
  {
    hide Alone, Run, Actions, LanesDone, InitialState;
    var a := LaneDone(c, mem, Run(c, InitialState(c, mem), schedule), l);
    RunLane(c, InitialState(c, mem), schedule, l, Actions(c));
  }

  lemma NoLaneDone<B>(c: Context<B>, mem: Memory<B>)
    requires c.Valid() && mem.Keys == Cells(c.p)
    ensures LanesDone(c, mem, Run(c, InitialState(c, mem), Sequential(c, 0)), 0)
  {
  }

  lemma {:induction false} SequentialFills<B>(c: Context<B>, mem: Memory<B>, l: nat)
    requires c.Valid() && mem.Keys == Cells(c.p) && l <= c.p.lanes
    ensures LanesDone(c, mem, Run(c, InitialState(c, mem), Sequential(c, l)), l)
  {
    hide Alone, Run, Actions, LanesDone, InitialState;
    if l == 0 {
      NoLaneDone(c, mem);
    } else {
      SequentialFills(c, mem, l - 1);
      OneLaneMore(c, mem, Sequential(c, l - 1), l - 1);
    }
  }

  /**
   Lanes that run concurrently in a slice leave the memory of the lanes run one after the other, in any order of
   their actions.
   */
  lemma AnyOrderFills<B>(c: Context<B>, mem: Memory<B>, schedule: seq<nat>)
    requires c.Valid() && mem.Keys == Cells(c.p)
    requires Complete(c, Run(c, InitialState(c, mem), schedule))
    ensures Run(c, InitialState(c, mem), schedule).mem == FillSlice(c.m, c.b, c.p, mem, c.pass, c.slice, c.p.lanes)
  {
    SequentialFills(c, mem, c.p.lanes);
    CompleteRunsAgree(c, mem, schedule, Sequential(c, c.p.lanes));
  }

  /** Every order in which each lane gets its two actions per block finishes all lanes. */
  lemma EnoughActionsComplete<B>(c: Context<B>, mem: Memory<B>, schedule: seq<nat>)
    requires c.Valid() && mem.Keys == Cells(c.p)
    requires forall l | 0 <= l < c.p.lanes :: Count(schedule, l) >= Actions(c)
    ensures Complete(c, Run(c, InitialState(c, mem), schedule))
  {
    var s := Run(c, InitialState(c, mem), schedule);
    RunAsIfAlone(c, mem, schedule);
    forall l | 0 <= l < |s.lanes| ensures s.lanes[l].offset >= c.p.segmentBlocks {
      EnoughForLane(c, mem, l, Count(schedule, l));
    }
  }

  lemma EnoughForLane<B>(c: Context<B>, mem: Memory<B>, l: nat, k: nat)
    requires c.Valid() && mem.Keys == Cells(c.p) && l < c.p.lanes && k >= Actions(c)
    ensures Alone(c, mem, l, k).lane.offset >= c.p.segmentBlocks
  {
    var a := FilledLane(c, mem, l);
    AloneFixed(c, mem, l, Actions(c), k);
  }

  // ------------------------------------------------------------ whole launches

  /** An order of actions for every slice of every pass. */
  type Schedules = (nat, nat) -> seq<nat>

  /** The memory after the slices, each with its own order of actions, separated by barriers. */
  function RunSlices<B>(m: Mapping, b: Blocks<B>, p: Params, mem: Memory<B>, schedules: Schedules, pass: nat,
                        n: nat): Memory<B>
    requires n <= SYNC_POINTS
    decreases pass, n
  {
    if 0 < n then
      var c := Context(m, b, p, pass, n - 1);
      Run(c, InitialState(c, RunSlices(m, b, p, mem, schedules, pass, n - 1)), schedules(pass, n - 1)).mem
    else if 0 < pass then RunSlices(m, b, p, mem, schedules, pass - 1, SYNC_POINTS)
    else mem
  }

  /** In every slice, every lane gets as many actions as its segment needs. */
  ghost predicate Sufficient<B>(m: Mapping, b: Blocks<B>, p: Params, schedules: Schedules) {
    forall pass: nat, slice: Slice, l: nat | l < p.lanes ::
      Count(schedules(pass, slice), l) >= Actions(Context(m, b, p, pass, slice))
  }

  lemma SliceFills<B>(c: Context<B>, mem: Memory<B>, schedule: seq<nat>)
    requires c.Valid() && mem.Keys == Cells(c.p)
    requires forall l | 0 <= l < c.p.lanes :: Count(schedule, l) >= Actions(c)
    ensures Run(c, InitialState(c, mem), schedule).mem == FillSlice(c.m, c.b, c.p, mem, c.pass, c.slice, c.p.lanes)
    ensures Run(c, InitialState(c, mem), schedule).mem.Keys == mem.Keys
  {
    EnoughActionsComplete(c, mem, schedule);
    AnyOrderFills(c, mem, schedule);
    RunAsIfAlone(c, mem, schedule);
  }

  /** However the lanes interleave between the barriers, the memory is that of the sequential fill. */
  lemma {:induction false} AnyLaunchFills<B>(m: Mapping, b: Blocks<B>, p: Params, mem: Memory<B>, schedules: Schedules,
                                             pass: nat, n: nat)
    requires p.Fits() && Admissible(p, m) && mem.Keys == Cells(p)
    requires Sufficient(m, b, p, schedules) && n <= SYNC_POINTS
    ensures RunSlices(m, b, p, mem, schedules, pass, n) == Fill(m, b, p, mem, pass, n)
    ensures RunSlices(m, b, p, mem, schedules, pass, n).Keys == mem.Keys
    decreases pass, n
  {
    if 0 < n {
      AnyLaunchFills(m, b, p, mem, schedules, pass, n - 1);
      var c := Context(m, b, p, pass, n - 1);
      var before := RunSlices(m, b, p, mem, schedules, pass, n - 1);
      SliceFills(c, before, schedules(pass, n - 1));
    } else if 0 < pass {
      AnyLaunchFills(m, b, p, mem, schedules, pass - 1, SYNC_POINTS);
    }
  }
}
