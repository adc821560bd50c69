/**
 How the workers claim a solved block template (src/miner.rs, MinerManager): process_block hands out
 templates and opens the claim word solved_state_id by storing usize::MAX; a worker that has found a
 nonce claims by exchanging usize::MAX for the id of its template, and submits only if that succeeds.

 A step is one atomic action of the producer or of a worker; any number of workers take their steps
 in any order. Which version of the work a receiver gets is the subject of module WatchSwap: here
 it is the last one published.
 */
module ClaimProtocol {
  import opened Bits
  import opened Options

  /** usize::MAX, the value of the claim word while nobody has claimed. */
  const OPEN: nat := U64 - 1

  /** What is mined: the id is the counter of process_block, the block is any. */
  datatype Template<B> = Template(id: nat, block: B)

  datatype Producer<B> =
    | Ready
    | ToReset(next: Option<Template<B>>)    // about to store usize::MAX
    | ToPublish(next: Option<Template<B>>)  // about to swap

  datatype Phase =
    | Top                     // at the head of the loop
    | Waiting                 // in wait_for_change because the template is solved
    | Searching
    | Claiming(nonce: nat)    // found a block, before the compare-exchange

  datatype Worker<B> = Worker(template: Option<Template<B>>, seen: nat, phase: Phase)

  /** A block that was sent, and how many resets there had been by then. */
  datatype Submission<B> = Submission(template: Template<B>, nonce: nat, epoch: nat)

  datatype State<B> = State(nextId: nat, synced: bool, producer: Producer<B>, solved: nat,
                            published: seq<Option<Template<B>>>, workers: map<nat, Worker<B>>,
                            submitted: seq<Submission<B>>, resets: nat)

  datatype Action<B> =
    | NewBlock(block: B, valid: bool) | NotSynced | Reset | Publish
    | Receive(w: nat) | Look(w: nat) | Try(w: nat, nonce: nat) | Refresh(w: nat) | Claim(w: nat)
  {
    predicate OfWorker() { Receive? || Look? || Try? || Refresh? || Claim? }
  }

  predicate Enabled<B>(s: State<B>, a: Action<B>) {
    match a
    case NewBlock(_, _) => s.producer.Ready?
    case NotSynced => s.producer.Ready?
    case Reset => s.producer.ToReset?
    case Publish => s.producer.ToPublish?
    case _ =>
      a.w in s.workers &&
      var worker := s.workers[a.w];
      match a
      case Receive(_) => (worker.phase.Waiting? || (worker.phase.Top? && worker.template.None?))
        && worker.seen < |s.published|
      case Look(_) => worker.phase.Top? && worker.template.Some?
      case Claim(_) => worker.phase.Claiming? && worker.template.Some?
      case _ => worker.phase.Searching? && worker.template.Some?
  }

  /** The worker after its action; meets says whether the block with that nonce is below its target. */
  function Moved<B>(meets: (B, nat) -> bool, s: State<B>, a: Action<B>): Worker<B>
    requires a.OfWorker() && Enabled(s, a)
  {
    var worker := s.workers[a.w];
    match a
    case Receive(_) => Worker(s.published[|s.published| - 1], |s.published|, Top)
    case Look(_) => worker.(phase := if s.solved == worker.template.value.id then Waiting else Searching)
    case Try(_, nonce) => worker.(phase := if meets(worker.template.value.block, nonce) then Claiming(nonce) else Top)
    case Refresh(_) =>
      if worker.seen < |s.published| then Worker(s.published[|s.published| - 1], |s.published|, Top)
        else worker.(phase := Top)
    case Claim(_) => worker.(template := None, phase := Top)
  }

  function Perform<B>(meets: (B, nat) -> bool, s: State<B>, a: Action<B>): State<B>
    requires Enabled(s, a)
  {
    match a
    case NewBlock(block, valid) =>
      var counted := s.(synced := true, nextId := if s.nextId + 1 == U64 then 0 else s.nextId + 1);
      if valid then counted.(producer := ToReset(Some(Template(s.nextId, block)))) else counted
    case NotSynced => if s.synced then s.(synced := false, producer := ToReset(None)) else s
    case Reset => s.(solved := OPEN, resets := s.resets + 1, producer := ToPublish(s.producer.next))
    case Publish => s.(published := s.published + [s.producer.next], producer := Ready)
    case Claim(w) =>
      var worker := s.workers[w];
      var moved := s.(workers := s.workers[w := Moved(meets, s, a)]);
      if s.solved == OPEN then
        moved.(solved := worker.template.value.id,
               submitted := s.submitted + [Submission(worker.template.value, worker.phase.nonce, s.resets)])
      else moved
    case _ => s.(workers := s.workers[a.w := Moved(meets, s, a)])
  }

  function Step<B>(meets: (B, nat) -> bool, s: State<B>, a: Action<B>): State<B> {
    if Enabled(s, a) then Perform(meets, s, a) else s
  }

  function Run<B>(meets: (B, nat) -> bool, s: State<B>, actions: seq<Action<B>>): State<B> {
    if actions == [] then s else Step(meets, Run(meets, s, actions[..|actions| - 1]), actions[|actions| - 1])
  }

  /** MinerManager::new with some workers. */
  function Start<B>(workers: set<nat>): State<B> {
    State(0, true, Ready, OPEN, [], map w | w in workers :: Worker(None, 0, Top), [], 0)
  }

  /** How many templates process_block has been given: it counts also those that it then rejects. */
  function Blocks<B>(actions: seq<Action<B>>): nat {
    if actions == [] then 0 else Blocks(actions[..|actions| - 1]) + if actions[|actions| - 1].NewBlock? then 1 else 0
  }

  // ------------------------------------------------------------ the invariant

  predicate Known<B(==)>(s: State<B>, t: Option<Template<B>>) { t.None? || t in s.published }

  /**
   What workers mine, what was submitted and what is about to be published comes from process_block, after a reset.
   */
  ghost predicate Sound<B>(meets: (B, nat) -> bool, s: State<B>) {
    && (forall w | w in s.workers :: Known(s, s.workers[w].template) && s.workers[w].seen <= |s.published|)
    && (forall w | w in s.workers && s.workers[w].phase.Claiming? ::
          s.workers[w].template.Some? && meets(s.workers[w].template.value.block, s.workers[w].phase.nonce))
    && (forall i | 0 <= i < |s.submitted| ::
          Known(s, Some(s.submitted[i].template)) && meets(s.submitted[i].template.block, s.submitted[i].nonce))
    && (s.published != [] || s.producer.ToPublish? ==> s.resets > 0)
    && (s.resets == 0 ==> s.submitted == [])
  }

  /** No id is as large as the mark of an open claim. */
  ghost predicate IdsBelowMark<B>(s: State<B>) {
    && (forall i | 0 <= i < |s.published| :: s.published[i].Some? ==> s.published[i].value.id < OPEN)
    && (!s.producer.Ready? && s.producer.next.Some? ==> s.producer.next.value.id < OPEN)
  }

  /** Between two resets at most one claim succeeds: the submissions happened in later and later epochs. */
  ghost predicate OnePerEpoch<B>(s: State<B>) {
    && (forall i, j | 0 <= i < j < |s.submitted| :: s.submitted[i].epoch < s.submitted[j].epoch)
    && (forall i | 0 <= i < |s.submitted| :: 1 <= s.submitted[i].epoch <= s.resets)
  }

  ghost predicate ClaimWord<B>(s: State<B>) {
    && (s.solved == OPEN ==> forall i | 0 <= i < |s.submitted| :: s.submitted[i].epoch < s.resets)
    && (s.solved != OPEN ==> s.submitted != [] && s.solved == s.submitted[|s.submitted| - 1].template.id)
  }

  /** The templates have the ids that process_block has counted up to, each its own. */
  ghost predicate IdsInOrder<B>(s: State<B>) {
    && (forall i | 0 <= i < |s.published| :: s.published[i].Some? ==> s.published[i].value.id < s.nextId)
    && (!s.producer.Ready? && s.producer.next.Some? ==> s.producer.next.value.id < s.nextId)
    && (forall i, j | 0 <= i < j < |s.published| ::
          s.published[i].Some? && s.published[j].Some? ==> s.published[i].value.id < s.published[j].value.id)
    && (forall i | 0 <= i < |s.published| :: !s.producer.Ready? && s.producer.next.Some? && s.published[i].Some? ==>
          s.published[i].value.id < s.producer.next.value.id)
  }

  lemma StepKeepsSound<B>(meets: (B, nat) -> bool, s: State<B>, a: Action<B>)
    requires Sound(meets, s)
    ensures Sound(meets, Step(meets, s, a))
  {
  }

  lemma StepKeepsIds<B>(meets: (B, nat) -> bool, s: State<B>, a: Action<B>)
    requires IdsInOrder(s) && s.nextId < U64 && (a.NewBlock? ==> s.nextId < OPEN)
    ensures IdsInOrder(Step(meets, s, a))
    ensures Step(meets, s, a).nextId == if Enabled(s, a) && a.NewBlock? then s.nextId + 1 else s.nextId
  {
  }

  lemma ClaimKeepsOnePerEpoch<B>(meets: (B, nat) -> bool, s: State<B>, w: nat)
    requires Sound(meets, s) && IdsBelowMark(s) && OnePerEpoch(s) && ClaimWord(s) && Enabled(s, Action<B>.Claim(w))
    ensures OnePerEpoch(Perform(meets, s, Claim(w))) && ClaimWord(Perform(meets, s, Claim(w)))
  {
    var s' := Perform(meets, s, Claim(w));
    assert Known(s, s.workers[w].template);
    if s.solved == OPEN {
      assert s'.submitted[|s.submitted|].epoch == s.resets == s'.resets;
    } else {
      assert s'.submitted == s.submitted;
    }
  }

  lemma StepKeepsOnePerEpoch<B>(meets: (B, nat) -> bool, s: State<B>, a: Action<B>)
    requires Sound(meets, s) && IdsBelowMark(s) && OnePerEpoch(s) && ClaimWord(s)
    ensures OnePerEpoch(Step(meets, s, a)) && ClaimWord(Step(meets, s, a))
  {
    if Enabled(s, a) && a.Claim? {
      ClaimKeepsOnePerEpoch(meets, s, a.w);
    } else {
      assert Step(meets, s, a).submitted == s.submitted && Step(meets, s, a).resets >= s.resets;
    }
  }

  /** As long as fewer than 2^64 templates have come, all of this holds in every run. */
  lemma {:induction false} RunInvariant<B>(meets: (B, nat) -> bool, workers: set<nat>, actions: seq<Action<B>>)
    requires Blocks(actions) < U64
    ensures var s := Run(meets, Start(workers), actions);
            Sound(meets, s) && IdsInOrder(s) && IdsBelowMark(s) && OnePerEpoch(s) && ClaimWord(s)
              && s.nextId <= Blocks(actions)
  {
    if actions != [] {
      var before, a := actions[..|actions| - 1], actions[|actions| - 1];
      RunInvariant(meets, workers, before);
      var s := Run(meets, Start(workers), before);
      StepKeepsSound(meets, s, a);
      StepKeepsIds(meets, s, a);
      StepKeepsOnePerEpoch(meets, s, a);
    }
  }

  lemma {:induction false} EpochAtLeast<B>(s: State<B>, i: nat)
    requires OnePerEpoch(s) && i < |s.submitted|
    ensures s.submitted[i].epoch >= i + 1
  {
    if i > 0 {
      EpochAtLeast(s, i - 1);
    }
  }

  // ------------------------------------------------------------ what the workers submit

  /**
   Over every interleaving there are never more blocks submitted than there were resets of the claim
   word, and between two resets at most one is.
   */
  lemma SubmissionsNeverOutnumberResets<B>(meets: (B, nat) -> bool, workers: set<nat>, actions: seq<Action<B>>)
    requires Blocks(actions) < U64
    ensures var s := Run(meets, Start(workers), actions);
            && |s.submitted| <= s.resets
            && forall i, j | 0 <= i < j < |s.submitted| :: s.submitted[i].epoch < s.submitted[j].epoch
  {
    RunInvariant(meets, workers, actions);
    var s := Run(meets, Start(workers), actions);
    if s.submitted != [] {
      EpochAtLeast(s, |s.submitted| - 1);
    }
  }

  lemma {:induction false} RunKeepsSound<B>(meets: (B, nat) -> bool, workers: set<nat>, actions: seq<Action<B>>)
    ensures Sound(meets, Run(meets, Start(workers), actions))
  {
    if actions != [] {
      RunKeepsSound(meets, workers, actions[..|actions| - 1]);
      StepKeepsSound(meets, Run(meets, Start(workers), actions[..|actions| - 1]), actions[|actions| - 1]);
    }
  }

  /**
   Every submitted block is one of a published template, with a nonce that meets its target; this needs no bound on
   the ids.
   */
  lemma SubmissionsAreSolutions<B>(meets: (B, nat) -> bool, workers: set<nat>, actions: seq<Action<B>>, i: nat)
    requires i < |Run(meets, Start(workers), actions).submitted|
    ensures var s := Run(meets, Start(workers), actions);
            var it := s.submitted[i];
            Some(it.template) in s.published && meets(it.template.block, it.nonce)
  {
    RunKeepsSound(meets, workers, actions);
    var s := Run(meets, Start(workers), actions);
    assert Known(s, Some(s.submitted[i].template));
  }

  /** The published ids are pairwise different. */
  lemma IdsAreUnique<B>(meets: (B, nat) -> bool, workers: set<nat>, actions: seq<Action<B>>, i: nat, j: nat)
    requires Blocks(actions) < U64
    requires var p := Run(meets, Start(workers), actions).published;
             i < j < |p| && p[i].Some? && p[j].Some?
    ensures var p := Run(meets, Start(workers), actions).published;
            p[i].value.id < p[j].value.id
  {
    RunInvariant(meets, workers, actions);
  }

  // ------------------------------------------------------------ particular runs

  /** s is the state after a run in which n templates came. */
  ghost predicate Reaches<B(!new)>(meets: (B, nat) -> bool, workers: set<nat>, n: nat, s: State<B>) {
    exists actions: seq<Action<B>> :: Run(meets, Start(workers), actions) == s && Blocks(actions) == n
  }

  lemma Next<B(!new)>(meets: (B, nat) -> bool, workers: set<nat>, n: nat, s: State<B>, a: Action<B>)
    requires Reaches(meets, workers, n, s)
    ensures Reaches(meets, workers, if a.NewBlock? then n + 1 else n, Step(meets, s, a))
  {
    var actions: seq<Action<B>> :| Run(meets, Start(workers), actions) == s && Blocks(actions) == n;
    var more := actions + [a];
    assert more[..|more| - 1] == actions && more[|more| - 1] == a;
    assert Run(meets, Start(workers), more) == Step(meets, s, a);
  }

  lemma Publishes<B(!new)>(meets: (B, nat) -> bool, workers: set<nat>, n: nat, s: State<B>, block: B)
    returns (s': State<B>)
    requires Reaches(meets, workers, n, s) && s.producer.Ready?
    ensures Reaches(meets, workers, n + 1, s')
    ensures s' == s.(synced := true, nextId := if s.nextId + 1 == U64 then 0 else s.nextId + 1, solved := OPEN,
                     resets := s.resets + 1, published := s.published + [Some(Template(s.nextId, block))])
  {
    Next(meets, workers, n, s, NewBlock(block, true));
    s' := Step(meets, s, NewBlock(block, true));
    Next(meets, workers, n + 1, s', Reset);
    s' := Step(meets, s', Reset);
    Next(meets, workers, n + 1, s', Publish);
    s' := Step(meets, s', Publish);
  }

  lemma Receives<B(!new)>(meets: (B, nat) -> bool, workers: set<nat>, n: nat, s: State<B>, w: nat)
    returns (s': State<B>)
    requires Reaches(meets, workers, n, s) && w in s.workers && s.published != []
      && s.workers[w] == Worker(None, 0, Top)
    ensures Reaches(meets, workers, n, s')
    ensures s' == s.(workers := s.workers[w := Worker(s.published[|s.published| - 1], |s.published|, Top)])
  {
    Next(meets, workers, n, s, Receive(w));
    s' := Step(meets, s, Receive(w));
  }

  lemma Finds<B(!new)>(meets: (B, nat) -> bool, workers: set<nat>, n: nat, s: State<B>, w: nat, nonce: nat)
    returns (s': State<B>)
    requires Reaches(meets, workers, n, s) && w in s.workers && s.workers[w].phase.Top? && s.workers[w].template.Some?
    requires s.solved != s.workers[w].template.value.id && meets(s.workers[w].template.value.block, nonce)
    ensures Reaches(meets, workers, n, s')
    ensures s' == s.(workers := s.workers[w := s.workers[w].(phase := Claiming(nonce))])
  {
    Next(meets, workers, n, s, Look(w));
    s' := Step(meets, s, Look(w));
    Next(meets, workers, n, s', Try(w, nonce));
    s' := Step(meets, s', Try(w, nonce));
    assert s'.workers == s.workers[w := s.workers[w].(phase := Claiming(nonce))];
  }

  lemma Claims<B(!new)>(meets: (B, nat) -> bool, workers: set<nat>, n: nat, s: State<B>, w: nat) returns (s': State<B>)
    requires Reaches(meets, workers, n, s) && w in s.workers && s.workers[w].phase.Claiming?
      && s.workers[w].template.Some?
    requires s.solved == OPEN
    ensures Reaches(meets, workers, n, s')
    ensures var worker := s.workers[w];
            s' == s.(workers := s.workers[w := worker.(template := None, phase := Top)],
                     solved := worker.template.value.id,
                     submitted := s.submitted + [Submission(worker.template.value, worker.phase.nonce, s.resets)])
  {
    Next(meets, workers, n, s, Claim(w));
    s' := Step(meets, s, Claim(w));
  }

  lemma Starts<B(!new)>(meets: (B, nat) -> bool, workers: set<nat>) returns (s: State<B>)
    ensures s == Start(workers) && Reaches(meets, workers, 0, s)
  {
    s := Start(workers);
    var none: seq<Action<B>> := [];
    assert Run(meets, s, none) == s && Blocks(none) == 0;
  }

  /** Two workers find the same block, and one of them claims it. */
  lemma TwoFind<B(!new)>(meets: (B, nat) -> bool, workers: set<nat>, a: nat, b: nat, block: B, x: nat, y: nat)
    returns (s: State<B>)
    requires a in workers && b in workers && a != b && meets(block, x) && meets(block, y)
    ensures Reaches(meets, workers, 1, s) && s.producer.Ready? && s.synced && s.nextId == 1 && s.resets == 1
    ensures s.published == [Some(Template(0, block))] && s.submitted == [Submission(Template(0, block), x, 1)]
    ensures b in s.workers && s.workers[b] == Worker(Some(Template(0, block)), 1, Claiming(y))
  {
    s := Starts(meets, workers);
    s := Publishes(meets, workers, 0, s, block);
    s := Receives(meets, workers, 1, s, a);
    s := Receives(meets, workers, 1, s, b);
    s := Finds(meets, workers, 1, s, a, x);
    s := Finds(meets, workers, 1, s, b, y);
    s := Claims(meets, workers, 1, s, a);
  }

  /**
   The claim is not once per template: a worker that still mines the old template claims it a second
   time after the reset, and then the new template, which nobody has claimed, cannot be claimed.
   */
  lemma OldTemplateClaimedAgain<B(!new)>(meets: (B, nat) -> bool, workers: set<nat>, a: nat, b: nat,
                                         b0: B, b1: B, x: nat, y: nat) returns (s: State<B>)
    requires a in workers && b in workers && a != b && meets(b0, x) && meets(b0, y)
    ensures Reaches(meets, workers, 2, s)
    ensures s.submitted == [Submission(Template(0, b0), x, 1), Submission(Template(0, b0), y, 2)] && s.resets == 2
    ensures s.published == [Some(Template(0, b0)), Some(Template(1, b1))] && s.solved == 0
  {
    s := TwoFind(meets, workers, a, b, b0, x, y);
    s := Publishes(meets, workers, 1, s, b1);
    s := Claims(meets, workers, 2, s, b);
  }

  lemma {:induction false} Rejects<B(!new)>(meets: (B, nat) -> bool, workers: set<nat>, n: nat, s: State<B>, block: B,
                                            k: nat)
    requires s.nextId + k < U64 && s.producer.Ready? && s.synced
    requires Reaches(meets, workers, n, s)
    ensures Reaches(meets, workers, n + k, s.(nextId := s.nextId + k))
  {
    if k == 0 {
      assert s.(nextId := s.nextId + k) == s;
    } else {
      Rejects(meets, workers, n, s, block, k - 1);
      var before := s.(nextId := s.nextId + (k - 1));
      Next(meets, workers, n + (k - 1), before, NewBlock(block, false));
      assert Step(meets, before, NewBlock(block, false)) == s.(nextId := s.nextId + k);
    }
  }

  /** Four workers: 0 and 1 mine the first template and 0 has claimed it; then all ids up to the mark are used. */
  lemma UpToTheMark<B(!new)>(meets: (B, nat) -> bool, block: B, x: nat) returns (s: State<B>)
    requires meets(block, x)
    ensures Reaches(meets, {0, 1, 2, 3}, U64, s)
    ensures s.producer.Ready? && s.solved == OPEN && s.resets == 2 && s.synced
    ensures s.published == [Some(Template(0, block)), Some(Template(OPEN, block))]
    ensures s.submitted == [Submission(Template(0, block), x, 1)]
    ensures s.workers == map[0 := Worker(None, 1, Top), 1 := Worker(Some(Template(0, block)), 1, Claiming(x)),
                             2 := Worker(None, 0, Top), 3 := Worker(None, 0, Top)]
  {
    var four := {0, 1, 2, 3};
    s := Starts(meets, four);
    s := Publishes(meets, four, 0, s, block);
    s := Receives(meets, four, 1, s, 0);
    s := Receives(meets, four, 1, s, 1);
    s := Finds(meets, four, 1, s, 0, x);
    s := Finds(meets, four, 1, s, 1, x);
    s := Claims(meets, four, 1, s, 0);
    Rejects(meets, four, 1, s, block, OPEN - 1);
    s := s.(nextId := OPEN);
    s := Publishes(meets, four, OPEN, s, block);
  }

  /** After 2^64 templates one has the mark for its id: claiming it leaves the claim open, and the bound fails. */
  lemma TooManyClaims<B(!new)>(meets: (B, nat) -> bool, block: B, x: nat) returns (s: State<B>)
    requires meets(block, x)
    ensures Reaches(meets, {0, 1, 2, 3}, U64, s) && |s.submitted| == 4 && s.resets == 3 && s.producer.Ready?
  {
    var four := {0, 1, 2, 3};
    s := UpToTheMark(meets, block, x);
    s := Receives(meets, four, U64, s, 2);
    s := Receives(meets, four, U64, s, 3);
    s := Claims(meets, four, U64, s, 1);
    s := Finds(meets, four, U64, s, 2, x);
    s := Finds(meets, four, U64, s, 3, x);
    Next(meets, four, U64, s, NotSynced);
    s := Step(meets, s, NotSynced);
    Next(meets, four, U64, s, Reset);
    s := Step(meets, s, Reset);
    Next(meets, four, U64, s, Publish);
    s := Step(meets, s, Publish);
    s := Claims(meets, four, U64, s, 2);
    s := Claims(meets, four, U64, s, 3);
  }

  lemma {:induction false} RejectsMore<B(!new)>(meets: (B, nat) -> bool, workers: set<nat>, n: nat, s: State<B>,
                                                block: B, k: nat)
    returns (s': State<B>)
    requires Reaches(meets, workers, n, s) && s.producer.Ready?
    ensures Reaches(meets, workers, n + k, s') && s'.producer.Ready? && s'.published == s.published
    ensures s'.submitted == s.submitted && s'.resets == s.resets && s'.solved == s.solved
  {
    s' := s;
    if k > 0 {
      s' := RejectsMore(meets, workers, n, s, block, k - 1);
      Next(meets, workers, n + (k - 1), s', NewBlock(block, false));
      s' := Step(meets, s', NewBlock(block, false));
    }
  }

  /** The bound holds for every run with n templates. */
  ghost predicate Bounded<B(!new)>(meets: (B, nat) -> bool, n: nat) {
    forall workers: set<nat>, s: State<B> | Reaches(meets, workers, n, s) :: |s.submitted| <= s.resets
  }

  /**
   If there is any solution at all, the submissions are bounded by the resets up to 2^64 - 1 templates, and not
   beyond.
   */
  lemma BoundedIffIdsDoNotWrap<B(!new)>(meets: (B, nat) -> bool, n: nat, block: B, x: nat)
    requires meets(block, x)
    ensures Bounded(meets, n) <==> n < U64
  {
    if n < U64 {
      forall workers: set<nat>, s: State<B> | Reaches(meets, workers, n, s) ensures |s.submitted| <= s.resets {
        var actions: seq<Action<B>> :| Run(meets, Start(workers), actions) == s && Blocks(actions) == n;
        SubmissionsNeverOutnumberResets(meets, workers, actions);
      }
    } else {
      var s := TooManyClaims(meets, block, x);
      s := RejectsMore(meets, {0, 1, 2, 3}, U64, s, block, n - U64);
    }
  }
}
