/**
 How often a template is submitted, and whether the current one can be claimed: exact conditions for runs of
 the protocol in module ClaimProtocol.
 */
module ClaimOutcomes {
  import opened Bits
  import opened ClaimProtocol
  import opened Options

  // ------------------------------------------------------------ once per template

  /** From this version on nothing has been claimed by the worker. */
  function NextVersion<B>(worker: Worker<B>): int { if worker.template.Some? then worker.seen - 1 else worker.seen }

  /** The only worker mines the version that it has seen, and never goes back. */
  ghost predicate MinesSeen<B>(s: State<B>, w: nat) {
    && s.workers.Keys == {w}
    && var worker := s.workers[w];
    worker.template.Some? ==> 0 < worker.seen <= |s.published| && s.published[worker.seen - 1] == worker.template
  }

  /** With one worker: what was submitted is older than what the worker mines or can still receive. */
  ghost predicate OneWorker<B>(s: State<B>, w: nat) {
    && MinesSeen(s, w)
    && (forall i, j | 0 <= i < j < |s.submitted| :: s.submitted[i].template.id < s.submitted[j].template.id)
    && (forall i | 0 <= i < |s.submitted| :: OlderThanAll(s, s.submitted[i].template.id, NextVersion(s.workers[w])))
  }

  ghost predicate OlderThanAll<B>(s: State<B>, id: nat, version: int) {
    && id < s.nextId
    && (!s.producer.Ready? && s.producer.next.Some? ==> id < s.producer.next.value.id)
    && forall j | 0 <= j < |s.published| && version <= j && s.published[j].Some? :: id < s.published[j].value.id
  }

  lemma StaysOlder<B>(meets: (B, nat) -> bool, s: State<B>, a: Action<B>, id: nat, version: int, version': int)
    requires OlderThanAll(s, id, version) && version <= version' && s.nextId < U64
      && (a.NewBlock? ==> s.nextId < OPEN)
    requires version <= |s.published|
    ensures OlderThanAll(Step(meets, s, a), id, version')
  {
  }

  lemma ClaimedIsOlder<B>(s: State<B>, version: nat)
    requires IdsInOrder(s) && version < |s.published| && s.published[version].Some?
    ensures OlderThanAll(s, s.published[version].value.id, version + 1)
  {
  }

  lemma StepKeepsMinesSeen<B>(meets: (B, nat) -> bool, s: State<B>, a: Action<B>, w: nat)
    requires MinesSeen(s, w) && s.workers[w].seen <= |s.published|
    ensures MinesSeen(Step(meets, s, a), w)
    ensures NextVersion(s.workers[w]) <= NextVersion(Step(meets, s, a).workers[w])
  {
    assert Step(meets, s, a).workers.Keys == {w};
  }

  /** A successful claim is of the version seen last. */
  lemma NewSubmission<B>(meets: (B, nat) -> bool, s: State<B>, a: Action<B>, w: nat)
    requires MinesSeen(s, w)
    ensures var s' := Step(meets, s, a);
            || s'.submitted == s.submitted
            || (s.workers[w].template.Some? && s'.workers[w].template.None? && s'.workers[w].seen == s.workers[w].seen
                && |s'.submitted| == |s.submitted| + 1 && s'.submitted[..|s.submitted|] == s.submitted
                && s'.submitted[|s.submitted|].template == s.workers[w].template.value)
  {
  }

  lemma StepKeepsOneWorker<B>(meets: (B, nat) -> bool, s: State<B>, a: Action<B>, w: nat)
    requires OneWorker(s, w) && IdsInOrder(s) && s.nextId < U64 && (a.NewBlock? ==> s.nextId < OPEN)
    requires s.workers[w].seen <= |s.published|
    ensures OneWorker(Step(meets, s, a), w)
  {
    var s' := Step(meets, s, a);
    StepKeepsMinesSeen(meets, s, a, w);
    NewSubmission(meets, s, a, w);
    var version, version' := NextVersion(s.workers[w]), NextVersion(s'.workers[w]);
    forall i | 0 <= i < |s.submitted| ensures OlderThanAll(s', s.submitted[i].template.id, version') {
      StaysOlder(meets, s, a, s.submitted[i].template.id, version, version');
    }
    if s'.submitted != s.submitted {
      ClaimedIsOlder(s, s.workers[w].seen - 1);
      StaysOlder(meets, s, a, s.workers[w].template.value.id, s.workers[w].seen, version');
    }
  }

  lemma {:induction false} RunOfOneWorker<B>(meets: (B, nat) -> bool, w: nat, actions: seq<Action<B>>)
    requires Blocks(actions) < U64
    ensures OneWorker(Run(meets, Start({w}), actions), w)
  {
    if actions != [] {
      var before := actions[..|actions| - 1];
      RunOfOneWorker(meets, w, before);
      RunInvariant(meets, {w}, before);
      StepKeepsOneWorker(meets, Run(meets, Start({w}), before), actions[|actions| - 1], w);
    }
  }

  lemma {:induction false} RunWithoutWorkers<B>(meets: (B, nat) -> bool, actions: seq<Action<B>>)
    ensures var s := Run(meets, Start({}), actions); s.workers == map[] && s.submitted == [] && s.solved == OPEN
  {
    if actions != [] {
      RunWithoutWorkers(meets, actions[..|actions| - 1]);
    }
  }

  /** No template is submitted twice in any run with n templates. */
  ghost predicate EachOnce<B(!new)>(meets: (B, nat) -> bool, workers: set<nat>, n: nat) {
    forall s: State<B>, i: nat, j: nat | Reaches(meets, workers, n, s) && i < j < |s.submitted| ::
      s.submitted[i].template != s.submitted[j].template
  }

  /** Two workers submit the same template, before and after a reset without a new one. */
  lemma SubmittedTwice<B(!new)>(meets: (B, nat) -> bool, workers: set<nat>, a: nat, b: nat, n: nat, block: B, x: nat)
    returns (s: State<B>)
    requires a in workers && b in workers && a != b && meets(block, x) && n >= 1
    ensures Reaches(meets, workers, n, s) && |s.submitted| == 2 && s.submitted[0].template == s.submitted[1].template
  {
    s := TwoFind(meets, workers, a, b, block, x, x);
    Next(meets, workers, 1, s, NotSynced);
    s := Step(meets, s, NotSynced);
    Next(meets, workers, 1, s, Reset);
    s := Step(meets, s, Reset);
    s := Claims(meets, workers, 1, s, b);
    Next(meets, workers, 1, s, Publish);
    s := Step(meets, s, Publish);
    s := RejectsMore(meets, workers, 1, s, block, n - 1);
  }

  /**
   If there is any solution at all, every template is submitted at most once exactly if there is at most one worker.
   */
  lemma EachOnceIff<B(!new)>(meets: (B, nat) -> bool, workers: set<nat>, n: nat, block: B, x: nat)
    requires meets(block, x) && 1 <= n < U64
    ensures EachOnce(meets, workers, n) <==> |workers| <= 1
  {
    if |workers| <= 1 {
      forall s: State<B>, i: nat, j: nat | Reaches(meets, workers, n, s) && i < j < |s.submitted|
        ensures s.submitted[i].template != s.submitted[j].template
      {
        var actions: seq<Action<B>> :| Run(meets, Start(workers), actions) == s && Blocks(actions) == n;
        if workers == {} {
          RunWithoutWorkers(meets, actions);
        } else {
          var w :| w in workers;
          Singleton(workers, w);
          RunOfOneWorker(meets, w, actions);
        }
      }
    } else {
      var a :| a in workers;
      assert |workers - {a}| == |workers| - 1;
      var b :| b in workers - {a};
      var s := SubmittedTwice(meets, workers, a, b, n, block, x);
    }
  }

  lemma Singleton(workers: set<nat>, w: nat)
    requires w in workers && |workers| <= 1
    ensures workers == {w}
  {
    assert |workers - {w}| == |workers| - 1;
  }

  // ------------------------------------------------------------ claims that block the current template

  /** A claim that is not open is one of the current template. */
  ghost predicate CurrentIsFree<B>(s: State<B>) {
    s.producer.Ready? && s.published != [] && s.published[|s.published| - 1].Some? && s.solved != OPEN
    ==> s.solved == s.published[|s.published| - 1].value.id
  }

  ghost predicate NeverBlocked<B(!new)>(meets: (B, nat) -> bool, workers: set<nat>, n: nat) {
    forall s: State<B> | Reaches(meets, workers, n, s) :: CurrentIsFree(s)
  }

  /** A worker claims the first template after the second has been published. */
  lemma ClaimedLate<B(!new)>(meets: (B, nat) -> bool, workers: set<nat>, w: nat, n: nat, block: B, x: nat)
    returns (s: State<B>)
    requires w in workers && meets(block, x) && n >= 2
    ensures Reaches(meets, workers, n, s) && !CurrentIsFree(s)
  {
    s := Starts(meets, workers);
    s := Publishes(meets, workers, 0, s, block);
    s := Receives(meets, workers, 1, s, w);
    s := Finds(meets, workers, 1, s, w, x);
    s := Publishes(meets, workers, 1, s, block);
    s := Claims(meets, workers, 2, s, w);
    s := RejectsMore(meets, workers, 2, s, block, n - 2);
  }

  /** With at most one template all claims are of that one. */
  lemma OneTemplateIsFree<B>(meets: (B, nat) -> bool, workers: set<nat>, actions: seq<Action<B>>)
    requires Blocks(actions) <= 1
    ensures CurrentIsFree(Run(meets, Start(workers), actions))
  {
    RunInvariant(meets, workers, actions);
    var s := Run(meets, Start(workers), actions);
    if s.solved != OPEN {
      assert Known(s, Some(s.submitted[|s.submitted| - 1].template));
    }
  }

  /**
   Even with a single worker a claim can keep the current template from being claimed, exactly from two templates on.
   */
  lemma NeverBlockedIff<B(!new)>(meets: (B, nat) -> bool, workers: set<nat>, n: nat, block: B, x: nat)
    requires meets(block, x)
    ensures NeverBlocked(meets, workers, n) <==> n <= 1 || workers == {}
  {
    if n <= 1 || workers == {} {
      forall s: State<B> | Reaches(meets, workers, n, s) ensures CurrentIsFree(s) {
        var actions: seq<Action<B>> :| Run(meets, Start(workers), actions) == s && Blocks(actions) == n;
        if n <= 1 {
          OneTemplateIsFree(meets, workers, actions);
        } else {
          RunWithoutWorkers(meets, actions);
        }
      }
    } else {
      var w :| w in workers;
      var s := ClaimedLate(meets, workers, w, n, block, x);
    }
  }

  // ------------------------------------------------------------ what the workers mine

  /** Every worker that has a template has the one of the version it has seen. */
  ghost predicate AllMineSeen<B>(s: State<B>) {
    forall w | w in s.workers ::
      var worker := s.workers[w];
      && worker.seen <= |s.published|
      && (worker.template.Some? ==> 0 < worker.seen && s.published[worker.seen - 1] == worker.template)
  }

  lemma StepKeepsAllMineSeen<B>(meets: (B, nat) -> bool, s: State<B>, a: Action<B>)
    requires AllMineSeen(s)
    ensures AllMineSeen(Step(meets, s, a))
  {
  }

  lemma {:induction false} RunKeepsAllMineSeen<B>(meets: (B, nat) -> bool, workers: set<nat>, actions: seq<Action<B>>)
    ensures AllMineSeen(Run(meets, Start(workers), actions))
  {
    if actions != [] {
      hide Step, AllMineSeen;
      var before, a := actions[..|actions| - 1], actions[|actions| - 1];
      RunKeepsAllMineSeen(meets, workers, before);
      StepKeepsAllMineSeen(meets, Run(meets, Start(workers), before), a);
    }
  }

  /** A worker that waits for a version it has not seen, or searches and may look for one. */
  predicate CanReceive<B>(s: State<B>, w: nat) {
    w in s.workers && s.workers[w].seen < |s.published|
    && (s.workers[w].phase.Waiting? || (s.workers[w].phase.Top? && s.workers[w].template.None?))
  }

  predicate CanRefresh<B>(s: State<B>, w: nat) {
    w in s.workers && s.workers[w].phase.Searching? && s.workers[w].template.Some?
  }

  /** When each action of a worker is possible. */
  lemma EnabledIff<B>(s: State<B>, w: nat, nonce: nat)
    ensures Enabled(s, Receive(w)) <==> CanReceive(s, w)
    ensures Enabled(s, Refresh(w)) <==> CanRefresh(s, w)
    ensures Enabled(s, Try(w, nonce)) <==> CanRefresh(s, w)
    ensures Enabled(s, Look(w)) <==> w in s.workers && s.workers[w].phase.Top? && s.workers[w].template.Some?
    ensures Enabled(s, Claim(w)) <==> w in s.workers && s.workers[w].phase.Claiming? && s.workers[w].template.Some?
  {
  }

  lemma OneMore<B>(meets: (B, nat) -> bool, s: State<B>, actions: seq<Action<B>>, a: Action<B>)
    ensures Run(meets, s, actions + [a]) == Step(meets, Run(meets, s, actions), a)
  {
    assert (actions + [a])[..|actions|] == actions;
  }

  /** When the node is found not to be synced for the first time, the absent template is published after a reset. */
  lemma FirstLossOfSync<B>(meets: (B, nat) -> bool, workers: set<nat>)
    ensures var s := Run(meets, Start(workers), [NotSynced, Reset, Publish]);
            && s.published == [None] && s.resets == 1 && s.solved == OPEN && !s.synced
            && Step(meets, s, NotSynced) == s
  {
    var s0: State<B> := Start(workers);
    OneMore(meets, s0, [], NotSynced);
    OneMore(meets, s0, [NotSynced], Reset);
    OneMore(meets, s0, [NotSynced, Reset], Publish);
    assert [] + [Action<B>.NotSynced] == [NotSynced] && [Action<B>.NotSynced] + [Reset] == [NotSynced, Reset];
    assert [Action<B>.NotSynced, Reset] + [Publish] == [NotSynced, Reset, Publish];
  }

  /**
   In every run, a worker that receives a version or looks for a change is then at the head of its loop with the
   version published last.
   */
  lemma RefreshIsCurrent<B>(meets: (B, nat) -> bool, workers: set<nat>, actions: seq<Action<B>>, a: Action<B>)
    requires var s := Run(meets, Start(workers), actions);
             (a.Receive? && CanReceive(s, a.w)) || (a.Refresh? && CanRefresh(s, a.w))
    ensures var s := Run(meets, Start(workers), actions + [a]);
            && a.w in s.workers && s.published != [] && s.workers[a.w].phase.Top?
            && s.workers[a.w].template == s.published[|s.published| - 1] && s.workers[a.w].seen == |s.published|
  {
    RunKeepsAllMineSeen(meets, workers, actions);
    assert (actions + [a])[..|actions|] == actions;
  }
}
