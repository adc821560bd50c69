/**
 The rate limit on shares (src/miner.rs, should_submit_share and submit_hit): a worker reads the
 clock, loads the time of the last share, gives up if that is less than 250 ms ago, and otherwise
 tries to exchange it for its own time. Any number of workers take these steps in any order, and
 the clock may show anything at every reading.
 */
module ShareLimiter {

  const INTERVAL: nat := 250

  datatype Phase =
    | Idle
    | Timed(now: nat)
    | Loaded(now: nat, previous: nat, count: nat)   // after the comparison; count is how many claims had succeeded

  /** The shared word, the workers, and the times of the claims that succeeded. */
  datatype State = State(last: nat, workers: map<nat, Phase>, claims: seq<nat>)

  datatype Action = Join(w: nat) | ReadClock(w: nat, now: nat) | Load(w: nat) | Exchange(w: nat)

  function SaturatingSub(a: nat, b: nat): nat { if a < b then 0 else a - b }

  predicate Enabled(s: State, a: Action) {
    match a
    case Join(w) => w !in s.workers
    case ReadClock(w, _) => w in s.workers && s.workers[w].Idle?
    case Load(w) => w in s.workers && s.workers[w].Timed?
    case Exchange(w) => w in s.workers && s.workers[w].Loaded?
  }

  function Step(s: State, a: Action): State {
    if !Enabled(s, a) then s
    else
      match a
      case Join(w) => s.(workers := s.workers[w := Idle])
      case ReadClock(w, now) => s.(workers := s.workers[w := Timed(now)])
      case Load(w) =>
        var now := s.workers[w].now;
        s.(workers := s.workers[w :=
          if SaturatingSub(now, s.last) < INTERVAL then Idle else Loaded(now, s.last, |s.claims|)])
      case Exchange(w) =>
        var at := s.workers[w];
        var done := s.(workers := s.workers[w := Idle]);
        if s.last == at.previous then done.(last := at.now, claims := s.claims + [at.now]) else done
  }

  function Run(actions: seq<Action>): State {
    if actions == [] then State(0, map[], []) else Step(Run(actions[..|actions| - 1]), actions[|actions| - 1])
  }

  /** The times go up by at least the interval from claim to claim. */
  ghost predicate Spaced(claims: seq<nat>) { forall i | 0 <= i < |claims| - 1 :: claims[i] + INTERVAL <= claims[i + 1] }

  function LastOf(claims: seq<nat>): nat { if claims == [] then 0 else claims[|claims| - 1] }

  ghost predicate Inv(s: State) {
    && Spaced(s.claims) && s.last == LastOf(s.claims) && (s.claims != [] ==> INTERVAL <= s.claims[0])
    && forall w | w in s.workers && s.workers[w].Loaded? ::
         var at := s.workers[w];
         && at.previous + INTERVAL <= at.now && at.count <= |s.claims| && at.previous == LastOf(s.claims[..at.count])
  }

  lemma StepKeepsInv(s: State, a: Action)
    requires Inv(s)
    ensures Inv(Step(s, a)) && s.claims <= Step(s, a).claims
  {
    var s' := Step(s, a);
    assert s.claims[..|s.claims|] == s.claims;
    forall w | w in s'.workers && s'.workers[w].Loaded?
      ensures var at := s'.workers[w];
              at.previous + INTERVAL <= at.now && at.count <= |s'.claims|
                && at.previous == LastOf(s'.claims[..at.count])
    {
      if w in s.workers && s.workers[w].Loaded? {
        assert s'.claims[..s.workers[w].count] == s.claims[..s.workers[w].count];
      }
    }
  }

  lemma {:induction false} RunKeepsInv(actions: seq<Action>)
    ensures Inv(Run(actions))
  {
    if actions != [] {
      RunKeepsInv(actions[..|actions| - 1]);
      StepKeepsInv(Run(actions[..|actions| - 1]), actions[|actions| - 1]);
    }
  }

  lemma {:induction false} SpacedFar(claims: seq<nat>, i: nat, j: nat)
    requires Spaced(claims) && i <= j < |claims|
    ensures claims[i] + INTERVAL * (j - i) <= claims[j]
  {
    if i < j {
      SpacedFar(claims, i, j - 1);
      assert claims[j - 1] + INTERVAL <= claims[j - 1 + 1];
    }
  }

  /** Over every run the times of the claims are a strictly increasing sequence with gaps of at least 250. */
  lemma ClaimsAreSpaced(actions: seq<Action>, i: nat, j: nat)
    requires i < j < |Run(actions).claims|
    ensures Run(actions).claims[i] + 250 * (j - i) <= Run(actions).claims[j]
  {
    RunKeepsInv(actions);
    SpacedFar(Run(actions).claims, i, j);
  }

  /** The steps of one worker that lead to claims at the given times, when the clock shows them. */
  function Claiming(times: seq<nat>): seq<Action> {
    if times == [] then [Join(0)]
    else Claiming(times[..|times| - 1]) + [ReadClock(0, times[|times| - 1]), Load(0), Exchange(0)]
  }

  lemma OneAction(actions: seq<Action>, a: Action)
    ensures Run(actions + [a]) == Step(Run(actions), a)
  {
    assert (actions + [a])[..|actions|] == actions;
  }

  lemma ThreeActions(actions: seq<Action>, a: Action, b: Action, c: Action)
    ensures Run(actions + [a, b, c]) == Step(Step(Step(Run(actions), a), b), c)
  {
    hide Step;
    OneAction(actions, a);
    OneAction(actions + [a], b);
    OneAction(actions + [a] + [b], c);
    assert actions + [a, b, c] == actions + [a] + [b] + [c];
  }

  lemma OneClaim(s: State, time: nat)
    requires s.workers == map[0 := Idle] && s.last + 250 <= time
    ensures Step(Step(Step(s, ReadClock(0, time)), Load(0)), Exchange(0))
         == State(time, map[0 := Idle], s.claims + [time])
  {
    var s1 := Step(s, ReadClock(0, time));
    assert s1 == State(s.last, map[0 := Timed(time)], s.claims);
    var s2 := Step(s1, Load(0));
    assert s2 == State(s.last, map[0 := Loaded(time, s.last, |s.claims|)], s.claims);
  }

  lemma {:induction false} ClaimingWorks(times: seq<nat>)
    requires (times != [] ==> times[0] >= 250) && forall i | 0 <= i < |times| - 1 :: times[i] + 250 <= times[i + 1]
    ensures var s := Run(Claiming(times));
            && s.claims == times && s.last == LastOf(times) && s.workers == map[0 := Idle]
  {
    if times == [] {
      OneAction([], Join(0));
      assert [] + [Join(0)] == [Join(0)];
    } else {
      var before, time := times[..|times| - 1], times[|times| - 1];
      ClaimingWorks(before);
      assert LastOf(before) + 250 <= time;
      OneClaim(Run(Claiming(before)), time);
      ThreeActions(Claiming(before), ReadClock(0, time), Load(0), Exchange(0));
      assert times == before + [time];
    }
  }

  /** Exactly the sequences of times from 250 on with gaps of at least 250 are the claims of some run. */
  lemma ClaimsIff(times: seq<nat>)
    ensures (exists actions :: Run(actions).claims == times)
       <==> (times != [] ==> times[0] >= 250) && forall i | 0 <= i < |times| - 1 :: times[i] + 250 <= times[i + 1]
  {
    if actions :| Run(actions).claims == times {
      RunKeepsInv(actions);
    }
    if (times != [] ==> times[0] >= 250) && forall i | 0 <= i < |times| - 1 :: times[i] + 250 <= times[i + 1] {
      ClaimingWorks(times);
    }
  }

  /** How many of the times lie between lo and hi. */
  function Within(claims: seq<nat>, lo: int, hi: int): nat {
    if claims == [] then 0
    else
      var time := claims[|claims| - 1];
      Within(claims[..|claims| - 1], lo, hi) + if lo <= time <= hi then 1 else 0
  }

  lemma {:induction false} WithinIsCount(claims: seq<nat>, lo: int, hi: int)
    ensures Within(claims, lo, hi) == |set i | 0 <= i < |claims| && lo <= claims[i] <= hi|
  {
    var found := set i | 0 <= i < |claims| && lo <= claims[i] <= hi;
    if claims != [] {
      var n := |claims| - 1;
      WithinIsCount(claims[..n], lo, hi);
      var before := set i | 0 <= i < n && lo <= claims[..n][i] <= hi;
      assert found == if lo <= claims[n] <= hi then before + {n} else before;
    }
  }

  lemma {:induction false} NoneAbove(claims: seq<nat>, lo: int, mid: int, hi: int)
    requires forall i | 0 <= i < |claims| :: claims[i] <= mid
    requires mid <= hi
    ensures Within(claims, lo, hi) == Within(claims, lo, mid)
    ensures mid < lo ==> Within(claims, lo, mid) == 0
  {
    if claims != [] {
      NoneAbove(claims[..|claims| - 1], lo, mid, hi);
    }
  }

  lemma {:induction false} WithinBound(claims: seq<nat>, lo: int, hi: int)
    requires Spaced(claims) && lo <= hi
    ensures Within(claims, lo, hi) <= (hi - lo) / INTERVAL + 1
    decreases |claims|
  {
    if claims != [] {
      var before, time := claims[..|claims| - 1], claims[|claims| - 1];
      if lo <= time <= hi {
        forall i | 0 <= i < |before| ensures before[i] <= time - INTERVAL {
          SpacedFar(claims, i, |claims| - 1);
        }
        NoneAbove(before, lo, time - INTERVAL, hi);
        if lo <= time - INTERVAL {
          WithinBound(before, lo, time - INTERVAL);
        }
      } else {
        WithinBound(before, lo, hi);
      }
    }
  }

  /** A window of w milliseconds holds at most w / 250 + 1 claims. */
  lemma WindowBound(actions: seq<Action>, start: int, w: nat)
    ensures Within(Run(actions).claims, start, start + w) <= w / 250 + 1
  {
    RunKeepsInv(actions);
    WithinBound(Run(actions).claims, start, start + w);
  }

  /**
   The exchange succeeds exactly if no other claim did since the load: a failed one means that another
   worker claimed in between, and the same time can never come back.
   */
  lemma ExchangeSucceedsIffUndisturbed(actions: seq<Action>, w: nat)
    requires w in Run(actions).workers && Run(actions).workers[w].Loaded?
    ensures var s := Run(actions);
            var s' := Step(s, Exchange(w));
            && (s'.claims == s.claims + [s.workers[w].now] <==> |s.claims| == s.workers[w].count)
            && (s'.claims == s.claims <==> |s.claims| > s.workers[w].count)
  {
    RunKeepsInv(actions);
    var s := Run(actions);
    var at := s.workers[w];
    assert s.claims[..|s.claims|] == s.claims;
    if at.count < |s.claims| {
      if at.count > 0 {
        SpacedFar(s.claims, at.count - 1, |s.claims| - 1);
        assert LastOf(s.claims[..at.count]) == s.claims[at.count - 1];
      } else {
        SpacedFar(s.claims, 0, |s.claims| - 1);
      }
      assert s.last != at.previous;
    }
  }
}
