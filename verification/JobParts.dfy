/** Buffers with a part of the same size for each job of a batch. */
module JobParts {
  import opened Bits
  import opened LittleEndian

  function PartStart(job: nat, size: nat): nat {
    Product(job, size);
    job * size
  }

  ghost predicate Fits(n: nat, size: nat, jobs: seq<nat>) { forall j | j in jobs :: PartStart(j, size) + size <= n }

  function Part(bytes: seq<Byte>, size: nat, job: nat): (r: seq<Byte>)
    requires PartStart(job, size) + size <= |bytes|
    ensures |r| == size
  {
    bytes[PartStart(job, size)..PartStart(job, size) + size]
  }

  /** Only n bytes from a place on have been written. */
  ghost predicate OnlyPart(before: seq<Byte>, at: nat, n: nat, after: seq<Byte>) {
    && |after| == |before| && at + n <= |before|
    && after[..at] == before[..at] && after[at + n..] == before[at + n..]
  }

  /** A byte that belongs to none of the jobs. */
  ghost predicate Outside(b: nat, size: nat, jobs: seq<nat>) {
    forall j | j in jobs :: b < PartStart(j, size) || PartStart(j, size) + size <= b
  }

  ghost predicate OthersStay(before: seq<Byte>, after: seq<Byte>, size: nat, jobs: seq<nat>) {
    |after| == |before| && forall b: nat | b < |after| && Outside(b, size, jobs) :: after[b] == before[b]
  }

  /** The part of each job is as it should be. */
  ghost predicate AllHold(bytes: seq<Byte>, size: nat, jobs: seq<nat>, good: (nat, seq<Byte>) -> bool) {
    forall j | j in jobs :: PartStart(j, size) + size <= |bytes| && good(j, Part(bytes, size, j))
  }

  lemma PlacedIsPart(before: seq<Byte>, at: nat, x: seq<Byte>, after: seq<Byte>)
    requires Placed(before, at, x, after)
    ensures OnlyPart(before, at, |x|, after) && after[at..at + |x|] == x
  {
  }

  lemma PartsAreDisjoint(i: nat, j: nat, size: nat)
    requires i < j
    ensures PartStart(i, size) + size <= PartStart(j, size)
  {
    Product(j - i - 1, size);
    assert j * size == i * size + size + (j - i - 1) * size;
  }

  lemma SliceOfSlice(s: seq<Byte>, at: nat, n: nat, i: nat, j: nat)
    requires at + n <= |s| && i <= j <= n
    ensures s[at..at + n][i..j] == s[at + i..at + j]
  {
    var x, y := s[at..at + n][i..j], s[at + i..at + j];
    assert |x| == |y|;
    assert forall k | 0 <= k < |x| :: x[k] == s[at + i + k] == y[k];
  }

  lemma SliceBehind(s: seq<Byte>, at: nat, i: nat, j: nat)
    requires at <= i <= j <= |s|
    ensures s[at..][i - at..j - at] == s[i..j]
  {
    var x, y := s[at..][i - at..j - at], s[i..j];
    assert |x| == |y|;
    assert forall k | 0 <= k < |x| :: x[k] == s[i + k] == y[k];
  }

  lemma OtherPartStays(before: seq<Byte>, after: seq<Byte>, size: nat, job: nat, other: nat)
    requires OnlyPart(before, PartStart(job, size), size, after) && other != job
    requires PartStart(other, size) + size <= |before|
    ensures Part(after, size, other) == Part(before, size, other)
  {
    hide PartStart;
    var at, s := PartStart(job, size), PartStart(other, size);
    if other < job {
      PartsAreDisjoint(other, job, size);
      SliceOfSlice(after, 0, at, s, s + size);
      SliceOfSlice(before, 0, at, s, s + size);
      assert after[0..at] == after[..at] == before[..at] == before[0..at];
    } else {
      PartsAreDisjoint(job, other, size);
      SliceBehind(after, at + size, s, s + size);
      SliceBehind(before, at + size, s, s + size);
    }
  }

  /** The jobs done so far, and the one done now. */
  lemma OneMoreHolds(before: seq<Byte>, after: seq<Byte>, size: nat, jobs: seq<nat>, job: nat,
                     good: (nat, seq<Byte>) -> bool)
    requires AllHold(before, size, jobs, good) && OnlyPart(before, PartStart(job, size), size, after)
    requires good(job, Part(after, size, job))
    ensures AllHold(after, size, jobs + [job], good)
  {
    forall j | j in jobs + [job] ensures PartStart(j, size) + size <= |after| && good(j, Part(after, size, j)) {
      if j != job {
        assert j in jobs;
        OtherPartStays(before, after, size, job, j);
      }
    }
  }

  /** The jobs that are still to come. */
  lemma RestStays(before: seq<Byte>, after: seq<Byte>, size: nat, jobs: seq<nat>, job: nat,
                  good: (nat, seq<Byte>) -> bool)
    requires AllHold(before, size, jobs, good) && OnlyPart(before, PartStart(job, size), size, after) && job !in jobs
    ensures AllHold(after, size, jobs, good)
  {
    forall j | j in jobs ensures PartStart(j, size) + size <= |after| && good(j, Part(after, size, j)) {
      OtherPartStays(before, after, size, job, j);
    }
  }

  lemma OneMoreStays(before: seq<Byte>, middle: seq<Byte>, after: seq<Byte>, size: nat, jobs: seq<nat>, job: nat)
    requires OthersStay(before, middle, size, jobs) && OnlyPart(middle, PartStart(job, size), size, after)
    ensures OthersStay(before, after, size, jobs + [job])
  {
    forall b: nat | b < |after| && Outside(b, size, jobs + [job]) ensures after[b] == before[b] {
      assert job in jobs + [job] && forall j | j in jobs :: j in jobs + [job];
      var at := PartStart(job, size);
      if b < at {
        assert after[b] == after[..at][b] == middle[..at][b];
      } else {
        assert after[b] == after[at + size..][b - at - size] == middle[at + size..][b - at - size];
      }
    }
  }

  lemma NothingDone(bytes: seq<Byte>, size: nat, good: (nat, seq<Byte>) -> bool)
    ensures AllHold(bytes, size, [], good) && OthersStay(bytes, bytes, size, [])
  {
  }
}
