/**
 A batch on the device (GpuSearch in src/gpu.rs): the records of all jobs are prepared, and three kernels run over
 all of them; what the host reads back is right for every job, whatever the order of the work items.
 */
module Batch {
  import opened Argon2id
  import opened JobParts
  import opened LittleEndian
  import opened LongHash
  import opened ReferenceIndex
  import Bits
  import FillKernels
  import JobPreparation
  import KeccakWords
  import NoncePartition

  // ------------------------------------------------------------ the launches

  /** What is known of the part of each job, given the records. */
  ghost function Begun(hash: Digest, inputs: Bytes): (nat, Bytes) -> bool
    requires IsDigest(hash)
  {
    (job: nat, part: Bytes) => Begins(hash, InputOf(inputs, job), part)
  }

  ghost function Ended(p: Params, hash: Digest, inputs: Bytes): (nat, Bytes) -> bool
    requires Launch(p) && IsDigest(hash)
  {
    (job: nat, part: Bytes) => Ends(hash, part, TagOf(p, hash, InputOf(inputs, job)))
  }

  ghost function Tagged(p: Params, hash: Digest, inputs: Bytes): (nat, Bytes) -> bool
    requires Launch(p) && IsDigest(hash)
  {
    (job: nat, part: Bytes) => part == TagOf(p, hash, InputOf(inputs, job))
  }

  ghost predicate Distinct(order: seq<nat>) { forall i, k | 0 <= i < k < |order| :: order[i] != order[k] }

  lemma NextInOrder(order: seq<nat>, k: nat)
    requires k < |order|
    ensures order[..k + 1] == order[..k] + [order[k]] && order[k] in order
  {
  }

  /** velkar_init_first_blocks */
  method InitJobs<S(!new)>(blake: Blake<S>, memory: array<Byte>, inputs: Bytes, order: seq<nat>, ghost hash: Digest)
    requires Computes(blake, hash) && IsDigest(hash) && Fits(memory.Length, JOB_MEMORY, order)
    modifies memory
    ensures AllHold(memory[..], JOB_MEMORY, order, Begun(hash, inputs))
    ensures OthersStay(old(memory[..]), memory[..], JOB_MEMORY, order)
  {
    hide Computes, Begins, OnlyPart, OthersStay, AllHold;
    ghost var good := Begun(hash, inputs);
    NothingDone(memory[..], JOB_MEMORY, good);
    for k: nat := 0 to |order|
      invariant AllHold(memory[..], JOB_MEMORY, order[..k], good)
      invariant OthersStay(old(memory[..]), memory[..], JOB_MEMORY, order[..k])
    {
      ghost var before := memory[..];
      NextInOrder(order, k);
      InitJob(blake, memory, inputs, order[k], hash);
      OneMoreHolds(before, memory[..], JOB_MEMORY, order[..k], order[k], good);
      OneMoreStays(old(memory[..]), before, memory[..], JOB_MEMORY, order[..k], order[k]);
    }
    assert order[..|order|] == order;
  }

  lemma StillToCome(bytes: Bytes, size: nat, order: seq<nat>, k: nat, good: (nat, Bytes) -> bool)
    requires k < |order| && Distinct(order) && AllHold(bytes, size, order[k..], good)
    ensures PartStart(order[k], size) + size <= |bytes| && good(order[k], Part(bytes, size, order[k]))
    ensures AllHold(bytes, size, order[k + 1..], good) && order[k] !in order[k + 1..]
  {
    assert order[k..] == [order[k]] + order[k + 1..];
  }

  /** argon2_kernel_oneshot_precompute: a work-group for every job. */
  method FillJobs(device: FillKernels.Device, memory: array<Byte>, order: seq<nat>, ghost inputs: Bytes,
                  ghost hash: Digest)
    requires Ready(device) && IsDigest(hash) && Distinct(order)
    requires AllHold(memory[..], JOB_MEMORY, order, Begun(hash, inputs))
    modifies device`mem, device.warp, memory
    ensures Ready(device) && AllHold(memory[..], JOB_MEMORY, order, Ended(device.p, hash, inputs))
    ensures OthersStay(old(memory[..]), memory[..], JOB_MEMORY, order)
  {
    hide Begins, Ends, TagOf, OnlyPart, OthersStay, AllHold;
    ghost var begun, ended := Begun(hash, inputs), Ended(device.p, hash, inputs);
    NothingDone(memory[..], JOB_MEMORY, ended);
    assert order[0..] == order;
    for k: nat := 0 to |order|
      invariant Ready(device)
      invariant AllHold(memory[..], JOB_MEMORY, order[..k], ended) && AllHold(memory[..], JOB_MEMORY, order[k..], begun)
      invariant OthersStay(old(memory[..]), memory[..], JOB_MEMORY, order[..k])
    {
      ghost var before := memory[..];
      NextInOrder(order, k);
      StillToCome(before, JOB_MEMORY, order, k, begun);
      FillJob(device, memory, order[k], hash, InputOf(inputs, order[k]));
      OneMoreHolds(before, memory[..], JOB_MEMORY, order[..k], order[k], ended);
      RestStays(before, memory[..], JOB_MEMORY, order[k + 1..], order[k], begun);
      OneMoreStays(old(memory[..]), before, memory[..], JOB_MEMORY, order[..k], order[k]);
    }
    assert order[..|order|] == order;
  }

  /** The nonces of the jobs have been read from their records, and the others are as before. */
  ghost predicate NoncesOf(inputs: Bytes, jobs: seq<nat>, before: seq<Word>, after: seq<Word>) {
    && |after| == |before|
    && forall j: nat | j < |after| :: after[j] == if j in jobs then NonceOf(InputOf(inputs, j)) else before[j]
  }

  /** velkar_export_stage4 */
  method ExportJobs<S(!new)>(blake: Blake<S>, memory: Bytes, inputs: Bytes, stage4Out: array<Byte>,
                             nonceOut: array<Word>, order: seq<nat>, ghost p: Params, ghost hash: Digest)
    requires Computes(blake, hash) && IsDigest(hash) && Launch(p) && Fits(|inputs|, 192, order)
    requires AllHold(memory, JOB_MEMORY, order, Ended(p, hash, inputs))
    requires Fits(stage4Out.Length, 32, order) && forall j | j in order :: j < nonceOut.Length
    modifies stage4Out, nonceOut
    ensures AllHold(stage4Out[..], 32, order, Tagged(p, hash, inputs))
    ensures OthersStay(old(stage4Out[..]), stage4Out[..], 32, order)
    ensures NoncesOf(inputs, order, old(nonceOut[..]), nonceOut[..])
  {
    hide Computes, Ends, TagOf, OnlyPart, OthersStay;
    ghost var good := Tagged(p, hash, inputs);
    NothingDone(stage4Out[..], 32, good);
    for k: nat := 0 to |order|
      invariant AllHold(stage4Out[..], 32, order[..k], good)
      invariant OthersStay(old(stage4Out[..]), stage4Out[..], 32, order[..k])
      invariant NoncesOf(inputs, order[..k], old(nonceOut[..]), nonceOut[..])
    {
      ghost var before := stage4Out[..];
      NextInOrder(order, k);
      ExportJob(blake, memory, inputs, stage4Out, nonceOut, order[k], hash, TagOf(p, hash, InputOf(inputs, order[k])));
      OneMoreHolds(before, stage4Out[..], 32, order[..k], order[k], good);
      OneMoreStays(old(stage4Out[..]), before, stage4Out[..], 32, order[..k], order[k]);
    }
    assert order[..|order|] == order;
  }

  // ------------------------------------------------------------ the whole batch

  /** Each of n jobs has one work item. */
  ghost predicate IsOrder(order: seq<nat>, n: nat) { Distinct(order) && forall j: nat :: j in order <==> j < n }

  lemma OrderFits(order: seq<nat>, n: nat, size: nat, length: nat)
    requires IsOrder(order, n) && PartStart(n, size) <= length
    ensures Fits(length, size, order)
  {
    forall j | j in order ensures PartStart(j, size) + size <= length {
      PartsAreDisjoint(j, n, size);
    }
  }

  lemma SameJobs(bytes: Bytes, size: nat, order: seq<nat>, order': seq<nat>, n: nat, good: (nat, Bytes) -> bool)
    requires IsOrder(order, n) && IsOrder(order', n) && AllHold(bytes, size, order, good)
    ensures AllHold(bytes, size, order', good)
  {
    forall j | j in order' ensures PartStart(j, size) + size <= |bytes| && good(j, Part(bytes, size, j)) {
      assert j in order;
    }
  }

  /** The fourth stage of a nonce as the standard defines it. */
  ghost function Stage4(prim: JobPreparation.Primitives, p: Params, hash: Digest, header: JobPreparation.Header,
                        m: JobPreparation.Matrix, target: JobPreparation.Hash, nonce: Word): (tag: Bytes)
    requires JobPreparation.WellFormed(prim) && Launch(p) && IsDigest(hash)
  {
    hide Tag;
    var stage1 := JobPreparation.Stage1(prim, header, nonce);
    var stage3 := JobPreparation.Heavy(prim, JobPreparation.Stage2(prim, m, stage1));
    Tag(p, hash, JobPreparation.Password(stage3, target, nonce), JobPreparation.Salt(prim, stage1, stage3))
  }

  lemma TagOfRecord(prim: JobPreparation.Primitives, p: Params, hash: Digest, header: JobPreparation.Header,
                    m: JobPreparation.Matrix, target: JobPreparation.Hash, nonce: Word)
    requires JobPreparation.WellFormed(prim) && Launch(p) && IsDigest(hash)
    ensures var record := JobPreparation.Record(prim, header, m, target, nonce);
            TagOf(p, hash, record) == Stage4(prim, p, hash, header, m, target, nonce) && NonceOf(record) == nonce
  {
    hide Tag, JobPreparation.Record;
    JobPreparation.RecordDecodes(prim, header, m, target, nonce);
  }

  /** The orders in which the work items of the four kernels run. */
  datatype Orders = Orders(prepare: seq<nat>, init: seq<nat>, fill: seq<nat>, exported: seq<nat>) {
    ghost predicate Of(n: nat) { IsOrder(prepare, n) && IsOrder(init, n) && IsOrder(fill, n) && IsOrder(exported, n) }
  }

  /** The buffers of a batch of n jobs. */
  datatype Buffers = Buffers(memory: array<Byte>, inputs: array<Byte>, stage4Out: array<Byte>, nonceOut: array<Word>) {
    ghost predicate For(n: nat) {
      && memory != inputs && memory != stage4Out && inputs != stage4Out
      && PartStart(n, JOB_MEMORY) <= memory.Length && PartStart(n, 192) <= inputs.Length
      && PartStart(n, 32) <= stage4Out.Length && n <= nonceOut.Length
    }
  }

  /** The three kernels that follow the preparation. */
  method RunKernels<S(!new)>(blake: Blake<S>, device: FillKernels.Device, buffers: Buffers, n: nat, orders: Orders,
                             ghost hash: Digest)
    requires Computes(blake, hash) && IsDigest(hash) && Ready(device) && buffers.For(n) && orders.Of(n)
    modifies device`mem, device.warp, buffers.memory, buffers.stage4Out, buffers.nonceOut
    ensures Ready(device)
    ensures AllHold(buffers.stage4Out[..], 32, orders.exported, Tagged(device.p, hash, buffers.inputs[..]))
    ensures NoncesOf(buffers.inputs[..], orders.exported, old(buffers.nonceOut[..]), buffers.nonceOut[..])
  {
    hide Computes, Begins, Ends, TagOf, OthersStay, AllHold, Ready, NoncesOf;
    ghost var inputs, p := buffers.inputs[..], device.p;
    assert Launch(p) by { ReadyIsLaunch(device); }
    OrderFits(orders.init, n, JOB_MEMORY, buffers.memory.Length);
    InitJobs(blake, buffers.memory, buffers.inputs[..], orders.init, hash);
    SameJobs(buffers.memory[..], JOB_MEMORY, orders.init, orders.fill, n, Begun(hash, inputs));
    FillJobs(device, buffers.memory, orders.fill, inputs, hash);
    SameJobs(buffers.memory[..], JOB_MEMORY, orders.fill, orders.exported, n, Ended(p, hash, inputs));
    OrderFits(orders.exported, n, 192, buffers.inputs.Length);
    OrderFits(orders.exported, n, 32, buffers.stage4Out.Length);
    ExportJobs(blake, buffers.memory[..], buffers.inputs[..], buffers.stage4Out, buffers.nonceOut, orders.exported, p,
               hash);
  }

  lemma ReadyIsLaunch(device: FillKernels.Device)
    requires Ready(device)
    ensures Launch(device.p)
  {
  }

  /** What a job is about: the header and its matrix, the target, and the nonces of the batch. */
  datatype Work = Work(header: JobPreparation.Header, m: JobPreparation.Matrix, target: JobPreparation.Hash, base: nat,
                       partition: NoncePartition.Partition) {
    function Nonce(job: nat): Word
      requires partition.InWords()
    {
      JobPreparation.JobNonce(partition, base, job)
    }

    function Record(prim: JobPreparation.Primitives, job: nat): Bytes
      requires JobPreparation.WellFormed(prim) && partition.InWords()
    {
      JobPreparation.Record(prim, header, m, target, Nonce(job))
    }
  }

  /** The record, the nonce and the fourth stage of a job are right. */
  ghost predicate IsDone(prim: JobPreparation.Primitives, p: Params, hash: Digest, work: Work, job: nat, inputs: Bytes,
                         stage4: Bytes, nonces: seq<Word>)
    requires JobPreparation.WellFormed(prim) && work.partition.InWords() && Launch(p) && IsDigest(hash)
  {
    hide Stage4;
    && JobPreparation.JobHolds(inputs, job, work.Record(prim, job))
    && job < |nonces| && nonces[job] == work.Nonce(job)
    && PartStart(job, 32) + 32 <= |stage4|
    && Part(stage4, 32, job) == Stage4(prim, p, hash, work.header, work.m, work.target, work.Nonce(job))
  }

  lemma NonceOfDone(prim: JobPreparation.Primitives, p: Params, hash: Digest, work: Work, job: nat, inputs: Bytes,
                    stage4: Bytes, nonces: seq<Word>)
    requires JobPreparation.WellFormed(prim) && work.partition.InWords() && Launch(p) && IsDigest(hash)
    requires IsDone(prim, p, hash, work, job, inputs, stage4, nonces)
    ensures job < |nonces| && nonces[job] == work.Nonce(job)
  {
  }

  lemma JobIsDone(prim: JobPreparation.Primitives, p: Params, hash: Digest, work: Work, job: nat, inputs: Bytes,
                  stage4: Bytes, before: seq<Word>, nonces: seq<Word>, order: seq<nat>)
    requires JobPreparation.WellFormed(prim) && work.partition.InWords() && Launch(p) && IsDigest(hash)
    requires JobPreparation.JobHolds(inputs, job, work.Record(prim, job)) && job in order && job < |nonces|
    requires AllHold(stage4, 32, order, Tagged(p, hash, inputs)) && NoncesOf(inputs, order, before, nonces)
    ensures IsDone(prim, p, hash, work, job, inputs, stage4, nonces)
  {
    hide Stage4, TagOf, NonceOf, JobPreparation.Record;
    TagOfRecord(prim, p, hash, work.header, work.m, work.target, work.Nonce(job));
    assert InputOf(inputs, job) == work.Record(prim, job);
  }

  /** The nonces of a batch count on from the base in the lowest f bits, and within 2^f of each other they differ. */
  ghost predicate NoncesInOrder(fixed: nat, f: nat, base: nat, n: nat, nonces: seq<Word>) {
    && n <= |nonces|
    && (forall job: nat | job < n :: nonces[job] == fixed + (base + job) % Bits.Pow2(f))
    && (forall i: nat, k: nat | i < k < n && k < i + Bits.Pow2(f) :: nonces[i] != nonces[k])
  }

  lemma NoncesCountOn(work: Work, f: nat, n: nat, nonces: seq<Word>)
    requires work.partition.Splits(f) && work.partition.InWords() && n <= |nonces|
    requires forall job: nat | job < n :: nonces[job] == work.Nonce(job)
    ensures NoncesInOrder(work.partition.fixed, f, work.base, n, nonces)
  {
    hide Bits.Pow2;
    forall job: nat | job < n ensures nonces[job] == work.partition.fixed + (work.base + job) % Bits.Pow2(f) {
      JobPreparation.NonceOfJob(work.partition, f, work.base, job);
    }
    forall i: nat, k: nat | i < k < n && k < i + Bits.Pow2(f) ensures nonces[i] != nonces[k] {
      Bits.SameRemainder(work.base + i, work.base + k, Bits.Pow2(f));
    }
  }

  /**
   search: velkar_prepare_jobs and the kernels behind it, for the n jobs of a batch.  Afterwards every job has the
   record of its masked nonce, that nonce, and the Argon2id tag for its password and salt.
   */
  method RunBatch<S(!new)>(prim: JobPreparation.Primitives, blake: Blake<S>, device: FillKernels.Device,
                           buffers: Buffers, n: nat, orders: Orders, constants: Bytes, work: Work)
    requires JobPreparation.WellFormed(prim) && WellFormed(blake) && Ready(device) && Launch(device.p)
    requires buffers.For(n) && orders.Of(n)
    requires JobPreparation.Uploaded(constants, work.header, work.m) && work.partition.InWords()
    modifies device`mem, device.warp, buffers.memory, buffers.inputs, buffers.stage4Out, buffers.nonceOut
    ensures Ready(device)
    ensures IsDigest(DigestOf(blake)) && forall job: nat | job < n ::
      IsDone(prim, device.p, DigestOf(blake), work, job, buffers.inputs[..], buffers.stage4Out[..],
             buffers.nonceOut[..])
    ensures forall f: nat | work.partition.Splits(f) ::
      NoncesInOrder(work.partition.fixed, f, work.base, n, buffers.nonceOut[..])
  {
    hide Computes, DigestOf, TagOf, OthersStay, AllHold, Ready, NoncesOf, IsDone, JobPreparation.Uploaded,
         JobPreparation.Record, JobPreparation.JobHolds, JobPreparation.WellFormed;
    ghost var hash, p := DigestOf(blake), device.p;
    DigestOfComputes(blake);
    DigestOfKernel(blake, hash);
    OrderFits(orders.prepare, n, 192, buffers.inputs.Length);
    JobPreparation.PrepareJobs(prim, buffers.inputs, orders.prepare, constants, work.base, work.partition, work.target,
                               work.header, work.m);
    ghost var inputs, before := buffers.inputs[..], buffers.nonceOut[..];
    RunKernels(blake, device, buffers, n, orders, hash);
    forall job: nat | job < n
      ensures IsDone(prim, p, hash, work, job, inputs, buffers.stage4Out[..], buffers.nonceOut[..])
    {
      assert job in orders.prepare && job in orders.exported;
      JobIsDone(prim, p, hash, work, job, inputs, buffers.stage4Out[..], before, buffers.nonceOut[..], orders.exported);
    }
    forall f: nat | work.partition.Splits(f)
      ensures NoncesInOrder(work.partition.fixed, f, work.base, n, buffers.nonceOut[..])
    {
      forall job: nat | job < n ensures buffers.nonceOut[job] == work.Nonce(job) {
        NonceOfDone(prim, p, hash, work, job, inputs, buffers.stage4Out[..], buffers.nonceOut[..]);
      }
      NoncesCountOn(work, f, n, buffers.nonceOut[..]);
    }
  }

  // ------------------------------------------------------------ the host

  /** The memory-hard hash of the CPU is Argon2id. */
  ghost predicate HashesWithArgon2id(prim: JobPreparation.Primitives, p: Params, hash: Digest)
    requires Launch(p) && IsDigest(hash)
  {
    forall password: Bytes, salt: Bytes :: prim.argon(password, salt) == HashFromLe(Tag(p, hash, password, salt))
  }

  /** The comparison with the CPU, from what the host has read back, succeeds for every job that is done. */
  method Validate(prim: JobPreparation.Primitives, work: Work, job: nat, inputs: Bytes, stage4: Bytes,
                  nonces: seq<Word>,
                  ghost p: Params, ghost hash: Digest)
    returns (same: bool)
    requires JobPreparation.WellFormed(prim) && work.partition.InWords() && Launch(p) && IsDigest(hash)
    requires HashesWithArgon2id(prim, p, hash) && IsDone(prim, p, hash, work, job, inputs, stage4, nonces)
    ensures same
  {
    hide Tag, JobPreparation.Record;
    JobPreparation.RecordDecodes(prim, work.header, work.m, work.target, work.Nonce(job));
    same := JobPreparation.ValidateStages(prim, work.header, work.m, work.target, nonces[job], Part(inputs, 192, job),
                                          HashFromLe(Part(stage4, 32, job)));
  }

  /** The parts of the miner: Keccak, the initial states, and a library that computes Argon2id. */
  function MinerPrimitives(p: Params, hash: Digest): JobPreparation.Primitives
    requires Launch(p) && IsDigest(hash)
  {
    KeccakWords.Instance((password: Bytes, salt: Bytes) => HashFromLe(Tag(p, hash, password, salt)))
  }

  /** They meet all that is assumed above. */
  lemma MinerPrimitivesFit(p: Params, hash: Digest)
    requires Launch(p) && IsDigest(hash)
    ensures var prim := MinerPrimitives(p, hash);
            JobPreparation.WellFormed(prim) && HashesWithArgon2id(prim, p, hash) && prim.perm == KeccakWords.Permuted
  {
    hide Tag;
    KeccakWords.InstanceIsWellFormed(MinerPrimitives(p, hash).argon);
  }
}
