/**
 The whole memory-hard hash of a job: the first two blocks, the fill by the threads and the digest of the last
 block, put together to Argon2id of RFC 9106 for one lane, one pass, 8192 KiB and 32 bytes of tag.
 */
module Argon2id {
  import opened ArgonFill
  import opened JobParts
  import opened LaneWords
  import opened LittleEndian
  import opened LongHash
  import opened ReferenceIndex
  import opened ThreadBlocks
  import BlockPermutation
  import FillKernels
  import FirstPass
  import JobPreparation

  /** The shape of every launch. */
  ghost predicate Launch(p: Params) { p.lanes == 1 && p.passes == 1 && p.LaneBlocks() == 8192 }

  /** The memory of a job in bytes. */
  const JOB_MEMORY: nat := 8192 * 1024

  /** The last block of the one lane. */
  const LAST := Cell(8191, 0)

  // ------------------------------------------------------------ blocks in bytes

  /** struct block_g: 128 words, the least significant byte of each first. */
  function BlockOf(bytes: Bytes): Block
    requires |bytes| == 1024
  {
    seq(128, n requires 0 <= n < 128 => WordFromLe(bytes[8 * n..8 * n + 8]))
  }

  function BytesOf(block: Block): (r: Bytes)
    ensures |r| == 1024
  {
    seq(1024, k requires 0 <= k < 1024 => ToLe(block[k / 8], 8)[k % 8])
  }

  lemma BytesOfBlock(bytes: Bytes)
    requires |bytes| == 1024
    ensures BytesOf(BlockOf(bytes)) == bytes
  {
    forall k: nat | k < 1024 ensures BytesOf(BlockOf(bytes))[k] == bytes[k] {
      ToFromLe(bytes[8 * (k / 8)..8 * (k / 8) + 8]);
    }
  }

  lemma BlockOfBytes(block: Block)
    ensures BlockOf(BytesOf(block)) == block
  {
    hide WordFromLe, ToLe;
    forall n: nat | n < 128 ensures BlockOf(BytesOf(block))[n] == block[n] {
      assert BytesOf(block)[8 * n..8 * n + 8] == ToLe(block[n], 8);
      WordRoundTrip(block[n]);
    }
  }

  /** Word n of a block is the number of the bytes from 8n on. */
  lemma WordInBytes(block: Block, n: nat)
    requires n < 128
    ensures FromLe(BytesOf(block)[8 * n..8 * n + 8]) == block[n]
  {
    assert BytesOf(block)[8 * n..8 * n + 8] == ToLe(block[n], 8);
    WordRoundTrip(block[n]);
  }

  /** The memory of a job as the fill sees it, and what the fill leaves as bytes: the block of column c at 1024 c. */
  function Loaded(p: Params, bytes: Bytes): (mem: Memory<Block>)
    requires Launch(p) && |bytes| == JOB_MEMORY
    ensures mem.Keys == Cells(p)
  {
    map c | c in Cells(p) :: BlockOf(bytes[1024 * c.column..1024 * c.column + 1024])
  }

  function Stored(p: Params, mem: Memory<Block>): (r: Bytes)
    requires Launch(p) && mem.Keys == Cells(p)
    ensures |r| == JOB_MEMORY
  {
    seq(JOB_MEMORY, k requires 0 <= k < JOB_MEMORY =>
      assert Cell(k / 1024, 0) in Cells(p);
      BytesOf(mem[Cell(k / 1024, 0)])[k % 1024])
  }

  lemma StoredBlock(p: Params, mem: Memory<Block>, column: nat)
    requires Launch(p) && mem.Keys == Cells(p) && column < 8192
    ensures Cell(column, 0) in mem
    ensures Stored(p, mem)[1024 * column..1024 * column + 1024] == BytesOf(mem[Cell(column, 0)])
  {
    assert Cell(column, 0) in Cells(p);
  }

  // ------------------------------------------------------------ the standard

  /** GB of section 3.6 of RFC 9106 on words of 64 bits. */
  function MixerOfWords(): BlockPermutation.Mixer<Word> {
    (q: BlockPermutation.Quad<Word>) => GB(XorWord, Rotated, q)
  }

  /** The memory with its first two blocks; the other blocks are written before they are read. */
  function FirstMemory(p: Params, hash: Digest, password: Bytes, salt: Bytes): (mem: Memory<Block>)
    requires IsDigest(hash)
    ensures mem.Keys == Cells(p)
  {
    map c | c in Cells(p) ::
      if c.column < 2 then BlockOf(FirstBlock(hash, password, salt, c.column)) else BlockOf(Zeros(1024))
  }

  /** The memory after one pass, with the references of section 3.4.2. */
  function StandardMemory(p: Params, start: Memory<Block>): (mem: Memory<Block>)
    requires Launch(p) && start.Keys == Cells(p)
    ensures mem.Keys == Cells(p)
  {
    hide Standard, KernelBlocks, MixerOfWords;
    FillSize(Standard(p), KernelBlocks(MixerOfWords()), p, start, p.passes, 0);
    Fill(Standard(p), KernelBlocks(MixerOfWords()), p, start, p.passes, 0)
  }

  /** Section 3.2 of RFC 9106: the last block, after one pass over the memory, is hashed to the tag. */
  function Tag(p: Params, hash: Digest, password: Bytes, salt: Bytes): (tag: Bytes)
    requires Launch(p) && IsDigest(hash)
    ensures |tag| == 32
  {
    hide StandardMemory, FirstMemory, HPrime;
    var filled := StandardMemory(p, FirstMemory(p, hash, password, salt));
    assert LAST in Cells(p);
    HPrime(hash, 32, BytesOf(filled[LAST]))
  }

  // ------------------------------------------------------------ a job on the device

  /** What the fill kernels make of a job's memory. */
  function FilledMemory(p: Params, bytes: Bytes): (mem: Memory<Block>)
    requires Launch(p) && |bytes| == JOB_MEMORY
    ensures mem.Keys == Cells(p)
  {
    hide Kernel, KernelBlocks, MixerOfWords;
    FillSize(Kernel(p), KernelBlocks(MixerOfWords()), p, Loaded(p, bytes), p.passes, 0);
    Fill(Kernel(p), KernelBlocks(MixerOfWords()), p, Loaded(p, bytes), p.passes, 0)
  }

  lemma FilledIsFill(p: Params, bytes: Bytes)
    requires Launch(p) && |bytes| == JOB_MEMORY
    ensures FilledMemory(p, bytes)
         == Fill(Kernel(p), KernelBlocks(MixerOfWords()), p, Loaded(p, bytes), p.passes, 0)
  {
    hide Fill, Kernel, KernelBlocks, MixerOfWords, Loaded;
  }

  /** The device has its table, and its threads mix words with GB. */
  ghost predicate Ready(device: FillKernels.Device)
    reads device
  {
    device.Valid() && device.TableReady() && Launch(device.p) && device.warp.gb == MixerOfWords()
  }

  /** What the host does once: argon2_precompute_kernel makes the table that every later launch uses. */
  method Start(warp: LaneOfThreads, p: Params, mem: Memory<Block>, refs: seq<Cell>) returns (device: FillKernels.Device)
    requires Launch(p) && OnWords(warp) && warp.gb == MixerOfWords()
    requires mem.Keys == Cells(p) && |refs| >= p.LaneBlocks() / 2
    modifies warp
    ensures fresh(device) && Ready(device) && device.p == p && device.warp == warp
  {
    hide Kernel, KernelBlocks, MixerOfWords;
    device := new FillKernels.Device(warp, p, mem, refs);
    device.Precompute();
  }

  /** argon2_kernel_oneshot_precompute on the memory of a job. */
  method RunArgon(device: FillKernels.Device, memory: array<Byte>, at: nat)
    requires Ready(device) && at + JOB_MEMORY <= memory.Length
    modifies device`mem, device.warp, memory
    ensures Ready(device)
    ensures var before := old(memory[..])[at..at + JOB_MEMORY];
            Placed(old(memory[..]), at, Stored(device.p, FilledMemory(device.p, before)), memory[..])
  {
    hide Fill, Kernel, KernelBlocks, MixerOfWords, Loaded, Stored, FilledMemory;
    FilledIsFill(device.p, memory[at..at + JOB_MEMORY]);
    device.mem := Loaded(device.p, memory[at..at + JOB_MEMORY]);
    device.FillOneshot(true);
    Write(memory, at, Stored(device.p, device.mem));
  }

  /** Whatever the rest of the memory held, the digest of the last block is the tag. */
  lemma JobMeetsStandard(p: Params, hash: Digest, password: Bytes, salt: Bytes, bytes: Bytes)
    requires Launch(p) && IsDigest(hash) && |bytes| == JOB_MEMORY && bytes[..2048] == FirstBlocks(hash, password, salt)
    ensures HPrime(hash, 32, Stored(p, FilledMemory(p, bytes))[JOB_MEMORY - 1024..]) == Tag(p, hash, password, salt)
  {
    hide Fill, Kernel, Standard, KernelBlocks, MixerOfWords, HPrime, Stored, Loaded, FirstMemory, FilledMemory;
    var b := KernelBlocks(MixerOfWords());
    var start := FirstMemory(p, hash, password, salt);
    FilledIsFill(p, bytes);
    FillMeetsStandard(b, p, Loaded(p, bytes));
    FirstPass.StandardIsBackward(p);
    SameStart(p, hash, password, salt, bytes);
    FirstPass.FirstPassForgets(Standard(p), b, p, Loaded(p, bytes), start);
    var filled := FilledMemory(p, bytes);
    StoredBlock(p, filled, 8191);
    assert Stored(p, filled)[JOB_MEMORY - 1024..] == Stored(p, filled)[1024 * 8191..1024 * 8191 + 1024];
    assert filled == StandardMemory(p, start);
  }

  lemma SameStart(p: Params, hash: Digest, password: Bytes, salt: Bytes, bytes: Bytes)
    requires Launch(p) && IsDigest(hash) && |bytes| == JOB_MEMORY && bytes[..2048] == FirstBlocks(hash, password, salt)
    ensures forall c | c in Loaded(p, bytes) && c.column < 2 ::
      Loaded(p, bytes)[c] == FirstMemory(p, hash, password, salt)[c]
  {
    hide HPrime, FirstBlock, BlockOf;
    forall c | c in Loaded(p, bytes) && c.column < 2
      ensures Loaded(p, bytes)[c] == FirstMemory(p, hash, password, salt)[c]
    {
      var at := 1024 * c.column;
      SliceOfSlice(bytes, 0, 2048, at, at + 1024);
      assert bytes[0..2048] == bytes[..2048];
      assert bytes[at..at + 1024] == FirstBlock(hash, password, salt, c.column);
    }
  }

  // ------------------------------------------------------------ the kernels of a job

  function InputOf(inputs: Bytes, job: nat): (input: Bytes)
    ensures |input| == 192
  {
    if PartStart(job, 192) + 192 <= |inputs| then Part(inputs, 192, job) else Zeros(192)
  }

  /** The tag for the password and the salt in the record of a job. */
  function TagOf(p: Params, hash: Digest, input: Bytes): (tag: Bytes)
    requires Launch(p) && IsDigest(hash) && |input| == 192
    ensures |tag| == 32
  {
    hide Tag;
    Tag(p, hash, input[..72], input[72..88])
  }

  function NonceOf(input: Bytes): Word
    requires |input| == 192
  {
    WordFromLe(input[88..96])
  }

  /** The part of a job has been written, and nothing else. */
  ghost predicate Exported(tag: Bytes, job: nat, before: Bytes, after: Bytes) {
    && PartStart(job, 32) + 32 <= |after| && OnlyPart(before, PartStart(job, 32), 32, after)
    && Part(after, 32, job) == tag
  }

  /** The memory of a job begins with the first two blocks for its record. */
  ghost predicate Begins(hash: Digest, input: Bytes, part: Bytes)
    requires IsDigest(hash) && |input| == 192
  {
    |part| == JOB_MEMORY && part[..2048] == FirstBlocks(hash, input[..72], input[72..88])
  }

  /** The memory of a job ends with the block from which a tag is made. */
  ghost predicate Ends(hash: Digest, part: Bytes, tag: Bytes)
    requires IsDigest(hash)
  {
    |part| == JOB_MEMORY && HPrime(hash, 32, part[JOB_MEMORY - 1024..]) == tag
  }

  lemma SmallerPart(before: Bytes, at: nat, n: nat, size: nat, after: Bytes)
    requires OnlyPart(before, at, n, after) && n <= size && at + size <= |before|
    ensures OnlyPart(before, at, size, after)
  {
    assert after[at + size..] == after[at + n..][size - n..];
    assert before[at + size..] == before[at + n..][size - n..];
  }

  lemma FirstBlocksSize(hash: Digest, password: Bytes, salt: Bytes)
    requires IsDigest(hash)
    ensures |FirstBlocks(hash, password, salt)| == 2048
  {
  }

  lemma DigestOfKernel<S(!new)>(blake: Blake<S>, hash: Digest)
    requires Computes(blake, hash)
    ensures IsDigest(hash)
  {
  }

  /** velkar_init_first_blocks for one job. */
  method InitJob<S(!new)>(blake: Blake<S>, memory: array<Byte>, inputs: Bytes, job: nat, ghost hash: Digest)
    requires Computes(blake, hash) && PartStart(job, JOB_MEMORY) + JOB_MEMORY <= memory.Length
    modifies memory
    ensures OnlyPart(old(memory[..]), PartStart(job, JOB_MEMORY), JOB_MEMORY, memory[..])
    ensures Begins(hash, InputOf(inputs, job), Part(memory[..], JOB_MEMORY, job))
  {
    hide FirstBlocks, Computes, HPrime, InputOf;
    DigestOfKernel(blake, hash);
    var at, input := PartStart(job, JOB_MEMORY), InputOf(inputs, job);
    ghost var s, first := memory[..], FirstBlocks(hash, input[..72], input[72..88]);
    FirstBlocksSize(hash, input[..72], input[72..88]);
    InitFirstBlocksGpu(blake, memory, at, input, hash);
    PlacedIsPart(s, at, first, memory[..]);
    SmallerPart(s, at, 2048, JOB_MEMORY, memory[..]);
    SliceOfSlice(memory[..], at, JOB_MEMORY, 0, 2048);
  }

  /** The fill for one job. */
  method FillJob(device: FillKernels.Device, memory: array<Byte>, job: nat, ghost hash: Digest, ghost input: Bytes)
    requires Ready(device) && IsDigest(hash) && |input| == 192
    requires PartStart(job, JOB_MEMORY) + JOB_MEMORY <= memory.Length
    requires Begins(hash, input, Part(memory[..], JOB_MEMORY, job))
    modifies device`mem, device.warp, memory
    ensures Ready(device) && OnlyPart(old(memory[..]), PartStart(job, JOB_MEMORY), JOB_MEMORY, memory[..])
    ensures Ends(hash, Part(memory[..], JOB_MEMORY, job), TagOf(device.p, hash, input))
  {
    hide FirstBlocks, HPrime, Tag, Stored, FilledMemory;
    var at := PartStart(job, JOB_MEMORY);
    ghost var s := memory[..];
    ghost var filled := Stored(device.p, FilledMemory(device.p, s[at..at + JOB_MEMORY]));
    RunArgon(device, memory, at);
    PlacedIsPart(s, at, filled, memory[..]);
    JobMeetsStandard(device.p, hash, input[..72], input[72..88], s[at..at + JOB_MEMORY]);
  }

  /** velkar_export_stage4 for one job. */
  method ExportJob<S(!new)>(blake: Blake<S>, memory: Bytes, inputs: Bytes, stage4Out: array<Byte>,
                            nonceOut: array<Word>, job: nat, ghost hash: Digest, ghost tag: Bytes)
    requires Computes(blake, hash) && PartStart(job, 192) + 192 <= |inputs|
    requires PartStart(job, JOB_MEMORY) + JOB_MEMORY <= |memory| && Ends(hash, Part(memory, JOB_MEMORY, job), tag)
    requires PartStart(job, 32) + 32 <= stage4Out.Length && job < nonceOut.Length
    modifies stage4Out, nonceOut
    ensures Exported(tag, job, old(stage4Out[..]), stage4Out[..])
    ensures nonceOut[..] == old(nonceOut[..])[job := NonceOf(InputOf(inputs, job))]
  {
    hide HPrime, Computes;
    DigestOfKernel(blake, hash);
    var at := PartStart(job, JOB_MEMORY);
    ghost var s := stage4Out[..];
    SliceOfSlice(inputs, PartStart(job, 192), 192, 88, 96);
    SliceOfSlice(memory, at, JOB_MEMORY, JOB_MEMORY - 1024, JOB_MEMORY);
    ExportStage4(blake, memory, inputs, stage4Out, nonceOut, JOB_MEMORY, 192, job, hash);
    PlacedIsPart(s, PartStart(job, 32), tag, stage4Out[..]);
  }
}
