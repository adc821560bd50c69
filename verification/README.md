# Velkar miner: a verified model

This project models the proof-of-work engine of the Velkar miner and the concurrency around it, and
proves that the fast forms compute what the simple ones do and that the protocols between the
threads keep their promises. `dafny verify dfyconfig.toml` checks all of it.

One hash takes five stages: a cSHAKE over header, timestamp and nonce; a product with a 64 by 64
matrix; a second cSHAKE; Argon2id with 8 MiB, one pass and one lane, on the GPU spread over 32 threads
per lane (the kernels, and the theorems about the fill, are for all numbers of passes and lanes); and a
mixing of words at the end. A producer hands block templates to the workers through a pointer-swap channel, the workers
claim a solved template or a share by compare-exchange, and a pool gives every miner a range of nonces
of its own.

The modules follow the program:

- `BlockPermutation`: `shuffle_block` and its exchanges between 32 threads against the permutation P of
  RFC 9106, with arrays for the registers and the scratch buffer. `LaneWords`: what a thread does with its
  own four words.
- `ReferenceIndex`: `compute_ref_pos` in wrapping arithmetic against section 3.4.2 of RFC 9106.
- `ArgonFill`: the filling of the memory as a specification. `ThreadBlocks`: what the 32 threads of a lane do
  with blocks of 128 words. `FillKernels`: the precompute kernel and the four fill kernels, carried out by the
  threads, as methods on a class with the memory, the table and the registers. `LaneInterleaving`: the lanes of
  a slice as concurrent loads and stores.
- `FirstPass`: what the memory held before has no part in the result. `Argon2id`: initialisation, fill and
  export of a job put together to Argon2id of RFC 9106. `Batch`, `JobParts`: the kernels over all jobs of a batch,
  up to the comparison with the CPU.
- `Keccak`, `RoundConstants`: KECCAK-f[1600] of FIPS 202 and the in-place version of the kernel.
  `KeccakAssembly`: the lane-complemented assembly. `KeccakWords`: both as one function of 25 numbers.
- `LongHash`: the variable-length hash, the hand-blocked BLAKE2b and the first blocks.
- `JobPreparation`: the first three stages on CPU and GPU and the record of a job.
- `MatrixRank`, `MatrixGenerator`: the rank test and the generator of the matrix.
- `WatchSwap`, `ClaimProtocol` with `ClaimOutcomes`, `ShareLimiter`: the concurrent protocols, as state machines
  over any number of threads whose steps are single atomic actions in any order.
- `NoncePartition`: extranonce messages, masked nonces and the counters of the workers.
- `HeaderEncoding`: the bytes of a header and a parser for them.
- `Target`, `Difficulty`: 256-bit targets and where they come from.
- `Bits`, `BitStrings`, `Hex`, `LittleEndian`, `Options`: words, bits, digits and bytes.

## What does not hold

Some expectations fail. The code is modelled as it is; a concrete input shows the failure and the exact
condition is proved.

- `compute_ref_pos` departs from RFC 9106 in launches of several passes with
  7 * segment_blocks - 3 >= 2^32 (`OverflowWitness`, `AlwaysMeetsRfcIff`). The parameters in use are far below.
- "At most one submitted block per template" holds exactly if there is at most one worker (`EachOnceIff`): with
  two, one that still has the old template can claim after the reset (`OldTemplateClaimedAgain`). In all cases
  there is one claim between two resets, as long as ids do not reach the mark of an open claim
  (`BoundedIffIdsDoNotWrap`).
- A claim of an old template can keep the current one, which nobody has claimed, from being claimed. That takes
  two templates and a worker, no more (`NeverBlockedIff`).
- An extranonce with a text of 2^30 digits or so passes the check of its length without fitting, because the bit
  count wraps around (`LongTextPassesTheCheck`); the exact guard is `AcceptedFitsIff`. It breaks the division of
  the nonces exactly if the whole nonce is declared free and the text has a value other than zero
  (`AcceptedSplitsIff`, `LongTextBreaksTheDivision`).
- A small difficulty has a quotient above 2^256, which is cut off (`TargetIsQuotientIff`), so that a higher
  difficulty can have a higher target (`HigherDifficultyHigherTarget`). `FallsFromIff` says exactly from which
  difficulty on targets fall.
- The power of ten of a difficulty is taken modulo 2^32, so that a fraction of 2^32 digits would be misread
  (`LongFractionIsCut`, `StandsForTextIff`). This is about the function alone: its caller passes the text of a
  number in a JSON message, which is far shorter.
- For a negative mantissa and exponent 1 or 2 `u256_from_compact_target` shifts the sign bit into the mantissa
  instead of answering zero (`NegativeTargetIsPositive`); these are exactly the inputs on which it departs from
  the compact form (`FromCompactTarget`).

## Model

| member | source | states |
|---|---|---|
| `BlockPermutation.Lane.ShuffleBlock` | src/argon2_kernel.cl:922-943 | For every block: if the 32 threads hold it, four words each, then after the two transpositions, the four shuffles and the four applications of `g` they hold the row-then-column permutation P of section 3.6 of RFC 9106. |
| `BlockPermutation.RowSteps` | src/argon2_kernel.cl:922-932 | The states that transpose, g, shift1, g, unshift1, transpose go through lead from a held block to its permuted rows. |
| `BlockPermutation.TransposedTwice` | src/argon2_kernel.cl:908-920 | Transposing twice gives every thread back its own four registers. |
| `BlockPermutation.ShiftsUndone` | src/argon2_kernel.cl:860-906 | Each shift and its unshift undo each other, in both orders: every thread has its own four registers again. |
| `BlockPermutation.ColumnSteps` | src/argon2_kernel.cl:934-942 | g, shift2, g, unshift2 lead from a held block to its permuted columns. |
| `BlockPermutation.RowHalf` | src/argon2_kernel.cl:922-932 | Thread by thread, the register contents after the first half are those of the rows of the block under P. |
| `BlockPermutation.ColumnHalf` | src/argon2_kernel.cl:934-942 | Thread by thread, the register contents after the second half are those of the columns under P. |
| `BlockPermutation.Lane.Exchange` | src/argon2_kernel.cl:687-706 | One exchange through the scratch buffer: every thread ends with the register of its source thread, whatever all threads do in lockstep. |
| `BlockPermutation.Lane.Shuffle` | src/argon2_kernel.cl:860-906 | The loop over the four registers gathers, for every thread, register i from the source thread for i. |
| `BlockPermutation.Lane.Transpose` | src/argon2_kernel.cl:908-920 | The loop over three exchanges transposes the four-by-four groups of threads and registers. |
| `BlockPermutation.Lane.Argon2Core` | src/argon2_kernel.cl:979-1007 | The stored block is, word by word, the compression function G of the two blocks, xored with the old contents from the second pass on. |
| `BlockPermutation.HoldsUnique` | src/argon2_kernel.cl:771-778 | The registers of a lane determine all 128 words of the block they hold. |
| `LaneWords.F` | src/argon2_kernel.cl:804-809 | The product put together from `mul_hi` and the low half gives x + y + 2 trunc(x) trunc(y) modulo 2^64, for all words. |
| `LaneWords.G` | src/argon2_kernel.cl:811-832 | The eight assignments compute GB of section 3.6 of RFC 9106 on the four words. |
| `LaneWords.TwoHalfRounds` | src/argon2_kernel.cl:811-832 | GB is two halves with rotations by 32 and 24 and by 16 and 63, for every exclusive or and rotation. |
| `LaneWords.Rotr64` | src/argon2_kernel.cl:780-802 | The rotation put together from two `amd_bitalign` halves is the rotation of the 64-bit word, for every distance below 64. |
| `LaneWords.RotatedValue` | src/argon2_kernel.cl:780-802 | As a number the rotated word is w / 2^n + (w mod 2^n) * 2^(64-n). |
| `LaneWords.ThGet` | src/argon2_kernel.cl:716-730 | Selection by masks gives the register with the given number. |
| `LaneWords.ThSet` | src/argon2_kernel.cl:732-738 | Assignment by masks changes exactly the register with the given number. |
| `BlockPermutation.Lane.NextAddresses` | src/argon2_kernel.cl:1009-1026 | In the registers of the threads: the block that begins with the inputs of the threads and is zero otherwise is permuted and added to itself, twice. |
| `BlockPermutation.Lane.Broadcast` | src/argon2_kernel.cl:1294-1298 | Every thread gets the chosen register of one thread. |
| `ThreadBlocks.KernelBlocksObeyLaws` | src/argon2_kernel.cl:745-751 | Blocks of 128 words with the operations of the threads obey the laws that the fill theorems assume, so these hold for them. |
| `ThreadBlocks.NextAddresses` | src/argon2_kernel.cl:1009-1026 | From the numbers of the first seven threads the threads get the address block of section 3.4.1.2 of RFC 9106, G applied twice to a zero first argument. |
| `ThreadBlocks.SelectorOfWord` | src/argon2_kernel.cl:1294-1300 | Asking thread n % 32 for register n / 32 gives all threads word n of the block that they hold, in two values with j1 + 2^32 * j2 equal to the word. |
| `ThreadBlocks.OwnWord` | src/argon2_kernel.cl:1102-1108 | In the precompute kernel each thread finds its words of the address block in its own registers, in two values with j1 + 2^32 * j2 equal to the word. |
| `ThreadBlocks.HalvesOfWord` | src/argon2_kernel.cl:672-680 | J1 is the word modulo 2^32 and J2 its quotient by 2^32. |
| `ThreadBlocks.ReferenceOfWord` | src/argon2_kernel.cl:1299-1306 | From the quotient and remainder of a word by 2^32: the lane and the element of W that section 3.4.2 of RFC 9106 takes for it. |
| `ThreadBlocks.SelectorInNumbers` | src/argon2_kernel.cl:1282-1301 | In the first two slices of the first pass word n of address block c selects for offset 128 (c - 1) + n, otherwise the first word of the preceding block does. |
| `ThreadBlocks.AddressInputWords` | src/argon2_kernel.cl:1045-1092 | The seven words of the input block of section 3.4.1.2, each at its place with its value, and zeros behind. |
| `ThreadBlocks.Argon2Core` | src/argon2_kernel.cl:979-1007 | Load, permutation and store by the threads write the new block of section 3.2 of RFC 9106. |
| `ReferenceIndex.ComputeRefPos` | src/argon2_kernel.cl:945-977 | In wrapping 32-bit arithmetic the method returns the reference that the theorems below are about, for all inputs. |
| `ReferenceIndex.RefPosMeetsRfc` | src/argon2_kernel.cl:945-977 | For every reachable position and all J1, J2 the kernel gives the reference of section 3.4.2 of RFC 9106 if and only if the sum of window start and place stays below 2^32. |
| `ReferenceIndex.AlwaysMeetsRfcIff` | src/argon2_kernel.cl:945-977 | A launch meets section 3.4.2 everywhere if and only if it has one pass or 7 * segment_blocks - 3 < 2^32. |
| `ReferenceIndex.OverflowWitness` | src/argon2_kernel.cl:945-977 | The position and the values J1 = J2 = 0 on which longer segments depart from the standard. |
| `ReferenceIndex.AreaSizeIsWindowSize` | src/argon2_kernel.cl:950-968 | The 32-bit reference area size is the size of the set W of section 3.4.2, at least one: nothing underflows at a reachable position. |
| `ReferenceIndex.WindowAt` | src/argon2_kernel.cl:950-977 | Element k of W is the k-th column from the window start, read cyclically. |
| `ReferenceIndex.WindowIsInjective` | src/argon2_kernel.cl:950-977 | No block occurs twice in W. |
| `ReferenceIndex.RefersToCompleteBlock` | src/argon2_kernel.cl:945-977 | Exact or not, at every reachable position the index names a block that is already complete and is neither the block at hand nor its predecessor in the lane. |
| `ReferenceIndex.RefPosStaysClear` | src/argon2_kernel.cl:945-977 | Wrapped or not, the reference lies in the memory, and in another lane never in the segment that is being filled. |
| `ArgonFill.KernelIsAdmissible` | src/argon2_kernel.cl:945-977 | The references of the kernel stay in the memory and out of the segments that other lanes fill. |
| `ArgonFill.FillMeetsStandard` | src/argon2_kernel.cl:1269-1487 | On the launches on which the index is exact, the memory filled with the kernel's references is the memory filled with those of RFC 9106. |
| `ArgonFill.FillSegmentFrame` | src/argon2_kernel.cl:1238-1265 | Filling a segment changes no block of another lane and not the size of the memory. |
| `ArgonFill.StepReads` | src/argon2_kernel.cl:979-1007 | At every reachable position the three blocks that a step reads exist, and the step writes one block. |
| `ArgonFill.AddressesAreDistinct` | src/argon2_kernel.cl:985-986 | The flat address column * lanes + lane is within the memory and different for different blocks. |
| `LaneInterleaving.AnyOrderFills` | src/argon2_kernel.cl:1232-1265 | However the loads and stores of the lanes interleave in a slice, once all lanes have finished the memory is that of the lanes run one after the other. |
| `LaneInterleaving.CompleteRunsAgree` | src/argon2_kernel.cl:1232-1265 | Any two complete interleavings of a slice leave the same memory. |
| `LaneInterleaving.RunAsIfAlone` | src/argon2_kernel.cl:1232-1265 | After every interleaving, finished or not, each lane and its blocks are as if the lane had run alone. |
| `LaneInterleaving.EnoughActionsComplete` | src/argon2_kernel.cl:1232-1265 | Every order in which each lane gets two actions per block finishes all lanes of the slice; the orders that the barriers inside the exchanges allow are among them. |
| `LaneInterleaving.BlocksAreNotTorn` | src/argon2_kernel.cl:979-1007 | Until a lane acts again, no action of other lanes changes the block that it reads through its reference or the one that it writes, and no reference of theirs leads to the latter: that a block moves word by word makes no difference. |
| `LaneInterleaving.OthersLeaveBlocks` | src/argon2_kernel.cl:979-1007 | While only other lanes act, the lane itself, its blocks and all blocks outside the slice stay as they are. |
| `LaneInterleaving.AnyLaunchFills` | src/argon2_kernel.cl:1213-1267 | For all lanes, passes and segment sizes, with a barrier after each slice, every interleaving leaves the memory of the sequential fill. |
| `FillKernels.Device.Precompute` | src/argon2_kernel.cl:1038-1117 | After the precompute kernel, run by the threads, every entry of the first two slices holds the reference of the address block and counter that an on-the-fly step would use. |
| `ReferenceIndex.UnderflowsIff` | src/argon2_kernel.cl:963-969 | A difference that `compute_ref_pos` takes is negative before it wraps if and only if the position is one of the first two blocks of a lane in the first pass. |
| `FillKernels.UnderflowsAreNotRead` | src/argon2_kernel.cl:1195-1197 | The table entries whose computation underflows are those of offsets 0 and 1 of the first slice, and no block that is filled has its entry in their place; the fill kernels are proved from the other entries alone. |
| `FillKernels.Device.WriteBlock` | src/argon2_kernel.cl:979-1007 | If the threads hold the preceding block and have the reference, they write what one step of the fill writes and then hold the block that they have written. |
| `FillKernels.TablePlaceIncreases` | src/argon2_kernel.cl:1100-1101 | Different blocks of the first two slices have different places in the table. |
| `FillKernels.TableFitsBuffer` | src/gpu.rs:599-605 | The buffer allocated by the host has room for the whole table. |
| `FillKernels.Device.StepPrecompute` | src/argon2_kernel.cl:1119-1151 | A step of the 32 threads from the table does what one step of the fill does, leaves the threads holding the new block, and moves the table pointer on exactly in the first two slices of the first pass. |
| `FillKernels.Device.StepOnTheFly` | src/argon2_kernel.cl:1269-1312 | A step of the 32 threads with generated addresses, from the selection of the reference to the store, does what one step of the fill does and keeps the counter and the threads' address block in step. |
| `FillKernels.Device.SegmentPrecompute` | src/argon2_kernel.cl:1153-1211 | The segment kernel with the table, run by the threads of one lane, leaves the segment filled, whatever the pass and slice and whatever the entries of the first two blocks hold. |
| `FillKernels.Device.SegmentOnTheFly` | src/argon2_kernel.cl:1314-1395 | The segment kernel without the table, run by the threads of one lane, leaves the segment filled in the same way. |
| `FillKernels.Device.FillBySegments` | src/argon2_kernel.cl:1153-1211 | Launching the segment kernel, with or without the table, for all slices of all passes leaves the memory of the sequential fill. |
| `FillKernels.Device.FillOneshot` | src/argon2_kernel.cl:1213-1267 | The one-shot kernels, with or without the table, run by the threads of every lane, leave the same memory, although they keep their registers from slice to slice and skip the two existing blocks by counting. |
| `FillKernels.Device.RunSlice` | src/argon2_kernel.cl:1397-1487 | The inner loop of a one-shot kernel fills the segment, whether it starts with blocks to skip or not. |
| `FirstPass.FirstPassForgets` | src/argon2_kernel.cl:1244-1262 | Two memories with the same first two blocks in every lane are the same after the first pass: what a buffer held before has no part in the result. |
| `FirstPass.StandardIsBackward` | src/argon2_kernel.cl:945-977 | In the first pass the references of section 3.4.2 are to blocks that the pass has written already, or to the first two of a lane. |
| `Argon2id.JobMeetsStandard` | src/gpu.rs:213-220 | If a job's memory begins with the two first blocks, whatever follows, H' of the last block after the kernels' fill is the tag of Argon2id by section 3.2 of RFC 9106. |
| `Argon2id.BytesOfBlock` | src/argon2_kernel.cl:708-710 | The bytes of a block are recovered from its 128 words. |
| `Argon2id.BlockOfBytes` | src/argon2_kernel.cl:708-710 | The words of a block are recovered from its 1024 bytes. |
| `Argon2id.WordInBytes` | src/argon2_kernel.cl:708-710 | Word n of a block is the little-endian number of bytes 8n to 8n + 7. |
| `Argon2id.Start` | src/gpu.rs:607-638 | After the precompute kernel the device is ready for every later launch. |
| `Argon2id.RunArgon` | src/argon2_kernel.cl:1213-1267 | The one-shot kernel with the table turns the bytes of a job into those of the filled memory and changes no others. |
| `Argon2id.InitJob` | src/argon2_kernel.cl:595-633 | For one job: its memory begins with the first two blocks for its record, and no byte of other jobs is written. |
| `Argon2id.FillJob` | src/argon2_kernel.cl:1213-1267 | For one job: from such a beginning its memory ends with the block from which the Argon2id tag of its record is made, and no byte of other jobs is written. |
| `Argon2id.ExportJob` | src/argon2_kernel.cl:573-593 | For one job: from such an end the tag and the nonce of its record are put at the places of the job, and nothing else is written. |
| `Batch.InitJobs` | src/argon2_kernel.cl:595-633 | The same for all jobs of a launch, in any order of the work items; all other bytes stay. |
| `Batch.FillJobs` | src/argon2_kernel.cl:1213-1267 | The same for the fill, with a work-group for every job, in any order. |
| `Batch.ExportJobs` | src/argon2_kernel.cl:573-593 | The same for the export: afterwards every job has its tag and its nonce, and the places of other jobs are as before. |
| `Batch.RunBatch` | src/gpu.rs:213-220 | After the preparation and the three kernels over n jobs, in any orders, every job has the record of its masked nonce, that nonce, and the Argon2id tag for the password and salt of that nonce; where the lowest f bits are free the exported nonces are fixed + (base + job) mod 2^f, and those of jobs less than 2^f apart differ. |
| `JobParts.OtherPartStays` | src/argon2_kernel.cl:580-584 | Writing the part of one job leaves the part of every other job. |
| `Batch.Validate` | src/gpu.rs:438-467 | If the CPU's library computes Argon2id, the host's comparison of all four stages succeeds for every job of a finished batch. |
| `Batch.MinerPrimitivesFit` | src/pow/hasher.rs:22-75 | All that the theorems about a batch assume of the CPU's functions holds for KECCAK-f of FIPS 202, the exclusive or of words, the initial states of the source and a library that computes Argon2id. |
| `Keccak.F1600InPlace` | src/argon2_kernel.cl:152-188 | The 24 in-place rounds leave the state of 24 rounds of the step mappings of section 3.2 of FIPS 202. |
| `Keccak.RhoPiInPlace` | src/argon2_kernel.cl:168-175 | The walk that carries one lane at a time leaves every lane moved and rotated, for every walk that visits each lane once. |
| `Keccak.KernelWalkIsValid` | src/argon2_kernel.cl:92-100 | The kernel's tables describe such a walk. |
| `Keccak.WalkIsRhoPi` | src/argon2_kernel.cl:168-175 | A whole walk is rho followed by pi. |
| `Keccak.WalkOfStandard` | src/argon2_kernel.cl:92-100 | Places and rotations of the walk are those of algorithm 2 of FIPS 202. |
| `Keccak.Words64Laws` | src/argon2_kernel.cl:107-110 | 64-bit strings obey the laws of words that the Keccak theorems assume. |
| `Keccak.RotateLeftAt` | src/argon2_kernel.cl:107-110 | Bit i of a word goes to place (i + n) mod 64. |
| `Keccak.RotateLeftValue` | src/argon2_kernel.cl:107-110 | As a number the rotated word is x * 2^n mod 2^64 + x / 2^(64-n). |
| `Keccak.OperationsOnNumbers` | src/argon2_kernel.cl:152-188 | The other operations on strings of 64 bits are exclusive or, and, or, and the complement of the numbers. |
| `RoundConstants.TableIsStandard` | src/argon2_kernel.cl:83-90 | The table of round constants, which the assembly shares, is generated by the shift register of section 3.2.5 of FIPS 202. |
| `KeccakAssembly.KeccakF1600` | src/asm/keccakf1600_x86-64-elf.s:269-335 | For every state and every 24 round constants the assembly leaves what `keccak_f1600_state` leaves: 24 rounds of FIPS 202. |
| `KeccakAssembly.AsmRounds` | src/asm/keccakf1600_x86-64-elf.s:7-264 | The loop that swaps its two buffers and stops when the table pointer reaches a multiple of 256 runs exactly 24 rounds and ends in the first buffer, with the six lanes still complemented. |
| `KeccakAssembly.AsmRound` | src/asm/keccakf1600_x86-64-elf.s:20-256 | One pass through the loop is one round on the state with lanes 1, 2, 8, 12, 17 and 20 complemented. |
| `KeccakAssembly.AsmTheta` | src/asm/keccakf1600_x86-64-elf.s:20-63 | From a complemented state the registers get the effects of theta, complemented in columns 0 and 3. |
| `KeccakAssembly.Plane0` | src/asm/keccakf1600_x86-64-elf.s:64-102 | AND, OR and NOT in the first plane give chi and iota with lanes 1 and 2 complemented. |
| `KeccakAssembly.Plane1` | src/asm/keccakf1600_x86-64-elf.s:105-142 | The same for the second plane and lane 8. |
| `KeccakAssembly.Plane2` | src/asm/keccakf1600_x86-64-elf.s:145-181 | The same for the third plane and lane 12. |
| `KeccakAssembly.Plane3` | src/asm/keccakf1600_x86-64-elf.s:183-218 | The same for the fourth plane and lane 17. |
| `KeccakAssembly.Plane4` | src/asm/keccakf1600_x86-64-elf.s:221-256 | The same for the last plane and lane 20, kept in the registers that the next round starts with. |
| `KeccakAssembly.EndOfTable` | src/asm/keccakf1600_x86-64-elf.s:258-261 | Starting 64 bytes into a 256-byte unit, the pointer reaches a multiple of 256 after 24 entries and not before. |
| `KeccakWords.PermuteInPlace` | src/argon2_kernel.cl:152-188 | On 25 numbers below 2^64 the kernel leaves the 24 rounds of FIPS 202 with its offsets and round constants. |
| `KeccakWords.PermuteByAssembly` | src/asm/keccakf1600_x86-64-elf.s:269-335 | On 25 numbers below 2^64 the assembly leaves the same. |
| `KeccakWords.RoundConstantOfRound` | src/argon2_kernel.cl:83-90 | The constant used in round i is the one that the shift register of section 3.2.5 of FIPS 202 gives for round i. |
| `KeccakWords.OperationsOfWords` | src/argon2_kernel.cl:107-110 | On numbers below 2^64 the five operations of the permutation are the ones of the machine, with the rotation to the left given by product and quotient. |
| `KeccakWords.InstanceIsWellFormed` | src/pow/hasher.rs:22-66 | This permutation, exclusive or and the initial states of the source are what the theorems about the stages ask for. |
| `KeccakWords.StagesOfInstance` | src/pow/hasher.rs:22-75 | Which initial state goes to which stage and where header hash, timestamp, nonce and input are mixed in, by numbers; the padding is behind 80 and 32 bytes and at the end of the block of 136. |
| `KeccakWords.TablesAgree` | src/argon2_kernel.cl:64-81 | The two tables of initial states in the kernel are those of the CPU. |
| `WatchSwap.NoLostWakeUp` | src/swap_rust.rs:46-63 | In every state that any number of threads can reach, with spurious wake-ups: while a parked receiver keeps an outdated pointer, some swapper has stored and not yet notified. |
| `WatchSwap.WaitReturnsAChange` | src/swap_rust.rs:81-89 | wait_for_change ends only with a pointer other than the one the receiver had, of a later version that was current at a load after the call began. |
| `WatchSwap.CallBegins` | src/swap_rust.rs:81-89 | A call of wait_for_change records the version that is current when it begins, and get_changed loads it at once. |
| `WatchSwap.BeginningStays` | src/swap_rust.rs:81-89 | Until the call ends nothing changes the version with which it began. |
| `WatchSwap.EqualPointersSameVersion` | src/swap_rust.rs:53-63 | A receiver's pointer equals the shared one exactly if it has seen the current version or both are absent, although freed addresses are used again. |
| `WatchSwap.NoChangeMeansSameVersion` | src/swap_rust.rs:53-63 | If the comparison finds no change, the loaded version is the one the receiver has, or both are absent values. |
| `WatchSwap.CachedValueIsPublished` | src/swap_rust.rs:16-20 | What a receiver reads through its cached pointer is still allocated and is what was published as the version it saw. |
| `WatchSwap.ReportsGoForward` | src/swap_rust.rs:65-68 | Over every run the versions that a receiver is told of are strictly increasing in the history of swaps, and the history only grows. |
| `WatchSwap.ChangeIsReported` | src/swap_rust.rs:53-63 | get_changed ends with the loaded pointer cached and reports its version if and only if it is not the pointer it had. |
| `WatchSwap.CloneHasSeenTheSame` | src/swap_rust.rs:16-20 | A clone has seen what the original has, and nothing else changes. |
| `WatchSwap.StepKeepsInv` | src/swap_rust.rs:46-89 | Every atomic step of every thread keeps the invariant behind these results. |
| `WatchSwap.ReachableInv` | src/swap_rust.rs:16-89 | Every reachable state satisfies it. |
| `WatchSwap.HolderCanMove` | src/swap_rust.rs:81-89 | Whoever holds the mutex can take its next step: nobody parks with the mutex held. |
| `WatchSwap.CanBeWokenUp` | src/swap_rust.rs:46-50 | From every state with a parked outdated receiver, at most five steps of operations already begun wake it; no further swap is needed. |
| `WatchSwap.AddressesAreReused` | src/swap_rust.rs:75-79 | There are runs in which a third version lies at the address of the first: the result on addresses is not empty. |
| `MatrixRank.ComputeRank` | src/pow/heavy_hash.rs:68-101 | In exact arithmetic the result is the size of a basis of the column space, and it is n if and only if only the zero vector is mapped to zero, for every n by n matrix. |
| `MatrixRank.PivotedKillsTheSame` | src/pow/heavy_hash.rs:86-96 | The row operations of a step change nothing about which vectors are mapped to zero. |
| `MatrixRank.PivotStep` | src/pow/heavy_hash.rs:86-96 | The loops that leave the columns up to i alone do the whole row operation as far as the later columns are concerned. |
| `MatrixRank.PivotStepReduces` | src/pow/heavy_hash.rs:83-96 | A step leaves pivot columns with a single one and dead columns with zeros in the rows that are not selected. |
| `MatrixRank.PivotsAreBasis` | src/pow/heavy_hash.rs:68-101 | At the end the pivot columns are independent and every other column is a combination of them. |
| `MatrixRank.FullRankIffTrivialKernel` | src/pow/heavy_hash.rs:30-38 | A basis has all n columns if and only if only zero is mapped to zero. |
| `MatrixRank.FindPivot` | src/pow/heavy_hash.rs:76-82 | The search returns the first row that is not selected and not zero in the column, or n if there is none. |
| `ClaimProtocol.SubmissionsNeverOutnumberResets` | src/miner.rs:162-207 | Over every interleaving of the producer and any number of workers, with fewer than 2^64 templates: at most as many blocks are submitted as there were resets, and at most one between two resets. |
| `ClaimProtocol.BoundedIffIdsDoNotWrap` | src/miner.rs:107-207 | As soon as there is any solution, runs with n templates all keep the bound if and only if n < 2^64. |
| `ClaimProtocol.TooManyClaims` | src/miner.rs:162-207 | A run with 2^64 templates in which four blocks are submitted after three resets, because an id equals the mark of an open claim. |
| `ClaimProtocol.SubmissionsAreSolutions` | src/miner.rs:193-277 | Every submitted block is that of a published template, with a nonce that meets its target. |
| `ClaimOutcomes.EachOnceIff` | src/miner.rs:193-277 | As soon as there is any solution, in all runs with n templates, 1 <= n < 2^64, every template is submitted at most once if and only if there is at most one worker. |
| `ClaimOutcomes.RunOfOneWorker` | src/miner.rs:193-277 | With one worker the submitted templates are newer and newer, and all older than what it mines or can still receive. |
| `ClaimProtocol.OldTemplateClaimedAgain` | src/miner.rs:193-277 | For any two workers a run in which one template is submitted twice and the fresh template, which nobody has claimed, is left unclaimable until the next reset. |
| `ClaimOutcomes.NeverBlockedIff` | src/miner.rs:162-207 | A claim of an older template can keep the current one from being claimed, even with one worker: it cannot happen if and only if there is at most one template or no worker. |
| `ClaimOutcomes.RefreshIsCurrent` | src/miner.rs:224-271 | In every run a worker that receives a version or looks for a change then has the template published last. |
| `ClaimOutcomes.EnabledIff` | src/miner.rs:215-275 | Each action of a worker is possible exactly in its phase, and only with a template that it needs. |
| `ClaimOutcomes.FirstLossOfSync` | src/miner.rs:162-181 | At the start the node counts as synced: the first loss of it resets the claim word and publishes the absent template, and a second one does nothing. |
| `ClaimProtocol.IdsAreUnique` | src/miner.rs:162-181 | Published ids are pairwise different and increasing, below 2^64 templates. |
| `ClaimProtocol.RunInvariant` | src/miner.rs:162-277 | All of this is an invariant of every run. |
| `ShareLimiter.ClaimsAreSpaced` | src/miner.rs:411-421 | For any number of workers, any interleaving and any clock readings, the times of successful claims increase by at least 250 from each to the next. |
| `ShareLimiter.ClaimsIff` | src/miner.rs:411-421 | A sequence of times is that of the claims of some run if and only if it begins at 250 or later and goes up by at least 250 each time. |
| `ShareLimiter.WithinIsCount` | src/miner.rs:411-421 | What the bound on windows counts is the number of claims with a time in the window. |
| `ShareLimiter.WindowBound` | src/miner.rs:411-421 | A window of w milliseconds holds at most w / 250 + 1 of them. |
| `ShareLimiter.ExchangeSucceedsIffUndisturbed` | src/miner.rs:687-693 | An exchange succeeds if and only if no other claim succeeded since the load; the word never returns to an old value. |
| `JobPreparation.PrepareJobs` | src/argon2_kernel.cl:428-500 | In any order of the work items, for every mask and fixed part, the 192 bytes of every job are the record of password, salt, nonce and stages at the masked nonce, and all bytes that belong to none of the jobs stay. |
| `JobPreparation.PrepareJob` | src/argon2_kernel.cl:428-500 | One work item writes the record of its own nonce and nothing else. |
| `JobPreparation.NonceOfJob` | src/argon2_kernel.cl:440-442 | Where the lowest f bits are free, the nonce of a job is the fixed part plus (base + job number) modulo 2^f. |
| `JobPreparation.StateOfStage1` | src/pow/hasher.rs:33-47 | All 25 words that the first stage permutes: header hash, timestamp and nonce are mixed into words 0 to 4 and 9. |
| `JobPreparation.StateOfHeavy` | src/pow/hasher.rs:68-75 | All 25 words that the heavy hash permutes: its input is mixed into words 0 to 3. |
| `JobPreparation.NibblesOfByte` | src/pow/heavy_hash.rs:107-110 | Each byte is sixteen times its first half byte plus its second. |
| `JobPreparation.RowSumOfOne` | src/pow/heavy_hash.rs:115-123 | Entry j of a row is multiplied with half byte j and no other. |
| `JobPreparation.HalvesOfProduct` | src/pow/heavy_hash.rs:115-125 | The upper half of byte i comes from row 2i and the lower one from row 2i + 1, each sum divided by 1024. |
| `JobPreparation.ByteOfProduct` | src/pow/heavy_hash.rs:115-128 | Byte i of the product is made of the sums of rows 2i and 2i + 1 divided by 1024, both below 16, and mixed with byte i of the hash. |
| `JobPreparation.PasswordFields` | src/pow/hasher.rs:83-86 | Read back, the password is the third stage, the target and the nonce, in this order. |
| `JobPreparation.SaltBytes` | src/pow/hasher.rs:88-93 | Byte i of the salt is mixed from the bytes i of the lower half of stage 1 and of the upper half of stage 3, given as shifts of their words. |
| `JobPreparation.RecordDecodes` | src/gpu.rs:438-443 | The slices that the host takes out of a record are the password, the salt, the nonce and the three stages that the CPU computes. |
| `JobPreparation.ValidateStages` | src/gpu.rs:438-467 | The host's comparison of the four stages with those of the CPU fails if and only if the exported fourth stage is not the CPU's memory-hard hash of the password and salt in the record; the first three never differ. |
| `JobPreparation.MatrixHeavyHashGpu` | src/argon2_kernel.cl:218-247 | From the uploaded constants, in 32-bit sums, the kernel computes the second stage. |
| `JobPreparation.MatrixHeavyHashCpu` | src/pow/heavy_hash.rs:103-128 | In 16-bit sums the CPU computes the same second stage. |
| `JobPreparation.RowSumBound` | src/pow/heavy_hash.rs:115-123 | With entries of four bits no partial sum exceeds 225 per term: 14400 for a row, far from overflowing 16 bits. |
| `JobPreparation.PackedHalves` | src/pow/heavy_hash.rs:124 | The two four-bit results do not overlap when they are packed, cut off to a byte before or after. |
| `JobPreparation.PowHasher.constructor` | src/pow/hasher.rs:33-40 | The state that the hasher keeps is the one that has absorbed the 72 bytes that are uploaded: header hash, timestamp and 32 zeros. |
| `JobPreparation.PowHasher.FinalizeWithNonce` | src/pow/hasher.rs:43-47 | Mixing the nonce into word 9 of the kept state gives the hash of the 80 bytes of header and nonce, and leaves the hasher as it was. |
| `JobPreparation.PowHashGpu` | src/argon2_kernel.cl:453-469 | The kernel's first stage, in one pass over 25 words, is the same hash of the same 80 bytes. |
| `JobPreparation.HeavyHashCpu` | src/pow/hasher.rs:68-75 | The heavy hash of the CPU is the hash of the 32 bytes of its input. |
| `JobPreparation.HeavyHashGpu` | src/argon2_kernel.cl:203-216 | The heavy hash of the kernel is the hash of the same 32 bytes. |
| `JobPreparation.MemoryHardInputs` | src/pow/hasher.rs:79-93 | Password and salt of the memory-hard stage. |
| `JobPreparation.UploadConstants` | src/gpu.rs:222-232 | The constants hold the header hash, the timestamp, 32 zeros and every matrix entry as two little-endian bytes. |
| `JobPreparation.AsU16LeBytes` | src/pow/heavy_hash.rs:142-152 | The running offset puts every row of the matrix at 128 times its number. |
| `LittleEndian.Load64` | src/argon2_kernel.cl:112-119 | Putting bytes together by or gives the number of the little-endian bytes. |
| `LittleEndian.Store64` | src/argon2_kernel.cl:138-150 | The eight shifts write the little-endian bytes and nothing else. |
| `LittleEndian.HashRoundTrip` | src/target.rs:81-97 | Four words are recovered from their 32 bytes. |
| `Hex.DigitIff` | src/pow.rs:398-407 | The sixteen digits in both cases and no other character have the values 0 to 15. |
| `Hex.DigitsOfHex` | src/stratum.rs:277 | The text of a number is read as that number, the highest digit first. |
| `Hex.Radix16` | src/stratum.rs:277 | One plus sign may come first, digits must not be missing, and a number above the limit is rejected. |
| `HeaderEncoding.SerializeHeader` | src/pow.rs:330-374 | It succeeds if and only if version, hashes and blue work can be encoded, and what it hashes is the encoding of the decoded header, whatever the scratch buffer held. |
| `HeaderEncoding.ParseEncode` | src/pow.rs:330-374 | A parser recovers every header from its encoding. |
| `HeaderEncoding.EncodeIsInjective` | src/pow.rs:330-374 | Equal bytes come from equal decoded headers. |
| `HeaderEncoding.SameBytesSameHeader` | src/pow.rs:330-374 | Two headers give the same bytes if and only if their decoded fields agree, before the proof of work apart from nonce and timestamp. |
| `HeaderEncoding.DecodeToSlice` | src/pow.rs:385-410 | The result is decided by length and digits: an odd length first, then a wrong length, then the first bad character with its place; on success the slice holds the bytes and the rest of the buffer is as before. |
| `HeaderEncoding.HexRoundTrip` | src/pow.rs:395-397 | Bytes written with two digits each, the upper half first, are read back. |
| `HeaderEncoding.UpdateBlueWork` | src/pow.rs:356-368 | The blue work is padded to whole bytes, and more than 32 of them are a panic. |
| `HeaderEncoding.PaddedNumber` | src/pow.rs:360-368 | Padding gives an even number of digits and the same number. |
| `HeaderEncoding.TwosComplement` | src/pow.rs:350-354 | A timestamp is written modulo 2^64. |
| `LongHash.DigestLongCpu` | src/gpu.rs:672-697 | For every output length from 1 on the loop fills the output with H' of section 3.3 of RFC 9106 and writes every byte of it exactly once. |
| `LongHash.DigestLong1024` | src/argon2_kernel.cl:394-426 | The kernel's version writes H' of 1024 bytes, each byte exactly once, and nothing else. |
| `LongHash.HPrime` | src/gpu.rs:672-697 | H' has the requested length: 32 bytes of every digest but the last, and a last piece of 33 to 64 bytes. |
| `LongHash.HPrimePieces` | src/gpu.rs:672-697 | Piece by piece: what is hashed first is the length and the input, each digest is hashed to the next, the first 32 bytes of each stand at 32(i - 1), and the last piece is a digest of its own length. |
| `LongHash.HashPrivate` | src/argon2_kernel.cl:295-323 | For inputs of up to 256 bytes the kernel computes BLAKE2b of section 3.3 of RFC 7693 with the right counters. |
| `LongHash.Blake2bOfBlocks` | src/argon2_kernel.cl:295-323 | Section 3.3 of RFC 7693 for up to two blocks: the first of two counts 128 bytes, and the last one, filled up with zeros and marked as last, all of them. |
| `LongHash.DigestOfComputes` | src/argon2_kernel.cl:295-323 | BLAKE2b with results of up to 64 bytes is a hash as the theorems about the kernel's H' and first blocks ask for. |
| `LongHash.HashPrefixBlock` | src/argon2_kernel.cl:325-363 | The hand-cut blocks of 4 + 1024 bytes give the BLAKE2b hash of the whole message. |
| `LongHash.HashKeyed72` | src/argon2_kernel.cl:365-392 | Key block and message give keyed BLAKE2b. |
| `LongHash.ExportStage4` | src/argon2_kernel.cl:573-593 | The export writes H' of 32 bytes of the last block of the job's memory and the nonce of its record to the places of the job, and nothing else. |
| `LongHash.FillFirstBlocksCpu` | src/gpu.rs:641-670 | The CPU writes the first two blocks of section 3.2 of RFC 9106. |
| `LongHash.InitialMessageFields` | src/gpu.rs:653-670 | What is hashed to H_0, by position: 1, 32, 8192, 1, 0x13, 2, the length of the password and the password, the length of the salt and the salt, and eight zeros. |
| `LongHash.FirstBlockMessage` | src/gpu.rs:641-651 | Block i is H' of 1024 bytes of H_0, the number i and four zeros. |
| `LongHash.InitFirstBlocksGpu` | src/argon2_kernel.cl:595-633 | The kernel writes the same two blocks from the password and salt in a job record. |
| `NoncePartition.StratumHandler.SetExtranonce` | src/stratum.rs:270-293 | A message is accepted or rejected as a whole; an accepted one leaves a mask 2^f - 1 and a fixed part that is a multiple of 2^f below 2^64 if and only if it does not declare the whole nonce free and yet fix it, and a rejected one leaves everything as it was. |
| `NoncePartition.AcceptedSplitsIff` | src/stratum.rs:270-293 | An accepted message leaves such a division if and only if it does not declare the whole nonce free and yet have a value other than zero. |
| `NoncePartition.AcceptedFitsIff` | src/stratum.rs:276-281 | An accepted text fits above the free bits if and only if the number of its bits and the free ones together is below 2^32. |
| `NoncePartition.AcceptedPrefix` | src/stratum.rs:276-284 | A text that fits is put above the free bits, and none of its bits are lost. |
| `NoncePartition.Trimmed` | src/stratum.rs:276 | All marks 0x in front of the text are dropped, and nothing else. |
| `NoncePartition.LongTextPassesTheCheck` | src/stratum.rs:278-281 | A text of 2^30 - 2 digits passes the check of the lengths, because the number of bits wraps around in 32 bits. |
| `NoncePartition.LongTextBreaksTheDivision` | src/stratum.rs:276-284 | A text of 2^30 digits with the value one is accepted beside 64 free bits: the mask is then full and the fixed part is one. |
| `NoncePartition.ApplyIsNonce` | src/pow.rs:130-132 | Masking and setting bits gives the fixed part plus the counter modulo 2^f. |
| `NoncePartition.Worker.Batches` | src/miner.rs:491-492 | All nonces dispatched in the batches of a job are fixed + (start + i) mod 2^f, across wrap-arounds of the counter. |
| `NoncePartition.Worker.Batch` | src/argon2_kernel.cl:440-442 | The same for the work items of one batch. |
| `NoncePartition.RepeatsIff` | src/miner.rs:747-749 | Two dispatched nonces are equal if and only if their positions differ by a multiple of 2^f: none repeats before 2^f are used. |
| `NoncePartition.PartitionsAreDisjoint` | src/pow.rs:130-132 | Nonces of different prefixes are different, and all are below 2^64. |
| `Target.Shl` | src/target.rs:144-164 | For every distance the shift is multiplication by 2^s modulo 2^256, and no sum of words overflows. |
| `Target.Cmp` | src/target.rs:134-142 | The comparison from the highest word down is the order of the numbers. |
| `Target.FromCompactTarget` | src/target.rs:6-26 | The target is zero for a negative mantissa and otherwise mantissa times 256^(exponent - 3), rounded down and modulo 2^256, if and only if not both the exponent is 1 or 2 and the mantissa is negative. |
| `Target.NegativeTargetIsPositive` | src/target.rs:6-26 | The bits 0x01800000 stand for a negative target, and the code answers 128. |
| `Difficulty.FromStratumDifficulty` | src/target.rs:28-61 | A text of digits with at most one point, n / 10^k, has a target if and only if n is not zero, and it is floor(diff1 * 10^k / n) modulo 2^256, for fractions of fewer than 2^32 digits, zeros at the end not counted; for other texts it is decided by their parts. |
| `Difficulty.TargetOfText` | src/target.rs:34-55 | With or without a point, and with or without zeros at its end, a text has the quotient of the number that it stands for, under the same bound on the digits. |
| `Difficulty.IsDigitsIff` | src/target.rs:34-46 | What is read as a number are texts of the characters 0 to 9. |
| `Difficulty.DecimalOfText` | src/target.rs:34-46 | The decimal text of a number, the highest digit first, stands for that number. |
| `Difficulty.StandsForTextIff` | src/target.rs:38-46 | Numerator and scale stand for the number that is written if and only if the digits behind the point, without zeros at the end, are fewer than 2^32. |
| `Difficulty.LongFractionIsCut` | src/target.rs:38-46 | A fact about the function alone: a fraction of 2^32 digits that ends in 1 is read as 1. |
| `Difficulty.TargetIsQuotientIff` | src/target.rs:54-60 | The target is the quotient itself if and only if diff1 * scale < n * 2^256. |
| `Difficulty.FallsFromIff` | src/target.rs:54-60 | From a given difficulty on, of any two decimal difficulties the higher one never has the higher target, if and only if diff1 * scale < n * 2^256 for the given one. |
| `Difficulty.HigherDifficultyHigherTarget` | src/target.rs:28-61 | The texts 0.001 and 0.002: the higher difficulty has the higher target. |
| `Difficulty.LowestWords` | src/target.rs:56-60 | Copying at most 32 of the bytes keeps the number modulo 2^256. |
| `Difficulty.ParseTargetHex` | src/stratum.rs:296-311 | It answers if and only if every pair of the padded digits can be read, and digits give their number. |
| `Difficulty.DigitsBehindMark` | src/stratum.rs:297-300 | One mark 0x in front is dropped, and one to 64 digits must be left. |
| `MatrixGenerator.SameAsComment` | src/pow/heavy_hash.rs:11-52 | The closures give the matrix of the commented nested loops and leave the generator in the same state. |
| `MatrixGenerator.RandMatrixNoRankCheck` | src/pow/heavy_hash.rs:41-52 | Entry (i, j), at most 15, is made of four bits of word 4i + j / 16 of the output. |
| `MatrixGenerator.XoShiRo256PlusPlus.U64` | src/pow/xoshiro.rs:18-30 | The updates in sequence are the step that is shown to be a bijection. |
| `MatrixGenerator.OutputInNumbers` | src/pow/xoshiro.rs:20 | On 64-bit words: with t the sum of s0 and s3 modulo 2^64 the result is s0 plus t rotated by 23 modulo 2^64. |
| `MatrixGenerator.NextInNumbers` | src/pow/xoshiro.rs:21-28 | On 64-bit words the four words of the next state as numbers, with the shift by 17 and the rotation by 45. |
| `MatrixGenerator.EntryInNumbers` | src/pow/heavy_hash.rs:41-52 | Entry (i, j) is the word of output 4i + j / 16 divided by 16^(j mod 16), modulo 16, as a number of the state before that output. |
| `MatrixGenerator.FirstOutput` | src/pow/xoshiro.rs:18-30 | From the seed 1, 0, 0, 0 the first word is 2^23 + 1. |
| `MatrixGenerator.NextIsBijective` | src/pow/xoshiro.rs:18-30 | The step is one to one and onto. |
| `MatrixGenerator.ZeroIffStartedAtZero` | src/pow/xoshiro.rs:18-30 | After any number of steps the state is zero if and only if the seed was. |
| `MatrixGenerator.ZeroSeedNeverFinishes` | src/pow/heavy_hash.rs:30-38 | From the zero state every matrix is zero and singular, so that `generate` would never return. |
| `MatrixGenerator.Words64Laws` | src/pow/xoshiro.rs:18-30 | 64-bit words obey the laws that these theorems assume. |

## Left out

Idealisations, where the model is more general or coarser than the code:

- Words: a 64-bit word is a string of 64 bits in the permutations (the operations are parameters obeying laws of words, and the instances are proved to obey them) and a natural number below 2^64 in arithmetic; `LaneWords`, `Keccak`, `KeccakWords` and `MatrixGenerator` say what the operations on strings are as numbers.
- Block operations: the specifications of the fill take them as arbitrary functions, and `BlockPermutation` the four-word operation; `ThreadBlocks` and `FillKernels` join the two, `LaneWords` proves the four-word operation itself, and `Argon2id` puts it in.
- Memory of the fill: it is a map from column and lane to blocks instead of a flat array; `ArgonFill.AddressesAreDistinct` shows that this identifies the same blocks.
- `BlockPermutation.Lane.Exchange`: the two halves of a word that `u64_shuffle` exchanges separately are exchanged as a whole.
- Lockstep: between two barriers the 32 threads of a lane are run one after the other; they write different places of the scratch buffer.
- `FillKernels.Device.FillOneshot`: runs the lanes of a slice one after the other; that other orders leave the same memory is proved once for the specification, in `LaneInterleaving`.
- `LaneInterleaving.AnyOrderFills`: loading or storing a block is a single action, while the kernel moves words; `LaneInterleaving.BlocksAreNotTorn` shows why this makes no difference, but the words do not have actions of their own.
- `LaneInterleaving.CompleteRunsAgree`: has the same actions on whole blocks.
- `LaneInterleaving.RunAsIfAlone`: has the same actions on whole blocks.
- `LaneInterleaving.AnyLaunchFills`: has the same actions on whole blocks.
- `LaneInterleaving.EnoughActionsComplete`: leaves out the barriers of `u64_shuffle`, at which lanes of a work-group wait for each other; it allows more orders than there are.
- `FillKernels.Device.Precompute`: runs the work items in one order; they write different entries of the table.
- `Argon2id.RunArgon`: the bytes of a job's memory become words and bytes again around the fill, where the device has one memory; one job is filled after the other, while the device runs them at the same time on their own parts.
- Argon2d, Argon2i and version 0x10: compile-time variants of the kernels that are never selected.
- `FillKernels.TableFitsBuffer`: models `refs_buffer_bytes` for any number of lanes; `memory_per_job_bytes` is left out, as it does not depend on the lanes and is right for the one lane in use.
- Memory orderings: all atomic operations are sequentially consistent steps, also the relaxed ones of the source.
- `WatchSwap.CanBeWokenUp`: says that a wake-up is possible within a few steps, not that a fair scheduler must take them.
- `ClaimProtocol.RunInvariant`: a receiver gets the last version published, without the details of `WatchSwap`; counters of hashes, shutdown, throttling and errors of the send channel are not modelled. The comment of the source that ids are always unique is right only below 2^64 templates.
- `MatrixRank.ComputeRank`: exact reals stand for 64-bit floating point, and zero for the threshold 1e-9; rounding is not modelled.
- `MatrixGenerator.RandMatrixNoRankCheck`: `generate` repeats it until the rank is 64; how often is a matter of probability and not modelled.
- `LongHash.HashPrefixBlock` and the other hashes: the compression function of BLAKE2b is arbitrary, and so is the hash that the library computes on the CPU, apart from the length of its output.
- `LongHash.DigestLongCpu`: does not model an empty output, because the hash library rejects length zero.
- `LongHash.HashKeyed72`: is reached only from `velkar_finalize_candidates`, which is not on the live path; the CPU hashes with the same key through its library.
- `LongHash.HashPrivate`: says nothing about the digest of more than 256 bytes, of which the function would drop some; its callers pass 64, 76 and 128 bytes.
- `JobPreparation.PrepareJobs`: that the two initial states of cSHAKE, which are those of the source, come from the domain strings and the padding is not proved. The memory-hard hash of the CPU is a parameter, which `Batch.Validate` takes to be Argon2id.
- `NoncePartition.StratumHandler.SetExtranonce`: models a release build, in which sums wrap around and shift distances are taken modulo 64; the texts of errors are left out, and so is the narrowing of `nonce_size` to 32 bits by the callers.
- `Difficulty.FromStratumDifficulty`: the reading of big integers is a parameter that is known on strings of decimal digits only, as num-bigint also reads other texts; white space around a text is taken as trimmed already, here and in `Difficulty.ParseTargetHex`.
- `Difficulty.ParseTargetHex`: texts with characters outside ASCII, which could be cut in the middle of a character, are not modelled.
- `HeaderEncoding.SerializeHeader`: an `unwrap` that fails is the result `false`; the hasher collects the bytes, and the keyed hash of them is left out.

Parts of the repository that are not modelled:

- Network, pool protocol, JSON, command line, logging and the display of the hash rate.
- Host calls to OpenCL and CUDA, buffers, devices and driver errors.
- `src/cuda_kernel.cu` and the other assembly versions of Keccak, which are twins of the modelled ones.
- `SHA3_absorb`, `SHA3_squeeze` and, apart from its keyed hash, `velkar_finalize_candidates`, which no live path reaches.
- The last stage of `calculate_pow` (a keyed BLAKE2b and a mixing of words) and `pow_match`: they would only add easy members.
- The schedule of devfund batches in the workers.
- Inside the libraries argon2, blake2b_simd, num-bigint and arc-swap.
- The quality of the hashes and of the random numbers.
