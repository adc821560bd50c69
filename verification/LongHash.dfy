/**
 The hashing around the memory-hard fill: the variable-length hash H' of section 3.3 of RFC 9106 and
 BLAKE2b over whole messages (section 3.3 of RFC 7693), as the CPU and the kernel compute them
 (src/gpu.rs, src/argon2_kernel.cl), and the first two blocks of a lane.

 The compression function of BLAKE2b and the state it works on are arbitrary.
 */
module LongHash {
  import Bits
  import opened LittleEndian

  type Bytes = seq<Byte>

  // ------------------------------------------------------------ BLAKE2b

  /** The initial state for the lengths of key and result, the compression function, and a state as 64 bytes. */
  datatype Blake<!S> = Blake(init: (nat, nat) -> S, compress: (S, Bytes, nat, bool) -> S, bytes: S -> Bytes)

  ghost predicate WellFormed<S(!new)>(b: Blake<S>) { forall s: S :: |b.bytes(s)| == 64 }

  function Zeros(n: nat): (r: Bytes)
    ensures |r| == n
  {
    seq<Byte>(n, _ => 0)
  }

  function Pad(x: Bytes): (r: Bytes)
    requires |x| <= 128
    ensures |r| == 128
  {
    x + Zeros(128 - |x|)
  }

  /** The state after the first i blocks, each counted with all bytes up to its end. */
  function AfterBlocks<S>(b: Blake<S>, s: S, data: Bytes, i: nat): S
    requires 128 * i <= |data|
  {
    if i == 0 then s else b.compress(AfterBlocks(b, s, data, i - 1), data[128 * (i - 1)..128 * i], 128 * i, false)
  }

  /** The blocks before the last one, which is the only one that may be short. */
  function FullBlocks(n: nat): (i: nat)
    ensures 128 * i <= n && n - 128 * i <= 128 && (i > 0 ==> n > 128 * i)
  {
    if n == 0 then 0 else (n - 1) / 128
  }

  function HashFrom<S(!new)>(b: Blake<S>, s: S, nn: nat, data: Bytes): (r: Bytes)
    requires WellFormed(b) && nn <= 64
    ensures |r| == nn
  {
    var i := FullBlocks(|data|);
    b.bytes(b.compress(AfterBlocks(b, s, data, i), Pad(data[128 * i..]), |data|, true))[..nn]
  }

  /** Section 3.3 of RFC 7693 without a key, and with one: the key is a block of its own before the message. */
  function Blake2b<S(!new)>(b: Blake<S>, nn: nat, x: Bytes): (r: Bytes)
    requires WellFormed(b) && nn <= 64
    ensures |r| == nn
  {
    HashFrom(b, b.init(0, nn), nn, x)
  }

  function Keyed<S(!new)>(b: Blake<S>, key: Bytes, nn: nat, x: Bytes): (r: Bytes)
    requires WellFormed(b) && nn <= 64 && 0 < |key| <= 64
  {
    HashFrom(b, b.init(|key|, nn), nn, Pad(key) + x)
  }

  lemma LastBlock(n: nat, i: nat)
    requires 128 * i <= n <= 128 * i + 128 && (n == 0 || 128 * i < n)
    ensures FullBlocks(n) == i
  {
  }

  /** One block is compressed as the last one, with its length; of two the first one counts 128 bytes. */
  lemma Blake2bOfBlocks<S(!new)>(b: Blake<S>, nn: nat, x: Bytes)
    requires WellFormed(b) && nn <= 64
    ensures |x| <= 128 ==>
      Blake2b(b, nn, x) == b.bytes(b.compress(b.init(0, nn), x + Zeros(128 - |x|), |x|, true))[..nn]
    ensures 128 < |x| <= 256 ==>
      Blake2b(b, nn, x) == b.bytes(b.compress(b.compress(b.init(0, nn), x[..128], 128, false),
                                              x[128..] + Zeros(256 - |x|), |x|, true))[..nn]
  {
    if |x| <= 128 {
      LastBlock(|x|, 0);
      assert x[0..] == x;
    } else if |x| <= 256 {
      LastBlock(|x|, 1);
      assert x[0..128] == x[..128];
      assert AfterBlocks(b, b.init(0, nn), x, 1)
        == b.compress(AfterBlocks(b, b.init(0, nn), x, 0), x[0..128], 128, false);
    }
  }

  /** A block of the input, filled up with zeros if less than a block is left. */
  method PaddedBlock(input: Bytes, offset: nat, remaining: nat) returns (block: Bytes)
    requires offset + (if remaining < 128 then remaining else 128) <= |input|
    ensures block == Pad(input[offset..offset + (if remaining < 128 then remaining else 128)])
  {
    block := [];
    for i: nat := 0 to 128
      invariant |block| == i
      invariant forall k: nat | k < i :: block[k] == if k < remaining then input[offset + k] else 0
    {
      block := block + [if i < remaining then input[offset + i] else 0];
    }
  }

  /** blake2b_hash_private: one full block at most before the last. */
  method HashPrivate<S(!new)>(b: Blake<S>, outLen: nat, input: Bytes) returns (out: Bytes)
    requires WellFormed(b) && outLen <= 64
    ensures |out| == outLen && (|input| <= 256 ==> out == Blake2b(b, outLen, input))
  {
    var h := b.init(0, outLen);
    var offset := 0;
    if |input| > 128 {
      h := b.compress(h, input[..128], 128, false);
      offset := 128;
    }
    var remaining := |input| - offset;
    var block := PaddedBlock(input, offset, remaining);
    h := b.compress(h, block, |input|, true);
    out := b.bytes(h)[..outLen];
    if |input| <= 256 {
      LastBlock(|input|, offset / 128);
      assert input[offset..offset + remaining] == input[offset..];
      if offset == 128 {
        assert AfterBlocks(b, b.init(0, outLen), input, 1)
            == b.compress(AfterBlocks(b, b.init(0, outLen), input, 0), input[0..128], 128, false);
        assert input[0..128] == input[..128];
      }
    }
  }

  /**
   blake2b_hash32_prefix_block_global: the number 32 and a block of 1024 bytes, cut into pieces of 128
   by hand, the first with 124 bytes of the block.
   */
  method HashPrefixBlock<S(!new)>(b: Blake<S>, input: Bytes) returns (out: Bytes)
    requires WellFormed(b) && |input| == 1024
    ensures out == Blake2b(b, 32, ToLe(32, 4) + input)
  {
    ghost var data := ToLe(32, 4) + input;
    ghost var start := b.init(0, 32);
    var total := 4 + 1024;
    var h := b.init(0, 32);
    var block := ToLe(32, 4) + input[..124];
    assert block == data[0..128];
    h := b.compress(h, block, 128, false);
    assert AfterBlocks(b, start, data, 1) == b.compress(AfterBlocks(b, start, data, 0), data[0..128], 128, false);
    var consumed, compressed := 124, 128;
    ghost var i: nat := 1;
    while total - compressed > 128
      invariant 1 <= i <= 8 && compressed == 128 * i && consumed == compressed - 4
      invariant h == AfterBlocks(b, start, data, i)
    {
      block := input[consumed..consumed + 128];
      assert block == data[128 * i..128 * (i + 1)];
      consumed, compressed := consumed + 128, compressed + 128;
      h := b.compress(h, block, compressed, false);
      i := i + 1;
    }
    var remaining := total - compressed;
    block := PaddedBlock(input, consumed, remaining);
    LastBlock(total, i);
    assert input[consumed..consumed + remaining] == data[128 * i..];
    h := b.compress(h, block, total, true);
    out := b.bytes(h)[..32];
  }

  /** blake2b_keyed_pow_72 */
  method HashKeyed72<S(!new)>(b: Blake<S>, key: Bytes, input: Bytes) returns (out: Bytes)
    requires WellFormed(b) && |key| == 15 && |input| == 72
    ensures out == Keyed(b, key, 32, input)
  {
    ghost var data := Pad(key) + input;
    ghost var start := b.init(15, 32);
    var h := b.init(15, 32);
    var block := PaddedBlock(key, 0, 15);
    assert key[0..0 + 15] == key;
    assert block == data[0..128];
    h := b.compress(h, block, 128, false);
    assert AfterBlocks(b, start, data, 1) == b.compress(AfterBlocks(b, start, data, 0), data[0..128], 128, false);
    block := PaddedBlock(input, 0, 72);
    assert input[0..0 + 72] == input == data[128..];
    LastBlock(200, 1);
    h := b.compress(h, block, 128 + 72, true);
    out := b.bytes(h)[..32];
  }

  // ------------------------------------------------------------ H'

  /** A hash with a result of 1 to 64 bytes. */
  type Digest = (nat, Bytes) -> Bytes

  ghost predicate IsDigest(hash: Digest) { forall n: nat, x: Bytes | 1 <= n <= 64 :: |hash(n, x)| == n }

  /** V_i of section 3.3 of RFC 9106. */
  function V(hash: Digest, length: nat, input: Bytes, i: nat): Bytes
    requires i >= 1
  {
    if i == 1 then hash(64, ToLe(length, 4) + input) else hash(64, V(hash, length, input, i - 1))
  }

  /** W_1 to W_r: the first 32 bytes of each V_i. */
  function Pieces(hash: Digest, length: nat, input: Bytes, r: nat): (bytes: Bytes)
    requires IsDigest(hash)
    ensures |bytes| == 32 * r
  {
    if r == 0 then [] else Pieces(hash, length, input, r - 1) + V(hash, length, input, r)[..32]
  }

  /** r = ceil(length / 32) - 2 */
  function PieceCount(length: nat): (r: nat)
    requires length > 64
    ensures r >= 1 && 33 <= length - 32 * r <= 64
  {
    (length + 31) / 32 - 2
  }

  function HPrime(hash: Digest, length: nat, input: Bytes): (r: Bytes)
    requires IsDigest(hash) && length >= 1
    ensures |r| == length
  {
    if length <= 64 then hash(length, ToLe(length, 4) + input)
    else
      var r := PieceCount(length);
      Pieces(hash, length, input, r) + hash(length - 32 * r, V(hash, length, input, r))
  }

  lemma LastPiece(length: nat, k: nat)
    requires length > 64 && 1 <= k && 32 * k <= length
    ensures length - 32 * k > 64 ==> k < PieceCount(length)
    ensures length - 32 * k <= 64 && length - 32 * (k - 1) > 64 ==> k == PieceCount(length)
  {
  }

  /** How often each byte of an output has been written: once from `at` on for n bytes, and never elsewhere. */
  ghost predicate WrittenOnce(writes: seq<nat>, length: nat, at: nat, n: nat) {
    |writes| == length && forall k | 0 <= k < length :: writes[k] == if at <= k < at + n then 1 else 0
  }

  /** The bytes `done` stand at their place, nothing else has changed, and each of them was written once. */
  ghost predicate Emitted(before: Bytes, at: nat, done: Bytes, now: Bytes, writes: seq<nat>) {
    Placed(before, at, done, now) && WrittenOnce(writes, |now|, at, |done|)
  }

  function Unwritten(n: nat): seq<nat> { seq(n, _ => 0) }

  lemma NothingEmitted(before: Bytes, at: nat)
    requires at <= |before|
    ensures Emitted(before, at, [], before, Unwritten(|before|))
  {
  }

  lemma EmittedOnce(before: Bytes, at: nat, done: Bytes, now: Bytes, writes: seq<nat>)
    requires Emitted(before, at, done, now, writes)
    ensures Placed(before, at, done, now) && WrittenOnce(writes, |now|, at, |done|)
  {
  }

  lemma AllEmitted(before: Bytes, done: Bytes, now: Bytes, writes: seq<nat>)
    requires Emitted(before, 0, done, now, writes) && |done| == |before|
    ensures now == done && WrittenOnce(writes, |now|, 0, |now|)
  {
  }

  /** One more piece behind the n bytes that have been written; every assignment to a byte is counted. */
  method Emit(out: array<Byte>, at: nat, n: nat, piece: Bytes, ghost before: Bytes, ghost done: Bytes,
              ghost writes: seq<nat>)
    returns (ghost writes': seq<nat>)
    requires Emitted(before, at, done, out[..], writes) && |done| == n && at + n + |piece| <= out.Length
    modifies out
    ensures Emitted(before, at, done + piece, out[..], writes')
  {
    writes' := writes;
    var place := at + n;
    for i: nat := 0 to |piece|
      invariant WrittenOnce(writes', out.Length, at, n + i)
      invariant forall k: nat | k < out.Length ::
        out[k] == if place <= k < place + i then piece[k - place] else old(out[k])
    {
      out[place + i] := piece[i];
      writes' := writes'[place + i := writes'[place + i] + 1];
    }
    PlacedNext(before, at, done, old(out[..]), place, piece, out[..]);
  }

  /** digest_long_cpu: it fills the output with H', each byte once, for every length that the hash allows at all. */
  method DigestLongCpu(hash: Digest, out: array<Byte>, input: Bytes) returns (ghost writes: seq<nat>)
    requires IsDigest(hash) && out.Length >= 1
    modifies out
    ensures out[..] == HPrime(hash, out.Length, input)
    ensures WrittenOnce(writes, out.Length, 0, out.Length)
  {
    hide Emitted, WrittenOnce;
    ghost var start, done: Bytes := out[..], [];
    writes := Unwritten(out.Length);
    NothingEmitted(start, 0);
    var data := ToLe(out.Length, 4) + input;
    if out.Length <= 64 {
      writes := Emit(out, 0, 0, hash(out.Length, data), start, done, writes);
      AllEmitted(start, done + hash(out.Length, data), out[..], writes);
      return;
    }
    var buffer := hash(64, data);
    writes := Emit(out, 0, 0, buffer[..32], start, done, writes);
    var produced := 32;
    done := done + buffer[..32];
    ghost var k: nat := 1;
    PiecesNext(hash, out.Length, input, 1);
    while out.Length - produced > 64
      invariant k >= 1 && produced == 32 * k <= out.Length && out.Length - 32 * (k - 1) > 64
      invariant buffer == V(hash, out.Length, input, k)
      invariant done == Pieces(hash, out.Length, input, k) && Emitted(start, 0, done, out[..], writes)
    {
      buffer := hash(64, buffer);
      writes := Emit(out, 0, produced, buffer[..32], start, done, writes);
      done := done + buffer[..32];
      produced := produced + 32;
      k := k + 1;
      PiecesNext(hash, out.Length, input, k);
    }
    LastPiece(out.Length, k);
    writes := Emit(out, 0, produced, hash(out.Length - produced, buffer), start, done, writes);
    AllEmitted(start, done + hash(out.Length - produced, buffer), out[..], writes);
  }

  lemma PiecesNext(hash: Digest, length: nat, input: Bytes, r: nat)
    requires IsDigest(hash) && r >= 1
    ensures Pieces(hash, length, input, r) == Pieces(hash, length, input, r - 1) + V(hash, length, input, r)[..32]
    ensures Pieces(hash, length, input, 0) == []
  {
  }

  // ------------------------------------------------------------ the kernel's H' of 1024 bytes

  function DigestOf<S(!new)>(b: Blake<S>): Digest
    requires WellFormed(b)
  {
    (n: nat, x: Bytes) => if n <= 64 then Blake2b(b, n, x) else []
  }

  /** hash is what the kernel's BLAKE2b computes. */
  ghost predicate Computes<S(!new)>(b: Blake<S>, hash: Digest) {
    WellFormed(b) && IsDigest(hash)
      && forall n: nat, x: Bytes {:trigger Blake2b(b, n, x)} | n <= 64 :: hash(n, x) == Blake2b(b, n, x)
  }

  lemma DigestOfComputes<S(!new)>(b: Blake<S>)
    requires WellFormed(b)
    ensures Computes(b, DigestOf(b))
  {
  }

  method Hash<S(!new)>(b: Blake<S>, outLen: nat, input: Bytes, ghost hash: Digest) returns (out: Bytes)
    requires Computes(b, hash) && outLen <= 64 && |input| <= 256
    ensures out == hash(outLen, input) && |out| == outLen
  {
    out := HashPrivate(b, outLen, input);
  }

  /** digest_long_1024_global: the same at a place in the memory. */
  method DigestLong1024<S(!new)>(b: Blake<S>, out: array<Byte>, at: nat, input: Bytes, ghost hash: Digest)
    returns (ghost writes: seq<nat>)
    requires Computes(b, hash) && |input| == 72 && at + 1024 <= out.Length
    modifies out
    ensures Placed(old(out[..]), at, HPrime(hash, 1024, input), out[..])
    ensures WrittenOnce(writes, out.Length, at, 1024)
  {
    hide Emitted, Placed, WrittenOnce;
    ghost var start, done: Bytes := out[..], [];
    writes := Unwritten(out.Length);
    NothingEmitted(start, at);
    var buffer := Hash(b, 64, ToLe(1024, 4) + input, hash);
    writes := Emit(out, at, 0, buffer[..32], start, done, writes);
    var produced := 32;
    ghost var k: nat := 1;
    done := done + buffer[..32];
    PiecesNext(hash, 1024, input, 1);
    while 1024 - produced > 64
      invariant 1 <= k <= 30 && produced == 32 * k
      invariant buffer == V(hash, 1024, input, k) && |buffer| == 64
      invariant done == Pieces(hash, 1024, input, k) && Emitted(start, at, done, out[..], writes)
    {
      buffer := Hash(b, 64, buffer, hash);
      writes := Emit(out, at, produced, buffer[..32], start, done, writes);
      done := done + buffer[..32];
      produced := produced + 32;
      k := k + 1;
      PiecesNext(hash, 1024, input, k);
    }
    var next := Hash(b, 64, buffer, hash);
    writes := Emit(out, at, produced, next, start, done, writes);
    EmittedOnce(start, at, done + next, out[..], writes);
    HPrimeOf1024(hash, input);
  }

  lemma HPrimeOf1024(hash: Digest, input: Bytes)
    requires IsDigest(hash)
    ensures HPrime(hash, 1024, input) == Pieces(hash, 1024, input, 30) + hash(64, V(hash, 1024, input, 30))
  {
    assert PieceCount(1024) == 30;
  }

  /** The digest of the last block is H' of 32 bytes. */
  method DigestOfBlock<S(!new)>(b: Blake<S>, block: Bytes, ghost hash: Digest) returns (out: Bytes)
    requires Computes(b, hash) && |block| == 1024
    ensures out == HPrime(hash, 32, block)
  {
    out := HashPrefixBlock(b, block);
  }

  /**
   velkar_export_stage4 for one job: the digest of the last block of the job's memory, and the nonce of its
   record.
   */
  method ExportStage4<S(!new)>(b: Blake<S>, memory: Bytes, jobInputs: Bytes, stage4Out: array<Byte>,
                               nonceOut: array<Word>, memoryPerJob: nat, inputPerJob: nat, job: nat, ghost hash: Digest)
    requires Computes(b, hash) && memoryPerJob >= 1024 && inputPerJob >= 96
    requires job * memoryPerJob + memoryPerJob <= |memory| && job * inputPerJob + inputPerJob <= |jobInputs|
    requires job * 32 + 32 <= stage4Out.Length && job < nonceOut.Length
    modifies stage4Out, nonceOut
    ensures var last := job * memoryPerJob + memoryPerJob - 1024;
            Placed(old(stage4Out[..]), job * 32, HPrime(hash, 32, memory[last..last + 1024]), stage4Out[..])
    ensures var input := job * inputPerJob;
            nonceOut[..] == old(nonceOut[..])[job := WordFromLe(jobInputs[input + 88..input + 96])]
  {
    var input := job * inputPerJob;
    var last := job * memoryPerJob + memoryPerJob - 1024;
    var stage4 := DigestOfBlock(b, memory[last..last + 1024], hash);
    Write(stage4Out, job * 32, stage4);
    var nonce := Load64(jobInputs, input + 88);
    nonceOut[job] := nonce;
  }

  // ------------------------------------------------------------ the first two blocks

  function Le32(n: nat): (r: Bytes)
    ensures |r| == 4
  {
    ToLe(n, 4)
  }

  /** What is hashed to H_0: one lane, 32 bytes of tag, 8192 KiB, one pass, version 0x13 and type ID. */
  function InitialMessage(password: Bytes, salt: Bytes): Bytes {
    Le32(1) + Le32(32) + Le32(8192) + Le32(1) + Le32(0x13) + Le32(2)
    + Le32(|password|) + password + Le32(|salt|) + salt + Le32(0) + Le32(0)
  }

  /** H_0 of section 3.2 of RFC 9106. */
  function InitialHash(hash: Digest, password: Bytes, salt: Bytes): Bytes {
    hash(64, InitialMessage(password, salt))
  }

  /** Block i of lane 0, for i = 0 and i = 1. */
  function FirstBlock(hash: Digest, password: Bytes, salt: Bytes, i: nat): (r: Bytes)
    requires IsDigest(hash)
    ensures |r| == 1024
  {
    HPrime(hash, 1024, InitialHash(hash, password, salt) + Le32(i) + Le32(0))
  }

  function FirstBlocks(hash: Digest, password: Bytes, salt: Bytes): Bytes
    requires IsDigest(hash)
  {
    FirstBlock(hash, password, salt, 0) + FirstBlock(hash, password, salt, 1)
  }

  lemma ValueOfLe32(n: nat)
    requires n < Bits.TWO32
    ensures FromLe(Le32(n)) == n
  {
    assert Bits.Pow2(32) == Bits.TWO32 by {
      assert Bits.Pow2(8) == 256;
      Bits.Pow2Sum(8, 8);
      Bits.Pow2Sum(16, 16);
    }
    FromToLe(n, 4);
  }

  lemma SixFields(a: Bytes, b: Bytes, c: Bytes, d: Bytes, e: Bytes, f: Bytes)
    requires |a| == |b| == |c| == |d| == |e| == |f| == 4
    ensures var m := a + b + c + d + e + f;
            m[0..4] == a && m[4..8] == b && m[8..12] == c && m[12..16] == d && m[16..20] == e && m[20..24] == f
  {
  }

  lemma FiveFields(a: Bytes, b: Bytes, c: Bytes, d: Bytes, e: Bytes)
    requires |a| == |c| == 4
    ensures var (m, n) := (a + b + c + d + e, 4 + |b|);
            m[0..4] == a && m[4..n] == b && m[n..n + 4] == c && m[n + 4..n + 4 + |d|] == d && m[n + 4 + |d|..] == e
  {
  }

  lemma BehindHead(head: Bytes, tail: Bytes, i: nat, j: nat)
    requires i <= j <= |tail|
    ensures (head + tail)[|head| + i..|head| + j] == tail[i..j] && (head + tail)[|head| + i..] == tail[i..]
  {
  }

  lemma Append(x: Bytes, y: Bytes, z: Bytes)
    ensures (x + y) + z == x + (y + z)
  {
  }

  lemma Joined(h: Bytes, a: Bytes, b: Bytes, c: Bytes, d: Bytes, e: Bytes, f: Bytes)
    ensures h + a + b + c + d + e + f == h + (a + b + c + d + (e + f))
  {
    Append(h, a, b);
    Append(h, a + b, c);
    Append(h, a + b + c, d);
    Append(h, a + b + c + d, e);
    Append(h, a + b + c + d + e, f);
    Append(a + b + c + d, e, f);
  }

  lemma InHead(head: Bytes, tail: Bytes, i: nat, j: nat)
    requires i <= j <= |head|
    ensures (head + tail)[i..j] == head[i..j]
  {
  }

  function InitialHead(): (head: Bytes)
    ensures |head| == 24
  {
    Le32(1) + Le32(32) + Le32(8192) + Le32(1) + Le32(0x13) + Le32(2)
  }

  function InitialTail(password: Bytes, salt: Bytes): (tail: Bytes)
    ensures |tail| == 16 + |password| + |salt|
  {
    Le32(|password|) + password + Le32(|salt|) + salt + (Le32(0) + Le32(0))
  }

  lemma InitialParts(password: Bytes, salt: Bytes)
    ensures InitialMessage(password, salt) == InitialHead() + InitialTail(password, salt)
  {
    hide Le32;
    Joined(InitialHead(), Le32(|password|), password, Le32(|salt|), salt, Le32(0), Le32(0));
  }

  /** The message for H_0, field by field at its places: section 3.2 of RFC 9106 without a key and associated data. */
  lemma InitialMessageFields(password: Bytes, salt: Bytes)
    requires |password| < Bits.TWO32 && |salt| < Bits.TWO32
    ensures var (m, p) := (InitialMessage(password, salt), |password|);
            && |m| == 40 + p + |salt|
            && FromLe(m[0..4]) == 1 && FromLe(m[4..8]) == 32 && FromLe(m[8..12]) == 8192
            && FromLe(m[12..16]) == 1 && FromLe(m[16..20]) == 0x13 && FromLe(m[20..24]) == 2
            && FromLe(m[24..28]) == p && m[28..28 + p] == password
            && FromLe(m[28 + p..32 + p]) == |salt| && m[32 + p..32 + p + |salt|] == salt
            && m[32 + p + |salt|..] == [0, 0, 0, 0, 0, 0, 0, 0]
  {
    hide InitialMessage, InitialHead, InitialTail, FromLe;
    InitialParts(password, salt);
    HeadFields(InitialTail(password, salt));
    TailFields(InitialHead(), password, salt);
  }

  lemma HeadFields(tail: Bytes)
    ensures var m := InitialHead() + tail;
            && FromLe(m[0..4]) == 1 && FromLe(m[4..8]) == 32 && FromLe(m[8..12]) == 8192
            && FromLe(m[12..16]) == 1 && FromLe(m[16..20]) == 0x13 && FromLe(m[20..24]) == 2
  {
    hide Le32, FromLe;
    var head := InitialHead();
    SixFields(Le32(1), Le32(32), Le32(8192), Le32(1), Le32(0x13), Le32(2));
    InHead(head, tail, 0, 4); InHead(head, tail, 4, 8); InHead(head, tail, 8, 12);
    InHead(head, tail, 12, 16); InHead(head, tail, 16, 20); InHead(head, tail, 20, 24);
    ValueOfLe32(1); ValueOfLe32(32); ValueOfLe32(8192); ValueOfLe32(0x13); ValueOfLe32(2);
  }

  lemma TailFields(head: Bytes, password: Bytes, salt: Bytes)
    requires |head| == 24 && |password| < Bits.TWO32 && |salt| < Bits.TWO32
    ensures var (m, p) := (head + InitialTail(password, salt), |password|);
            && FromLe(m[24..28]) == p && m[28..28 + p] == password
            && FromLe(m[28 + p..32 + p]) == |salt| && m[32 + p..32 + p + |salt|] == salt
            && m[32 + p + |salt|..] == [0, 0, 0, 0, 0, 0, 0, 0]
  {
    hide Le32, FromLe;
    var (tail, p, q) := (InitialTail(password, salt), |password|, |salt|);
    FiveFields(Le32(p), password, Le32(q), salt, Le32(0) + Le32(0));
    BehindHead(head, tail, 0, 4); BehindHead(head, tail, 4, 4 + p); BehindHead(head, tail, 4 + p, 8 + p);
    BehindHead(head, tail, 8 + p, 8 + p + q);
    ValueOfLe32(p);
    ValueOfLe32(q);
    ZeroFields();
  }

  lemma ZeroFields()
    ensures Le32(0) + Le32(0) == [0, 0, 0, 0, 0, 0, 0, 0] && Le32(0) == [0, 0, 0, 0]
  {
    ZeroToLe(4);
  }

  /** Block i is H' of 1024 bytes of H_0, the number i and the lane 0. */
  lemma FirstBlockMessage(hash: Digest, password: Bytes, salt: Bytes, i: nat) returns (m: Bytes)
    requires IsDigest(hash) && i < Bits.TWO32
    ensures |m| == 72 && m[..64] == hash(64, InitialMessage(password, salt))
    ensures FromLe(m[64..68]) == i && m[68..] == [0, 0, 0, 0]
    ensures FirstBlock(hash, password, salt, i) == HPrime(hash, 1024, m)
  {
    hide HPrime, ToLe, InitialMessage;
    m := InitialHash(hash, password, salt) + Le32(i) + Le32(0);
    ValueOfLe32(i);
    ZeroFields();
    assert m[64..68] == Le32(i);
  }

  /**
   H', piece by piece: the input with its length in front is hashed to the first 64 bytes, these to the next 64, and
   so on; 32 bytes are taken of each, and the last piece is hashed to its own length.
   */
  lemma HPrimePieces(hash: Digest, length: nat, input: Bytes, i: nat) returns (m: Bytes)
    requires IsDigest(hash) && 1 <= length < Bits.TWO32
    ensures |m| == 4 + |input| && FromLe(m[..4]) == length && m[4..] == input
    ensures length <= 64 ==> HPrime(hash, length, input) == hash(length, m)
    ensures length > 64 ==> V(hash, length, input, 1) == hash(64, m)
    ensures length > 64 && 1 <= i && 32 * i + 32 < length ==>
      && HPrime(hash, length, input)[32 * i - 32..32 * i] == V(hash, length, input, i)[..32]
      && V(hash, length, input, i + 1) == hash(64, V(hash, length, input, i))
      && (32 * i + 64 >= length ==>
            HPrime(hash, length, input)[32 * i..] == hash(length - 32 * i, V(hash, length, input, i)))
  {
    hide ToLe;
    m := Le32(length) + input;
    ValueOfLe32(length);
    assert m[..4] == Le32(length);
    if length > 64 && 1 <= i && 32 * i + 32 < length {
      var r := PieceCount(length);
      assert i <= r;
      PieceAt(hash, length, input, r, i);
      assert HPrime(hash, length, input)[32 * i - 32..32 * i] == Pieces(hash, length, input, r)[32 * i - 32..32 * i];
    }
  }

  lemma {:induction false} PieceAt(hash: Digest, length: nat, input: Bytes, r: nat, i: nat)
    requires IsDigest(hash) && 1 <= i <= r
    ensures Pieces(hash, length, input, r)[32 * i - 32..32 * i] == V(hash, length, input, i)[..32]
  {
    PiecesNext(hash, length, input, r);
    if i < r {
      PieceAt(hash, length, input, r - 1, i);
      assert Pieces(hash, length, input, r)[32 * i - 32..32 * i]
        == Pieces(hash, length, input, r - 1)[32 * i - 32..32 * i];
    }
  }

  /** initial_hash_cpu */
  method InitialHashCpu(hash: Digest, password: Bytes, salt: Bytes) returns (out: Bytes)
    requires IsDigest(hash)
    ensures out == InitialHash(hash, password, salt)
  {
    var data: Bytes := [];
    data := data + Le32(1);
    assert data == Le32(1);
    data := data + Le32(32);
    data := data + Le32(8192);
    data := data + Le32(1);
    data := data + Le32(0x13);
    data := data + Le32(2);
    data := data + Le32(|password|);
    data := data + password;
    data := data + Le32(|salt|);
    data := data + salt;
    data := data + Le32(0);
    data := data + Le32(0);
    out := hash(64, data);
  }

  /** digest_long_cpu into a slice of the memory */
  method DigestLongInto(hash: Digest, memory: array<Byte>, at: nat, length: nat, input: Bytes)
    requires IsDigest(hash) && length >= 1 && at + length <= memory.Length
    modifies memory
    ensures Placed(old(memory[..]), at, HPrime(hash, length, input), memory[..])
  {
    var slice := new Byte[length](_ => 0);
    ghost var _ := DigestLongCpu(hash, slice, input);
    Write(memory, at, slice[..]);
  }

  /** fill_first_blocks_cpu */
  method FillFirstBlocksCpu(hash: Digest, memory: array<Byte>, password: Bytes, salt: Bytes)
    requires IsDigest(hash) && memory.Length >= 2048
    modifies memory
    ensures Placed(old(memory[..]), 0, FirstBlocks(hash, password, salt), memory[..])
  {
    ghost var start := memory[..];
    var initHash := InitialHashCpu(hash, password, salt);
    DigestLongInto(hash, memory, 0, 1024, initHash + Le32(0) + Le32(0));
    ghost var middle := memory[..];
    DigestLongInto(hash, memory, 1024, 1024, initHash + Le32(1) + Le32(0));
    PlacedNext(start, 0, FirstBlock(hash, password, salt, 0), middle, 1024, FirstBlock(hash, password, salt, 1),
               memory[..]);
  }

  /** velkar_init_first_blocks for one job: the same blocks from the password and the salt in the record of the job. */
  method InitFirstBlocksGpu<S(!new)>(b: Blake<S>, memory: array<Byte>, at: nat, input: Bytes, ghost hash: Digest)
    requires Computes(b, hash) && |input| >= 88 && at + 2048 <= memory.Length
    modifies memory
    ensures Placed(old(memory[..]), at, FirstBlocks(hash, input[..72], input[72..88]), memory[..])
  {
    ghost var start, password, salt := memory[..], input[..72], input[72..88];
    var data := Le32(1) + Le32(32) + Le32(8192) + Le32(1) + Le32(0x13) + Le32(2)
                + Le32(72) + input[..72] + Le32(16) + input[72..88] + Le32(0) + Le32(0);
    var initHash := Hash(b, 64, data, hash);
    ghost var _ := DigestLong1024(b, memory, at, initHash + Le32(0) + Le32(0), hash);
    ghost var middle := memory[..];
    ghost var _ := DigestLong1024(b, memory, at + 1024, initHash + Le32(1) + Le32(0), hash);
    PlacedNext(start, at, FirstBlock(hash, password, salt, 0), middle, at + 1024, FirstBlock(hash, password, salt, 1),
               memory[..]);
  }
}
