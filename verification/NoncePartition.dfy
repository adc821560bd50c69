/**
 How the 64-bit nonces are divided between the pool and the miner: the extranonce messages
 (src/stratum.rs, set_extranonce), the masked nonce (src/pow.rs, apply_extranonce, and the job
 kernel) and the counters of the workers (src/miner.rs). Machine arithmetic is that of a release
 build: additions wrap around and the distance of a shift is taken modulo 64.
 */
module NoncePartition {
  import opened Bits
  import opened Hex
  import opened Options

  // ------------------------------------------------------------ the text of an extranonce

  function TrimStart0x(text: string): string {
    if |text| >= 2 && text[..2] == "0x" then TrimStart0x(text[2..]) else text
  }

  /** The marks in front are dropped, all of them, and nothing else. */
  lemma {:induction false} Trimmed(text: string)
    ensures var r := TrimStart0x(text);
            && |r| <= |text| && (|text| - |r|) % 2 == 0 && text[|text| - |r|..] == r
            && (forall i: nat | i < |text| - |r| :: text[i] == if i % 2 == 0 then '0' else 'x')
            && !(|r| >= 2 && r[0] == '0' && r[1] == 'x')
  {
    if |text| >= 2 && text[..2] == "0x" {
      Trimmed(text[2..]);
      var r := TrimStart0x(text);
      assert text[0] == text[..2][0] && text[1] == text[..2][1];
      forall i: nat | i < |text| - |r| ensures text[i] == if i % 2 == 0 then '0' else 'x' {
        if i >= 2 { assert text[i] == text[2..][i - 2]; }
      }
    } else if |text| >= 2 {
      assert text[..2] == [text[0], text[1]];
    }
  }

  // ------------------------------------------------------------ the configuration

  /** The bits of a nonce that the miner chooses, and the ones that the pool has fixed. */
  datatype Partition = Partition(mask: nat, fixed: nat) {
    /** The lowest f bits are free, the others fixed. */
    ghost predicate Splits(f: nat) { f <= 64 && mask == Pow2(f) - 1 && fixed % Pow2(f) == 0 && fixed < U64 }

    ghost predicate InWords() { mask < U64 && fixed < U64 }

    /** apply_extranonce */
    function Apply(nonce: nat): nat { Or(And(nonce, mask), fixed) }
  }

  /** The bits of the text and the free bits, in 32 bits. */
  function TotalBits(text: string, freeBits: nat): nat { (|text| % TWO32 * 4 % TWO32 + freeBits) % TWO32 }

  lemma TotalBitsOfShortText(text: string, freeBits: nat)
    requires 4 * |text| + freeBits < TWO32
    ensures TotalBits(text, freeBits) == 4 * |text| + freeBits
  {
  }

  /** What set_extranonce makes of a message, or None if it rejects it. */
  function Configured(extranonce: string, nonceSize: nat): Option<Partition> {
    var freeBits := nonceSize * 8;
    var text := TrimStart0x(extranonce);
    var fixed := if text == "" then Some(0) else FromStrRadix16(text, U64);
    if freeBits >= TWO32 || freeBits > 64 || fixed.None? || TotalBits(text, freeBits) > 64 then None
    else Some(Partition(Pow2(freeBits) - 1, Shl64(fixed.value, freeBits)))
  }

  /** U64 is a multiple of 2^f. */
  lemma WordIsMultiple(f: nat) returns (q: nat)
    requires f <= 64
    ensures U64 == q * Pow2(f) && q == Pow2(64 - f)
  {
    q := Pow2(64 - f);
    Pow2Sum(64 - f, f);
    Pow2Of64();
  }

  lemma Scale(a: nat, b: nat, m: nat)
    requires a < b && m > 0
    ensures a * m < b * m
  {
    AtLeast(m, b - a);
    assert m * (b - a) == b * m - a * m;
  }

  lemma MultipleModulo(a: nat, m: nat, q: nat, n: nat)
    requires m > 0 && q > 0 && n == q * m
    ensures n > 0 && a * m % n == a % q * m
    ensures a % q * m % m == 0
  {
    PositiveProduct(q, m);
    var k, r := Divide(a, q);
    Distribute(q, k, r, m);
    Scale(r, q, m);
    Remainder(a * m, n, k, r * m);
    Remainder(r * m, m, r, 0);
  }

  lemma PrefixOfWord(value: nat, m: nat, q: nat, n: nat) returns (shifted: nat)
    requires m > 0 && q > 0 && n == q * m
    ensures n > 0 && shifted == value * m % n && shifted < n && shifted % m == 0
    ensures value < q ==> shifted == value * m
  {
    MultipleModulo(value, m, q, n);
    shifted := value * m % n;
    if value < q {
      Remainder(value, q, 0, value);
    }
  }

  /** A shift by less than 64 leaves a multiple of 2^f below 2^64; it loses no bits if the value has at most 64 - f. */
  lemma ShiftedPrefix(value: nat, f: nat)
    requires f < 64
    ensures Shl64(value, f) % Pow2(f) == 0 && Shl64(value, f) < U64
    ensures value < Pow2(64 - f) ==> Shl64(value, f) == value * Pow2(f)
  {
    var q := WordIsMultiple(f);
    var shifted := PrefixOfWord(value, Pow2(f), q, U64);
    assert f % 64 == f;
  }

  /** The whole nonce is declared free, and the text nevertheless has a value other than zero. */
  predicate WholeNonceFixed(extranonce: string, nonceSize: nat) {
    var text := TrimStart0x(extranonce);
    nonceSize == 8 && text != "" && FromStrRadix16(text, U64) != Some(0)
  }

  /**
   An accepted message divides the nonces properly, except if the whole nonce is declared free and yet
   fixed to something.
   */
  lemma AcceptedSplitsIff(extranonce: string, nonceSize: nat)
    requires Configured(extranonce, nonceSize).Some?
    ensures nonceSize <= 8
    ensures Configured(extranonce, nonceSize).value.Splits(8 * nonceSize) <==> !WholeNonceFixed(extranonce, nonceSize)
  {
    var f := 8 * nonceSize;
    var text := TrimStart0x(extranonce);
    var fixed := if text == "" then Some(0) else FromStrRadix16(text, U64);
    var p := Configured(extranonce, nonceSize).value;
    if nonceSize < 8 {
      ShiftedPrefix(fixed.value, f);
    } else {
      Pow2Of64();
      assert Pow2(0) == 1;
      assert p.fixed == fixed.value;
      if fixed.value > 0 {
        Remainder(fixed.value, U64, 0, fixed.value);
      }
    }
  }

  /** An accepted text fits above the free bits exactly if their number does not wrap around in 32 bits. */
  lemma AcceptedFitsIff(extranonce: string, nonceSize: nat)
    requires Configured(extranonce, nonceSize).Some?
    ensures var text, f := TrimStart0x(extranonce), 8 * nonceSize;
            4 * |text| + f <= 64 <==> 4 * |text| + f < TWO32
  {
    var text, f := TrimStart0x(extranonce), 8 * nonceSize;
    if 4 * |text| + f < TWO32 {
      TotalBitsOfShortText(text, f);
    }
  }

  /** A text that fits is put above the free bits, and none of it is lost. */
  lemma AcceptedPrefix(extranonce: string, nonceSize: nat)
    requires Configured(extranonce, nonceSize).Some? && 4 * |TrimStart0x(extranonce)| + 8 * nonceSize < TWO32
    ensures var text, p, f := TrimStart0x(extranonce), Configured(extranonce, nonceSize).value, 8 * nonceSize;
            && 4 * |text| + f <= 64 && p.Splits(f)
            && p.fixed == (if text == "" then 0 else FromStrRadix16(text, U64).value) * Pow2(f)
  {
    var f := 8 * nonceSize;
    var text := TrimStart0x(extranonce);
    AcceptedFitsIff(extranonce, nonceSize);
    AcceptedSplitsIff(extranonce, nonceSize);
    if nonceSize < 8 {
      var value := if text == "" then 0 else FromStrRadix16(text, U64).value;
      assert value < Pow2(4 * |text|);
      FittingPrefix(value, 4 * |text|, f);
    } else {
      assert text == "";
    }
  }

  lemma FittingPrefix(value: nat, bits: nat, f: nat)
    requires f < 64 && bits + f <= 64 && value < Pow2(bits)
    ensures Shl64(value, f) == value * Pow2(f)
  {
    Pow2Grows(bits, 64 - f);
    ShiftedPrefix(value, f);
  }

  /** Beyond that the check of the lengths can be passed by a text that is far too long: here one of 2^30 - 2 zeros. */
  lemma LongTextPassesTheCheck()
    ensures var text := Zeros(0x3fff_fffe);
            Configured(text, 1).Some? && 4 * |TrimStart0x(text)| + 8 > 64
  {
    var text := Zeros(0x3fff_fffe);
    ZerosAreZero(0x3fff_fffe);
    assert text[0] == '0' && text[1] == '0';
    assert TrimStart0x(text) == text by { assert text[..2][1] == '0'; }
  }

  /** A text of 2^30 digits with the value one is accepted beside 64 free bits, and does not divide the nonces. */
  lemma LongTextBreaksTheDivision()
    ensures var text := Zeros(0x3fff_ffff) + "1";
            Configured(text, 8).Some? && !Configured(text, 8).value.Splits(64)
  {
    var n := 0x3fff_ffff;
    var text := Zeros(n) + "1";
    assert FromStrRadix16(text, U64) == Some(1) by {
      ZerosAreZero(n);
      assert text[..|text| - 1] == Zeros(n) && text[0] == '0';
    }
    assert TrimStart0x(text) == text by { assert text[..2][1] == '0'; }
    AcceptedSplitsIff(text, 8);
  }

  /** Only the number of bits in the mask can be the number of free bits. */
  lemma MaskDetermines(p: Partition, f: nat)
    requires p.mask == Pow2(f) - 1
    ensures (exists f': nat :: p.Splits(f')) <==> p.Splits(f)
  {
    forall f': nat | p.Splits(f') ensures f' == f {
      if f < f' { Pow2Grows(f + 1, f'); } else if f' < f { Pow2Grows(f' + 1, f); }
    }
  }

  class StratumHandler {
    var nonceMask: nat
    var nonceFixed: nat

    function Current(): Partition
      reads this
    {
      Partition(nonceMask, nonceFixed)
    }

    ghost predicate Valid()
      reads this
    {
      exists f: nat :: Current().Splits(f)
    }

    constructor ()
      ensures Current() == Partition(U64 - 1, 0) && Valid()
    {
      nonceMask, nonceFixed := U64 - 1, 0;
      new;
      Pow2Of64();
      assert Current().Splits(64);
    }

    method SetExtranonce(extranonce: string, nonceSize: nat) returns (ok: bool)
      requires nonceSize < TWO32
      modifies this
      ensures ok <==> Configured(extranonce, nonceSize).Some?
      ensures Current() == if ok then Configured(extranonce, nonceSize).value else old(Current())
      ensures ok ==> (Current().Splits(8 * nonceSize) <==> !WholeNonceFixed(extranonce, nonceSize))
      ensures Valid() <==> if ok then !WholeNonceFixed(extranonce, nonceSize) else old(Valid())
    {
      var freeBits := nonceSize * 8;
      if freeBits >= TWO32 || freeBits > 64 { return false; }
      var text := TrimStart0x(extranonce);
      var fixed := 0;
      if text != "" {
        var parsed := FromStrRadix16(text, U64);
        if parsed.None? { return false; }
        fixed := parsed.value;
      }
      if TotalBits(text, freeBits) > 64 { return false; }
      Pow2Of64();
      nonceMask := if freeBits == 64 then U64 - 1 else Pow2(freeBits) - 1;
      nonceFixed := Shl64(fixed, freeBits);
      ok := true;
      assert Current() == Configured(extranonce, nonceSize).value;
      AcceptedSplitsIff(extranonce, nonceSize);
      MaskDetermines(Current(), 8 * nonceSize);
    }
  }

  // ------------------------------------------------------------ the nonces of a job

  /** The nonce for a raw counter value when the lowest f bits are free. */
  function Nonce(fixed: nat, f: nat, raw: nat): nat { fixed + raw % Pow2(f) }

  /** Masking and setting bits is taking the free bits of the counter above the fixed prefix. */
  lemma ApplyIsNonce(p: Partition, f: nat, raw: nat)
    requires p.Splits(f)
    ensures p.Apply(raw) == Nonce(p.fixed, f, raw)
  {
    AndMask(raw, f);
    var m := Pow2(f);
    var hi := p.fixed / m;
    assert p.fixed == hi * m by { assert p.fixed == m * hi + p.fixed % m; }
    OrAbove(raw % m, hi, f);
  }

  /** Whatever mask and fixed bits are, a masked word is a word. */
  lemma ApplyIsWord(p: Partition, raw: nat)
    requires p.InWords() && raw < U64
    ensures p.Apply(raw) < U64
  {
    Pow2Of64();
    ZipBound((x: bool, y: bool) => x && y, raw, p.mask, 64);
    ZipBound((x: bool, y: bool) => x || y, And(raw, p.mask), p.fixed, 64);
  }

  lemma ModuloOfWord(a: nat, f: nat)
    requires f <= 64
    ensures a % U64 % Pow2(f) == a % Pow2(f)
  {
    var q := WordIsMultiple(f);
    ModuloOfMultiple(a, Pow2(f), q, U64);
  }

  /** The nonces for n raw values from start on. */
  function Stream(fixed: nat, f: nat, start: nat, n: nat): (r: seq<nat>)
    ensures |r| == n && forall i | 0 <= i < n :: r[i] == Nonce(fixed, f, start + i)
  {
    seq<nat>(n, i requires 0 <= i < n => Nonce(fixed, f, start + i))
  }

  lemma StreamStep(fixed: nat, f: nat, start: nat, n: nat)
    ensures Stream(fixed, f, start, n) + [Nonce(fixed, f, start + n)] == Stream(fixed, f, start, n + 1)
  {
  }

  lemma JobNonce(p: Partition, f: nat, raw: nat)
    requires p.Splits(f)
    ensures p.Apply(raw % U64) == Nonce(p.fixed, f, raw)
  {
    ApplyIsNonce(p, f, raw % U64);
    ModuloOfWord(raw, f);
  }

  /** A stream goes on after the counter has wrapped around. */
  lemma StreamGoesOn(fixed: nat, f: nat, start: nat, n: nat, more: nat)
    requires f <= 64
    ensures Stream(fixed, f, start, n) + Stream(fixed, f, (start + n) % U64, more) == Stream(fixed, f, start, n + more)
  {
    hide Nonce;
    var left := Stream(fixed, f, start, n) + Stream(fixed, f, (start + n) % U64, more);
    var right := Stream(fixed, f, start, n + more);
    forall i | 0 <= i < n + more ensures left[i] == right[i] {
      if i >= n {
        SameNonce(fixed, f, start + n, i - n);
        assert start + n + (i - n) == start + i;
      }
    }
  }

  lemma SameNonce(fixed: nat, f: nat, a: nat, i: nat)
    requires f <= 64
    ensures Nonce(fixed, f, a % U64 + i) == Nonce(fixed, f, a + i)
  {
    AfterBatch(a, i);
    ModuloOfWord(a % U64 + i, f);
    ModuloOfWord(a + i, f);
  }

  lemma AfterBatch(a: nat, size: nat)
    ensures (a % U64 + size) % U64 == (a + size) % U64
  {
  }

  /** The counter of a worker: it starts anywhere and wraps around. */
  class Worker {
    var nonce: nat

    /** One batch of the job kernel: job i of the batch gets the masked nonce base + i. */
    method Batch(p: Partition, size: nat, ghost f: nat) returns (nonces: seq<nat>)
      requires nonce < U64 && p.Splits(f)
      modifies this
      ensures nonce == (old(nonce) + size) % U64
      ensures nonces == Stream(p.fixed, f, old(nonce), size)
    {
      nonces := [];
      for i: nat := 0 to size
        invariant nonce == old(nonce) && nonces == Stream(p.fixed, f, nonce, i)
      {
        JobNonce(p, f, nonce + i);
        StreamStep(p.fixed, f, nonce, i);
        nonces := nonces + [p.Apply((nonce + i) % U64)];
      }
      nonce := (nonce + size) % U64;
    }

    /** All batches of a job, one after the other. */
    method Batches(p: Partition, sizes: seq<nat>, ghost f: nat) returns (nonces: seq<nat>)
      requires nonce < U64 && p.Splits(f)
      modifies this
      ensures nonce < U64 && nonces == Stream(p.fixed, f, old(nonce), Total(sizes))
    {
      nonces := [];
      assert sizes[..0] == [];
      ghost var done := 0;
      for k: nat := 0 to |sizes|
        invariant nonce < U64 && nonce == (old(nonce) + done) % U64 && done == Total(sizes[..k])
        invariant nonces == Stream(p.fixed, f, old(nonce), done)
      {
        StreamGoesOn(p.fixed, f, old(nonce), done, sizes[k]);
        AfterBatch(old(nonce) + done, sizes[k]);
        var batch := Batch(p, sizes[k], f);
        nonces := nonces + batch;
        done := done + sizes[k];
        assert sizes[..k + 1][..k] == sizes[..k];
      }
      assert sizes[..|sizes|] == sizes;
    }
  }

  function Total(sizes: seq<nat>): nat {
    if sizes == [] then 0 else Total(sizes[..|sizes| - 1]) + sizes[|sizes| - 1]
  }

  /**
   Two nonces of a job are equal exactly if their positions differ by a multiple of 2^f: none repeats before 2^f are
   used up.
   */
  lemma RepeatsIff(fixed: nat, f: nat, start: nat, i: nat, j: nat)
    requires i <= j
    ensures Nonce(fixed, f, start + i) == Nonce(fixed, f, start + j) <==> (j - i) % Pow2(f) == 0
    ensures i < j < i + Pow2(f) ==> Nonce(fixed, f, start + i) != Nonce(fixed, f, start + j)
  {
    SameRemainder(start + i, start + j, Pow2(f));
  }

  /** The nonces of one partition are those from its prefix on, 2^f of them, and those of another prefix are others. */
  lemma PartitionsAreDisjoint(p: Partition, p': Partition, f: nat, raw: nat, raw': nat)
    requires p.Splits(f) && p'.Splits(f)
    ensures p.fixed <= p.Apply(raw) < p.fixed + Pow2(f)
    ensures p.fixed != p'.fixed ==> p.Apply(raw) != p'.Apply(raw')
    ensures p.Apply(raw) < U64
  {
    ApplyIsNonce(p, f, raw);
    ApplyIsNonce(p', f, raw');
    var m := Pow2(f);
    var q := WordIsMultiple(f);
    var j, _ := Divide(p.fixed, m);
    var k, _ := Divide(p'.fixed, m);
    var _, s := Divide(raw, m);
    var _, t := Divide(raw', m);
    BlocksAreDisjoint(p.fixed, p'.fixed, s, t, m, j, k, q, U64);
  }

  /** Multiples of m below n, and what lies less than m above them. */
  lemma BlocksAreDisjoint(a: int, b: int, s: int, t: int, m: int, j: int, k: int, q: int, n: int)
    requires 0 <= s < m && 0 <= t < m && a == m * j && b == m * k && n == q * m && a < n
    ensures a != b ==> a + s != b + t
    ensures a + s < n
  {
    Minus(m, j, k);
    if a + s == b + t {
      SmallMultiple(m, j - k, t - s);
    }
    Minus(m, q, j);
    AtLeast(m, q - j);
  }
}
