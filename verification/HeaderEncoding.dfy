/**
 The bytes of a block header that are hashed (src/pow.rs, serialize_header and decode_to_slice), and
 a parser that reads them back. Strings are sequences of bytes, as decode_to_slice sees them.
 */
module HeaderEncoding {
  import opened Bits
  import opened Hex
  import opened LittleEndian
  import opened Options

  // ------------------------------------------------------------ hexadecimal digits

  datatype FromHexError = OddLength | InvalidStringLength | InvalidHexCharacter(c: char, index: nat)

  datatype HexResult = Ok | Err(error: FromHexError)

  predicate AllHex(text: string) { forall i | 0 <= i < |text| :: Digit(text[i]).Some? }

  /** The bytes that an even number of digits stands for. */
  function HexBytes(text: string): (r: seq<Byte>)
    requires |text| % 2 == 0 && AllHex(text)
    ensures |r| == |text| / 2
  {
    seq<Byte>(|text| / 2,
              i requires 0 <= i < |text| / 2 => 16 * Digit(text[2 * i]).value + Digit(text[2 * i + 1]).value)
  }

  /** The text of some bytes: two digits for each, the upper half first. */
  function HexText(bytes: seq<Byte>): (text: string)
    ensures |text| == 2 * |bytes|
  {
    seq(2 * |bytes|, k requires 0 <= k < 2 * |bytes| =>
      LOWER[if k % 2 == 0 then bytes[k / 2] / 16 else bytes[k / 2] % 16])
  }

  lemma HexRoundTrip(bytes: seq<Byte>)
    ensures AllHex(HexText(bytes)) && HexBytes(HexText(bytes)) == bytes
  {
    hide Digit;
    var text := HexText(bytes);
    forall k: nat | k < |text| ensures Digit(text[k])
      == Some(if k % 2 == 0 then bytes[k / 2] / 16 else bytes[k / 2] % 16)
    {
      DigitIff(text[k], if k % 2 == 0 then bytes[k / 2] / 16 else bytes[k / 2] % 16);
    }
    forall i: nat | i < |bytes| ensures HexBytes(text)[i] == bytes[i] {
      assert Digit(text[2 * i]) == Some(bytes[i] / 16) && Digit(text[2 * i + 1]) == Some(bytes[i] % 16);
    }
  }

  /** What decode_to_slice answers for a text and a slice of n bytes. */
  ghost predicate Decides(text: string, n: nat, r: HexResult) {
    if |text| % 2 != 0 then r == Err(OddLength)
    else if |text| / 2 != n then r == Err(InvalidStringLength)
    else if AllHex(text) then r == Ok
    else
      && r.Err? && r.error.InvalidHexCharacter? && r.error.index < |text| && r.error.c == text[r.error.index]
      && Digit(r.error.c).None? && forall i | 0 <= i < r.error.index :: Digit(text[i]).Some?
  }

  /** decode_to_slice into the first n bytes of a buffer; it leaves the other bytes alone. */
  method DecodeToSlice(text: string, out: array<Byte>, n: nat) returns (r: HexResult)
    requires n <= out.Length
    modifies out
    ensures Decides(text, n, r)
    ensures r.Ok? ==> |text| == 2 * n && AllHex(text) && out[..n] == HexBytes(text)
    ensures forall k | n <= k < out.Length :: out[k] == old(out[k])
  {
    if |text| % 2 != 0 { return Err(OddLength); }
    if |text| / 2 != n { return Err(InvalidStringLength); }
    for i: nat := 0 to n
      invariant forall k: nat | k < 2 * i :: Digit(text[k]).Some?
      invariant forall k: nat | k < i :: out[k] == 16 * Digit(text[2 * k]).value + Digit(text[2 * k + 1]).value
      invariant forall k | n <= k < out.Length :: out[k] == old(out[k])
    {
      var upper := Digit(text[2 * i]);
      if upper.None? { return Err(InvalidHexCharacter(text[2 * i], 2 * i)); }
      var lower := Digit(text[2 * i + 1]);
      if lower.None? { return Err(InvalidHexCharacter(text[2 * i + 1], 2 * i + 1)); }
      HalvesPack(upper.value, lower.value);
      out[i] := Or(upper.value * 16, lower.value);
    }
    r := Ok;
  }

  // ------------------------------------------------------------ headers

  /** A header as it comes from the node; integers have the widths of the protocol. */
  datatype RpcHeader = RpcHeader(
    version: nat, parents: seq<seq<string>>, hashMerkleRoot: string, acceptedIdMerkleRoot: string,
    utxoCommitment: string, timestamp: int, bits: nat, nonce: nat, daaScore: nat, blueWork: string,
    pruningPoint: string, blueScore: nat)
  {
    predicate InRange() {
      version < 0x1_0000_0000 && -0x8000_0000_0000_0000 <= timestamp < 0x8000_0000_0000_0000 && bits < 0x1_0000_0000
      && nonce < U64 && daaScore < U64 && blueScore < U64
      && |parents| < U64 && forall i | 0 <= i < |parents| :: |parents[i]| < U64
    }
  }

  /** A header with its texts decoded. */
  datatype Header = Header(
    version: nat, parents: seq<seq<seq<Byte>>>, hashMerkleRoot: seq<Byte>, acceptedIdMerkleRoot: seq<Byte>,
    utxoCommitment: seq<Byte>, timestamp: Word, bits: nat, nonce: Word, daaScore: Word, blueScore: Word,
    blueWork: seq<Byte>, pruningPoint: seq<Byte>)
  {
    predicate Valid() {
      && version < 0x1_0000 && bits < 0x1_0000_0000 && |parents| < U64
      && (forall i | 0 <= i < |parents| :: LevelIsValid(parents[i]))
      && |hashMerkleRoot| == |acceptedIdMerkleRoot| == |utxoCommitment| == |pruningPoint| == 32 && |blueWork| <= 32
    }
  }

  predicate LevelIsValid(level: seq<seq<Byte>>) { |level| < U64 && forall j | 0 <= j < |level| :: |level[j]| == 32 }

  predicate IsHash(text: string) { |text| == 64 && AllHex(text) }

  predicate LevelIsHex(level: seq<string>) { forall j | 0 <= j < |level| :: IsHash(level[j]) }

  /** The text of the blue work with an even number of digits. */
  function Padded(text: string): string { if |text| % 2 == 0 then text else "0" + text }

  /** The headers on which serialize_header does not panic. */
  predicate Serializable(h: RpcHeader) {
    h.version < 0x1_0000 && FrontIsHex(h) && BackIsHex(h)
  }

  predicate FrontIsHex(h: RpcHeader) {
    && (forall i | 0 <= i < |h.parents| :: LevelIsHex(h.parents[i]))
    && IsHash(h.hashMerkleRoot) && IsHash(h.acceptedIdMerkleRoot) && IsHash(h.utxoCommitment)
  }

  predicate BackIsHex(h: RpcHeader) { |h.blueWork| <= 64 && AllHex(h.blueWork) && IsHash(h.pruningPoint) }

  function DecodedLevel(level: seq<string>): (r: seq<seq<Byte>>)
    requires LevelIsHex(level)
    ensures |r| == |level| && forall j | 0 <= j < |r| :: |r[j]| == 32
  {
    seq<seq<Byte>>(|level|, j requires 0 <= j < |level| && IsHash(level[j]) => HexBytes(level[j]))
  }

  function DecodedLevels(parents: seq<seq<string>>): (r: seq<seq<seq<Byte>>>)
    requires forall i | 0 <= i < |parents| :: LevelIsHex(parents[i])
    ensures |r| == |parents| && forall i | 0 <= i < |r| :: r[i] == DecodedLevel(parents[i])
  {
    seq<seq<seq<Byte>>>(|parents|, i requires 0 <= i < |parents| && LevelIsHex(parents[i]) => DecodedLevel(parents[i]))
  }

  lemma PaddedIsHex(text: string)
    ensures AllHex(Padded(text)) <==> AllHex(text)
  {
    if |text| % 2 != 0 {
      assert forall i | 0 <= i < |text| :: ("0" + text)[i + 1] == text[i];
    }
  }

  /** An odd number of digits gets a zero in front, which does not change the number. */
  lemma PaddedNumber(text: string)
    ensures |Padded(text)| % 2 == 0 && Digits(Padded(text)) == Digits(text)
  {
    hide Digits;
    if |text| % 2 != 0 {
      ZeroInFront(text);
    }
  }

  lemma {:induction false} ZeroInFront(text: string)
    ensures Digits("0" + text) == Digits(text)
  {
    if text == "" {
      assert Digits("0"[..0]) == Some(0);
    } else {
      var all := "0" + text;
      assert all[..|all| - 1] == "0" + text[..|text| - 1];
      ZeroInFront(text[..|text| - 1]);
    }
  }

  lemma TwosComplement(t: int)
    requires -0x8000_0000_0000_0000 <= t < 0x8000_0000_0000_0000
    ensures Unsigned(t) == t % U64
  {
  }

  /** i64::to_le_bytes writes two's complement. */
  function Unsigned(t: int): Word
    requires -0x8000_0000_0000_0000 <= t < 0x8000_0000_0000_0000
  {
    if t < 0 then t + U64 else t
  }

  function Decoded(h: RpcHeader, forPrePow: bool): (r: Header)
    requires h.InRange() && Serializable(h)
    ensures r.Valid()
  {
    PaddedIsHex(h.blueWork);
    Header(h.version,
           DecodedLevels(h.parents),
           HexBytes(h.hashMerkleRoot), HexBytes(h.acceptedIdMerkleRoot), HexBytes(h.utxoCommitment),
           if forPrePow then 0 else Unsigned(h.timestamp), h.bits,
           if forPrePow then 0 else h.nonce, h.daaScore, h.blueScore,
           HexBytes(Padded(h.blueWork)), HexBytes(h.pruningPoint))
  }

  // ------------------------------------------------------------ the encoding, back to front

  function Concat(hashes: seq<seq<Byte>>): seq<Byte> { if hashes == [] then [] else hashes[0] + Concat(hashes[1..]) }

  function EncodeLevel(level: seq<seq<Byte>>): seq<Byte> { ToLe(|level|, 8) + Concat(level) }

  function EncodeLevels(parents: seq<seq<seq<Byte>>>): seq<Byte> {
    if parents == [] then [] else EncodeLevel(parents[0]) + EncodeLevels(parents[1..])
  }

  function EncodeRoots(h: Header): seq<Byte> { h.hashMerkleRoot + (h.acceptedIdMerkleRoot + h.utxoCommitment) }

  function EncodeNumbers(h: Header): seq<Byte> {
    ToLe(h.timestamp, 8) + (ToLe(h.bits, 4) + (ToLe(h.nonce, 8) + (ToLe(h.daaScore, 8) + ToLe(h.blueScore, 8))))
  }

  function EncodeEnd(h: Header): seq<Byte> { ToLe(|h.blueWork|, 8) + (h.blueWork + h.pruningPoint) }

  function EncodeStart(h: Header): seq<Byte> { ToLe(h.version, 2) + ToLe(|h.parents|, 8) }

  function Encode(h: Header): seq<Byte> {
    EncodeStart(h) + (EncodeLevels(h.parents) + (EncodeRoots(h) + (EncodeNumbers(h) + EncodeEnd(h))))
  }

  // ------------------------------------------------------------ the parser

  /** A value and the bytes behind it. */
  datatype Parsed<T> = Failure | Success(value: T, rest: seq<Byte>)

  function TakeBytes(s: seq<Byte>, n: nat): Parsed<seq<Byte>> { if n <= |s| then Success(s[..n], s[n..]) else Failure }

  function TakeNumber(s: seq<Byte>, n: nat): Parsed<nat> {
    if n <= |s| then Success(FromLe(s[..n]), s[n..]) else Failure
  }

  function TakeHashes(s: seq<Byte>, count: nat): Parsed<seq<seq<Byte>>> {
    if count == 0 then Success([], s)
    else
      match TakeBytes(s, 32)
      case Failure => Failure
      case Success(hash, rest) =>
        match TakeHashes(rest, count - 1)
        case Failure => Failure
        case Success(hashes, rest') => Success([hash] + hashes, rest')
  }

  function TakeLevel(s: seq<Byte>): Parsed<seq<seq<Byte>>> {
    match TakeNumber(s, 8)
    case Failure => Failure
    case Success(count, rest) => TakeHashes(rest, count)
  }

  function TakeLevels(s: seq<Byte>, count: nat): Parsed<seq<seq<seq<Byte>>>>
    decreases count
  {
    if count == 0 then Success([], s)
    else
      match TakeLevel(s)
      case Failure => Failure
      case Success(level, rest) =>
        match TakeLevels(rest, count - 1)
        case Failure => Failure
        case Success(levels, rest') => Success([level] + levels, rest')
  }

  datatype Numbers = Numbers(timestamp: nat, bits: nat, nonce: nat, daaScore: nat, blueScore: nat)

  function TakeNumbers(s: seq<Byte>): Parsed<Numbers> {
    if |s| < 36 then Failure
    else Success(Numbers(FromLe(s[..8]), FromLe(s[8..12]), FromLe(s[12..20]), FromLe(s[20..28]), FromLe(s[28..36])),
                 s[36..])
  }

  function TakeEnd(s: seq<Byte>): Option<(seq<Byte>, seq<Byte>)> {
    match TakeNumber(s, 8)
    case Failure => None
    case Success(n, rest) => if |rest| == n + 32 then Some((rest[..n], rest[n..])) else None
  }

  /** The fields behind the parents. */
  function ParseTail(version: nat, parents: seq<seq<seq<Byte>>>, s: seq<Byte>): Option<Header> {
    if |s| < 96 then None
    else
      match TakeNumbers(s[96..])
      case Failure => None
      case Success(x, rest) =>
        match TakeEnd(rest)
        case None => None
        case Some((blueWork, pruningPoint)) =>
          if x.timestamp < U64 && x.nonce < U64 && x.daaScore < U64 && x.blueScore < U64 then
            Some(Header(version, parents, s[..32], s[32..64], s[64..96],
                        x.timestamp, x.bits, x.nonce, x.daaScore, x.blueScore, blueWork, pruningPoint))
          else None
  }

  function Parse(s: seq<Byte>): Option<Header> {
    if |s| < 10 then None
    else
      match TakeLevels(s[10..], FromLe(s[2..10]))
      case Failure => None
      case Success(parents, rest) => ParseTail(FromLe(s[..2]), parents, rest)
  }

  lemma NumberRoundTrip(w: nat, n: nat, rest: seq<Byte>)
    requires w < Pow2(8 * n)
    ensures TakeNumber(ToLe(w, n) + rest, n) == Success(w, rest)
  {
    FromToLe(w, n);
    assert (ToLe(w, n) + rest)[..n] == ToLe(w, n) && (ToLe(w, n) + rest)[n..] == rest;
  }

  lemma {:induction false} HashesRoundTrip(hashes: seq<seq<Byte>>, rest: seq<Byte>)
    requires forall j | 0 <= j < |hashes| :: |hashes[j]| == 32
    ensures TakeHashes(Concat(hashes) + rest, |hashes|) == Success(hashes, rest)
  {
    if hashes == [] {
      assert Concat(hashes) + rest == rest;
    } else {
      var tail := Concat(hashes[1..]) + rest;
      assert Concat(hashes) + rest == hashes[0] + tail;
      assert (hashes[0] + tail)[..32] == hashes[0] && (hashes[0] + tail)[32..] == tail;
      HashesRoundTrip(hashes[1..], rest);
      assert [hashes[0]] + hashes[1..] == hashes;
    }
  }

  lemma LevelRoundTrip(level: seq<seq<Byte>>, rest: seq<Byte>)
    requires LevelIsValid(level)
    ensures TakeLevel(EncodeLevel(level) + rest) == Success(level, rest)
  {
    Pow2Of64();
    NumberRoundTrip(|level|, 8, Concat(level) + rest);
    assert EncodeLevel(level) + rest == ToLe(|level|, 8) + (Concat(level) + rest);
    HashesRoundTrip(level, rest);
  }

  lemma {:induction false} LevelsRoundTrip(parents: seq<seq<seq<Byte>>>, rest: seq<Byte>)
    requires forall i | 0 <= i < |parents| :: LevelIsValid(parents[i])
    ensures TakeLevels(EncodeLevels(parents) + rest, |parents|) == Success(parents, rest)
  {
    if parents == [] {
      assert EncodeLevels(parents) + rest == rest;
    } else {
      var tail := EncodeLevels(parents[1..]) + rest;
      assert EncodeLevels(parents) + rest == EncodeLevel(parents[0]) + tail;
      LevelRoundTrip(parents[0], tail);
      LevelsRoundTrip(parents[1..], rest);
      assert [parents[0]] + parents[1..] == parents;
    }
  }

  lemma NumbersRoundTrip(h: Header, rest: seq<Byte>)
    requires h.bits < 0x1_0000_0000
    ensures TakeNumbers(EncodeNumbers(h) + rest)
      == Success(Numbers(h.timestamp, h.bits, h.nonce, h.daaScore, h.blueScore), rest)
  {
    var s := EncodeNumbers(h) + rest;
    assert s[..8] == ToLe(h.timestamp, 8) && s[8..12] == ToLe(h.bits, 4) && s[12..20] == ToLe(h.nonce, 8);
    assert s[20..28] == ToLe(h.daaScore, 8) && s[28..36] == ToLe(h.blueScore, 8) && s[36..] == rest;
    Pow2Of64();
    Pow2Of32();
    FromToLe(h.timestamp, 8);
    FromToLe(h.bits, 4);
    FromToLe(h.nonce, 8);
    FromToLe(h.daaScore, 8);
    FromToLe(h.blueScore, 8);
  }

  lemma Pow2Of32()
    ensures Pow2(16) == 0x1_0000 && Pow2(32) == 0x1_0000_0000
  {
    assert Pow2(8) == 256;
    Pow2Sum(8, 8);
    Pow2Sum(16, 16);
  }

  lemma EndRoundTrip(h: Header)
    requires |h.blueWork| <= 32 && |h.pruningPoint| == 32
    ensures TakeEnd(EncodeEnd(h)) == Some((h.blueWork, h.pruningPoint))
  {
    var rest := h.blueWork + h.pruningPoint;
    Pow2Of64();
    NumberRoundTrip(|h.blueWork|, 8, rest);
    assert rest[..|h.blueWork|] == h.blueWork && rest[|h.blueWork|..] == h.pruningPoint;
  }

  lemma RootsAreThere(h: Header, rest: seq<Byte>)
    requires |h.hashMerkleRoot| == |h.acceptedIdMerkleRoot| == |h.utxoCommitment| == 32
    ensures var s := EncodeRoots(h) + rest;
            |s| >= 96 && s[..32] == h.hashMerkleRoot && s[32..64] == h.acceptedIdMerkleRoot
              && s[64..96] == h.utxoCommitment
            && s[96..] == rest
  {
  }

  lemma TailRoundTrip(h: Header)
    requires h.Valid()
    ensures ParseTail(h.version, h.parents, EncodeRoots(h) + (EncodeNumbers(h) + EncodeEnd(h))) == Some(h)
  {
    RootsAreThere(h, EncodeNumbers(h) + EncodeEnd(h));
    NumbersRoundTrip(h, EncodeEnd(h));
    EndRoundTrip(h);
  }

  lemma StartRoundTrip(h: Header, rest: seq<Byte>)
    requires h.Valid()
    ensures var s := EncodeStart(h) + rest;
            |s| >= 10 && FromLe(s[..2]) == h.version && FromLe(s[2..10]) == |h.parents| && s[10..] == rest
  {
    var s := EncodeStart(h) + rest;
    assert s[..2] == ToLe(h.version, 2) && s[2..10] == ToLe(|h.parents|, 8) && s[10..] == rest;
    Pow2Of64();
    Pow2Of32();
    FromToLe(h.version, 2);
    FromToLe(|h.parents|, 8);
  }

  /** The parser recovers every header from its encoding. */
  lemma ParseEncode(h: Header)
    requires h.Valid()
    ensures Parse(Encode(h)) == Some(h)
  {
    var tail := EncodeRoots(h) + (EncodeNumbers(h) + EncodeEnd(h));
    StartRoundTrip(h, EncodeLevels(h.parents) + tail);
    LevelsRoundTrip(h.parents, tail);
    TailRoundTrip(h);
  }

  /** Equal bytes come from equal headers. */
  lemma EncodeIsInjective(h: Header, h': Header)
    requires h.Valid() && h'.Valid() && Encode(h) == Encode(h')
    ensures h == h'
  {
    ParseEncode(h);
    ParseEncode(h');
  }

  /**
   Two headers that hash from the same bytes have the same decoded fields; before the proof of work, apart from nonce
   and timestamp.
   */
  lemma SameBytesSameHeader(h: RpcHeader, h': RpcHeader, forPrePow: bool)
    requires h.InRange() && h'.InRange() && Serializable(h) && Serializable(h')
    ensures Encode(Decoded(h, forPrePow)) == Encode(Decoded(h', forPrePow)) <==>
      (if forPrePow
       then Decoded(h.(timestamp := 0, nonce := 0), false) == Decoded(h'.(timestamp := 0, nonce := 0), false)
       else Decoded(h, false) == Decoded(h', false))
  {
    if Encode(Decoded(h, forPrePow)) == Encode(Decoded(h', forPrePow)) {
      EncodeIsInjective(Decoded(h, forPrePow), Decoded(h', forPrePow));
    }
  }

  // ------------------------------------------------------------ the serialiser

  /** What is hashed: update appends. */
  class Hasher {
    var written: seq<Byte>

    constructor ()
      ensures written == []
    {
      written := [];
    }

    method Update(data: seq<Byte>)
      modifies this
      ensures written == old(written) + data
    {
      written := written + data;
    }
  }

  /** Decode a 32-byte hash into the scratch buffer and hash it; false is a panic. */
  method UpdateHash(hasher: Hasher, text: string, hash: array<Byte>) returns (ok: bool)
    requires hash.Length == 32
    modifies hasher, hash
    ensures ok <==> IsHash(text)
    ensures ok ==> hasher.written == old(hasher.written) + HexBytes(text)
  {
    var r := DecodeToSlice(text, hash, 32);
    if r.Err? { return false; }
    assert hash[..] == hash[..32];
    hasher.Update(hash[..]);
    ok := true;
  }

  method UpdateLevel(hasher: Hasher, level: seq<string>, hash: array<Byte>) returns (ok: bool)
    requires hash.Length == 32
    modifies hasher, hash
    ensures ok <==> LevelIsHex(level)
    ensures ok ==> hasher.written == old(hasher.written) + EncodeLevel(DecodedLevel(level))
  {
    hasher.Update(ToLe(|level|, 8));
    ghost var start := hasher.written;
    for j: nat := 0 to |level|
      invariant forall k | 0 <= k < j :: IsHash(level[k])
      invariant hasher.written == start + Concat(DecodedLevel(level[..j]))
    {
      ok := UpdateHash(hasher, level[j], hash);
      if !ok { return false; }
      ConcatOneMore(level, j, start);
    }
    assert level[..|level|] == level;
    ok := true;
  }

  lemma {:induction false} ConcatAppend(hashes: seq<seq<Byte>>, hash: seq<Byte>)
    ensures Concat(hashes + [hash]) == Concat(hashes) + hash
  {
    if hashes == [] {
      assert Concat([hash]) == hash + Concat([hash][1..]);
    } else {
      assert (hashes + [hash])[1..] == hashes[1..] + [hash];
      ConcatAppend(hashes[1..], hash);
    }
  }

  lemma ConcatOneMore(level: seq<string>, j: nat, start: seq<Byte>)
    requires j < |level| && forall k | 0 <= k <= j :: IsHash(level[k])
    ensures start + Concat(DecodedLevel(level[..j + 1])) == start + Concat(DecodedLevel(level[..j])) +
      HexBytes(level[j])
  {
    ConcatAppend(DecodedLevel(level[..j]), HexBytes(level[j]));
    assert DecodedLevel(level[..j + 1]) == DecodedLevel(level[..j]) + [HexBytes(level[j])];
  }

  lemma {:induction false} LevelsAppend(levels: seq<seq<seq<Byte>>>, level: seq<seq<Byte>>)
    ensures EncodeLevels(levels + [level]) == EncodeLevels(levels) + EncodeLevel(level)
  {
    if levels == [] {
      assert EncodeLevels([level]) == EncodeLevel(level) + EncodeLevels([level][1..]);
    } else {
      assert (levels + [level])[1..] == levels[1..] + [level];
      LevelsAppend(levels[1..], level);
    }
  }

  lemma LevelsOneMore(parents: seq<seq<string>>, i: nat, start: seq<Byte>)
    requires i < |parents| && forall k | 0 <= k <= i :: LevelIsHex(parents[k])
    ensures start + EncodeLevels(DecodedLevels(parents[..i + 1]))
         == start + EncodeLevels(DecodedLevels(parents[..i])) + EncodeLevel(DecodedLevel(parents[i]))
  {
    LevelsAppend(DecodedLevels(parents[..i]), DecodedLevel(parents[i]));
    assert DecodedLevels(parents[..i + 1]) == DecodedLevels(parents[..i]) + [DecodedLevel(parents[i])];
  }

  method UpdateLevels(hasher: Hasher, parents: seq<seq<string>>, hash: array<Byte>) returns (ok: bool)
    requires hash.Length == 32
    modifies hasher, hash
    ensures ok <==> forall i | 0 <= i < |parents| :: LevelIsHex(parents[i])
    ensures ok ==> hasher.written == old(hasher.written) + EncodeLevels(DecodedLevels(parents))
  {
    ghost var start := hasher.written;
    for i: nat := 0 to |parents|
      invariant forall k | 0 <= k < i :: LevelIsHex(parents[k])
      invariant hasher.written == start + EncodeLevels(DecodedLevels(parents[..i]))
    {
      ok := UpdateLevel(hasher, parents[i], hash);
      if !ok { return false; }
      LevelsOneMore(parents, i, start);
    }
    assert parents[..|parents|] == parents;
    ok := true;
  }

  /** The blue work goes through the first bytes of the scratch buffer; more than 32 of them are a panic. */
  method UpdateBlueWork(hasher: Hasher, text: string, hash: array<Byte>) returns (ok: bool)
    requires hash.Length == 32
    modifies hasher, hash
    ensures ok <==> |text| <= 64 && AllHex(text)
    ensures ok ==> AllHex(Padded(text))
    ensures ok ==> hasher.written == old(hasher.written) + ToLe(|HexBytes(Padded(text))|, 8) + HexBytes(Padded(text))
  {
    var n := (|text| + 1) / 2;
    if n > 32 { return false; }
    var r;
    if |text| % 2 == 0 {
      r := DecodeToSlice(text, hash, n);
    } else {
      var padded := "0" + text;
      PaddedIsHex(text);
      r := DecodeToSlice(padded, hash, n);
    }
    if r.Err? { return false; }
    hasher.Update(ToLe(n, 8));
    hasher.Update(hash[..n]);
    ok := true;
  }

  ghost function FrontBytes(h: RpcHeader): seq<Byte>
    requires FrontIsHex(h)
  {
    (ToLe(h.version, 2) + ToLe(|h.parents|, 8))
    + (EncodeLevels(DecodedLevels(h.parents))
       + (HexBytes(h.hashMerkleRoot) + (HexBytes(h.acceptedIdMerkleRoot) + HexBytes(h.utxoCommitment))))
  }

  ghost function BackBytes(h: RpcHeader, timestamp: Word, nonce: Word): seq<Byte>
    requires BackIsHex(h) && h.InRange()
  {
    PaddedIsHex(h.blueWork);
    var blueWork := HexBytes(Padded(h.blueWork));
    (ToLe(timestamp, 8) + (ToLe(h.bits, 4) + (ToLe(nonce, 8) + (ToLe(h.daaScore, 8) + ToLe(h.blueScore, 8)))))
    + (ToLe(|blueWork|, 8) + (blueWork + HexBytes(h.pruningPoint)))
  }

  method UpdateFront(hasher: Hasher, h: RpcHeader, hash: array<Byte>) returns (ok: bool)
    requires hash.Length == 32
    modifies hasher, hash
    ensures ok <==> FrontIsHex(h)
    ensures ok ==> hasher.written == old(hasher.written) + FrontBytes(h)
  {
    ghost var start := hasher.written;
    hasher.Update(ToLe(h.version, 2));
    hasher.Update(ToLe(|h.parents|, 8));
    ok := UpdateLevels(hasher, h.parents, hash);
    if !ok { return; }
    ok := UpdateHash(hasher, h.hashMerkleRoot, hash);
    if !ok { return; }
    ok := UpdateHash(hasher, h.acceptedIdMerkleRoot, hash);
    if !ok { return; }
    ok := UpdateHash(hasher, h.utxoCommitment, hash);
    if !ok { return; }
    FrontTogether(start, ToLe(h.version, 2), ToLe(|h.parents|, 8), EncodeLevels(DecodedLevels(h.parents)),
                  HexBytes(h.hashMerkleRoot), HexBytes(h.acceptedIdMerkleRoot), HexBytes(h.utxoCommitment));
  }

  lemma FrontTogether(s: seq<Byte>, a: seq<Byte>, b: seq<Byte>, c: seq<Byte>, d: seq<Byte>, e: seq<Byte>, f: seq<Byte>)
    ensures s + a + b + c + d + e + f == s + ((a + b) + (c + (d + (e + f))))
  {
  }

  method UpdateBack(hasher: Hasher, h: RpcHeader, timestamp: Word, nonce: Word, hash: array<Byte>) returns (ok: bool)
    requires hash.Length == 32 && h.InRange()
    modifies hasher, hash
    ensures ok <==> BackIsHex(h)
    ensures ok ==> hasher.written == old(hasher.written) + BackBytes(h, timestamp, nonce)
  {
    ghost var start := hasher.written;
    UpdateNumbers(hasher, timestamp, h.bits, nonce, h.daaScore, h.blueScore);
    ghost var numbers := ToLe(timestamp, 8) +
      (ToLe(h.bits, 4) + (ToLe(nonce, 8) + (ToLe(h.daaScore, 8) + ToLe(h.blueScore, 8))));
    ok := UpdateBlueWork(hasher, h.blueWork, hash);
    if !ok { return; }
    ghost var blueWork := HexBytes(Padded(h.blueWork));
    ok := UpdateHash(hasher, h.pruningPoint, hash);
    if !ok { return; }
    BackTogether(start, numbers, ToLe(|blueWork|, 8), blueWork, HexBytes(h.pruningPoint));
  }

  lemma BackTogether(s: seq<Byte>, a: seq<Byte>, b: seq<Byte>, c: seq<Byte>, d: seq<Byte>)
    ensures s + a + b + c + d == s + (a + (b + (c + d))) == (s + a) + (b + c) + d
  {
  }

  method UpdateNumbers(hasher: Hasher, timestamp: Word, bits: nat, nonce: Word, daaScore: Word, blueScore: Word)
    modifies hasher
    ensures hasher.written == old(hasher.written)
      + (ToLe(timestamp, 8) + (ToLe(bits, 4) + (ToLe(nonce, 8) + (ToLe(daaScore, 8) + ToLe(blueScore, 8)))))
  {
    hasher.Update(ToLe(timestamp, 8));
    hasher.Update(ToLe(bits, 4));
    hasher.Update(ToLe(nonce, 8));
    hasher.Update(ToLe(daaScore, 8));
    hasher.Update(ToLe(blueScore, 8));
  }

  /**
   serialize_header: it succeeds exactly on the headers whose texts can be decoded, and what is hashed
   depends only on the decoded header, not on what the scratch buffer held before.
   */
  method SerializeHeader(h: RpcHeader, forPrePow: bool) returns (ok: bool, hashed: seq<Byte>)
    requires h.InRange()
    ensures ok <==> Serializable(h)
    ensures ok ==> hashed == Encode(Decoded(h, forPrePow))
  {
    var nonce, timestamp := if forPrePow then 0 else h.nonce, if forPrePow then 0 else Unsigned(h.timestamp);
    hashed := [];
    if h.version >= 0x1_0000 { return false, []; }
    var hasher := new Hasher();
    var hash := new Byte[32](_ => 0);
    ok := UpdateFront(hasher, h, hash);
    if !ok { return; }
    ok := UpdateBack(hasher, h, timestamp, nonce, hash);
    if !ok { return; }
    hashed := hasher.written;
    EncodeIsFrontAndBack(h, forPrePow);
  }

  lemma EncodeIsFrontAndBack(h: RpcHeader, forPrePow: bool)
    requires h.InRange() && Serializable(h)
    ensures Encode(Decoded(h, forPrePow))
         == [] + FrontBytes(h) +
           BackBytes(h, if forPrePow then 0 else Unsigned(h.timestamp), if forPrePow then 0 else h.nonce)
  {
    var d := Decoded(h, forPrePow);
    Regrouped(EncodeStart(d), EncodeLevels(d.parents), EncodeRoots(d), EncodeNumbers(d) + EncodeEnd(d));
  }

  lemma Regrouped(a: seq<Byte>, b: seq<Byte>, c: seq<Byte>, d: seq<Byte>)
    ensures a + (b + (c + d)) == [] + (a + (b + c)) + d
  {
  }
}
