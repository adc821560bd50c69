/**
 The share target of a pool (src/target.rs, u256_from_stratum_difficulty_str, and src/stratum.rs,
 parse_target_hex). Big integers are mathematical integers; how they are read from a text is a
 parameter that is known on strings of decimal digits. Texts come without surrounding white space.
 */
module Difficulty {
  import opened Bits
  import opened Hex
  import opened LittleEndian
  import opened Target
  import opened Options

  // ------------------------------------------------------------ decimal numbers

  predicate IsDigits(text: string) { forall i | 0 <= i < |text| :: '0' <= text[i] <= '9' }

  function Decimal(digits: string): nat
    requires IsDigits(digits)
  {
    if digits == "" then 0 else 10 * Decimal(digits[..|digits| - 1]) + (digits[|digits| - 1] as nat - '0' as nat)
  }

  lemma IsDigitsIff(text: string)
    ensures IsDigits(text) <==> forall c | c in text :: c in "0123456789"
  {
    if IsDigits(text) {
      forall c | c in text ensures c in "0123456789" {
        var i :| 0 <= i < |text| && text[i] == c;
        assert c == "0123456789"[c as nat - '0' as nat];
      }
    }
    if forall c | c in text :: c in "0123456789" {
      forall i | 0 <= i < |text| ensures '0' <= text[i] <= '9' { assert text[i] in text; }
    }
  }

  /** A number in n decimal digits, the highest first. */
  function DecimalText(v: nat, n: nat): (text: string)
    ensures |text| == n
  {
    if n == 0 then "" else DecimalText(v / 10, n - 1) + ["0123456789"[v % 10]]
  }

  lemma {:induction false} DecimalOfText(v: nat, n: nat)
    requires v < Pow10(n)
    ensures IsDigits(DecimalText(v, n)) && Decimal(DecimalText(v, n)) == v
  {
    if n > 0 {
      DecimalOfText(v / 10, n - 1);
      var text := DecimalText(v, n);
      assert text[..n - 1] == DecimalText(v / 10, n - 1) && text[n - 1] == "0123456789"[v % 10];
    }
  }

  function Pow10(n: nat): (r: nat)
    ensures r > 0
  {
    if n == 0 then 1 else 10 * Pow10(n - 1)
  }

  /** The number whose decimal digits are those of a and then k digits that make up b. */
  function Joined(a: nat, k: nat, b: nat): nat {
    Multiplied(a, Pow10(k), b);
    a * Pow10(k) + b
  }

  lemma Multiplied(a: nat, b: nat, c: nat)
    ensures a * b + c >= 0
  {
  }

  /** BigUint::parse_bytes on decimal digits. */
  ghost predicate ReadsDigits(parse: string -> Option<nat>) {
    forall text: string | text != "" && IsDigits(text) :: parse(text) == Some(Decimal(text))
  }

  /** The number of a part of a text that may be missing. */
  function Part(parse: string -> Option<nat>, text: string): Option<nat> { if text == "" then Some(0) else parse(text) }

  // ------------------------------------------------------------ the target of a difficulty

  /** The target of difficulty 1: 0xffff followed by 232 zero bits. */
  const DIFF1: nat := 0xffff * Pow2(232)

  /** floor(diff1 / (n / scale)), cut off to 256 bits. */
  function TargetOf(n: nat, scale: nat): nat
    requires n > 0
  {
    QuotientIsNatural(DIFF1 * scale, n);
    DIFF1 * scale / n % LIMIT
  }

  function IndexOfPoint(text: string): (i: nat)
    ensures i <= |text| && (i < |text| ==> text[i] == '.') && forall k | 0 <= k < i :: text[k] != '.'
  {
    if text == "" || text[0] == '.' then 0 else 1 + IndexOfPoint(text[1..])
  }

  function TrimEndZeros(text: string): (r: string)
    ensures |r| <= |text| && r == text[..|r|] && (forall k | |r| <= k < |text| :: text[k] == '0')
    ensures r != "" ==> r[|r| - 1] != '0'
  {
    if text != "" && text[|text| - 1] == '0' then TrimEndZeros(text[..|text| - 1]) else text
  }

  /** The exponent of ten for a fraction: the number of its digits, cut off to 32 bits. */
  function Exponent(frac: string): nat { |frac| % TWO32 }

  /** The scaled numerator and the scale of a text, if it has them. */
  function Scaled(parse: string -> Option<nat>, text: string): Option<(nat, nat)> {
    if text == "" || text[0] == '-' then None
    else
      var point := IndexOfPoint(text);
      var whole := Part(parse, text[..point]);
      var frac := if point < |text| then TrimEndZeros(text[point + 1..]) else "";
      var fraction := Part(parse, frac);
      if whole.None? || fraction.None? || Joined(whole.value, Exponent(frac), fraction.value) == 0 then None
      else Some((Joined(whole.value, Exponent(frac), fraction.value), Pow10(Exponent(frac))))
  }

  // ------------------------------------------------------------ bytes of big integers

  /** BigUint::to_bytes_le: as few bytes as the number needs, but at least one. */
  function ToBytesLe(n: nat): (r: seq<Byte>)
    ensures |r| >= 1
  {
    if n < 256 then [n] else [n % 256] + ToBytesLe(n / 256)
  }

  /** Cut off or filled up with zeros, these are the lowest bytes of the number. */
  lemma {:induction false} PaddedBytes(n: nat, size: nat, i: nat)
    requires i < size
    ensures ToLe(n, size)[i] == if i < |ToBytesLe(n)| then ToBytesLe(n)[i] else 0
  {
    if n < 256 {
      ZeroToLe(size - 1);
    } else if i > 0 {
      PaddedBytes(n / 256, size - 1, i - 1);
    }
  }

  lemma {:induction false} FromLeSum(a: seq<Byte>, b: seq<Byte>)
    ensures FromLe(a + b) == FromLe(a) + Pow2(8 * |a|) * FromLe(b)
  {
    if a == [] {
      assert a + b == b;
      assert Pow2(0) == 1;
    } else {
      assert (a + b)[1..] == a[1..] + b;
      FromLeSum(a[1..], b);
      Pow2OfBytes(|a| - 1);
      Scaled256(FromLe(a[1..]), Pow2(8 * (|a| - 1)), FromLe(b));
    }
  }

  lemma Scaled256(x: nat, p: nat, y: nat)
    ensures 256 * (x + p * y) == 256 * x + (256 * p) * y
  {
    assert (256 * p) * y == 256 * (p * y);
  }

  lemma FourNumbers(w: nat, a: nat, b: nat, c: nat, d: nat, cd: nat, bcd: nat)
    requires cd == c + w * d && bcd == b + w * cd
    ensures a + w * bcd == Horner(w, a, b, c, d)
  {
    assert w * cd == w * (c + w * d);
    assert w * bcd == w * (b + w * (c + w * d));
  }

  lemma FourParts(a: seq<Byte>, b: seq<Byte>, c: seq<Byte>, d: seq<Byte>)
    requires |a| == |b| == |c| == |d| == 8
    ensures FromLe(a + (b + (c + d))) == Horner(Pow2(64), FromLe(a), FromLe(b), FromLe(c), FromLe(d))
  {
    FromLeSum(c, d);
    FromLeSum(b, c + d);
    FromLeSum(a, b + (c + d));
    FourNumbers(Pow2(64), FromLe(a), FromLe(b), FromLe(c), FromLe(d), FromLe(c + d), FromLe(b + (c + d)));
  }

  /** The number of 32 bytes is the one that they have as four words. */
  lemma ValueOfBytes(bytes: seq<Byte>)
    requires |bytes| == 32
    ensures Value(HashFromLe(bytes)) == FromLe(bytes)
  {
    var a, b, c, d := bytes[..8], bytes[8..16], bytes[16..24], bytes[24..];
    assert bytes == a + (b + (c + d));
    FourParts(a, b, c, d);
    Pow2Of64();
  }

  /** The lowest bytes of a number are the number modulo a power of 256. */
  lemma {:induction false} LowestBytes(n: nat, size: nat)
    ensures FromLe(ToLe(n, size)) == n % Pow2(8 * size)
  {
    if size == 0 {
      assert Pow2(0) == 1;
    } else {
      LowestBytes(n / 256, size - 1);
      Pow2OfBytes(size - 1);
      assert ToLe(n, size)[1..] == ToLe(n / 256, size - 1);
      LowestByte(n, Pow2(8 * (size - 1)));
    }
  }

  lemma LowestByte(n: nat, p: nat)
    requires p > 0
    ensures n % (256 * p) == n % 256 + 256 * (n / 256 % p)
  {
    var k, r := Divide(n, 256);
    var j, s := Divide(k, p);
    assert (256 * p) * j == 256 * (p * j);
    Remainder(n, 256 * p, j, 256 * s + r);
  }

  // ------------------------------------------------------------ the parser

  method SplitOnce(text: string) returns (point: nat)
    ensures point == IndexOfPoint(text)
  {
    point := 0;
    while point < |text| && text[point] != '.'
      invariant point <= |text| && IndexOfPoint(text) == point + IndexOfPoint(text[point..])
    {
      assert text[point..][1..] == text[point + 1..];
      point := point + 1;
    }
  }

  /** u256_from_stratum_difficulty_str, for a trimmed text. */
  method FromStratumDifficulty(parse: string -> Option<nat>, difficulty: string) returns (r: Option<Uint256>)
    ensures r.Some? <==> Scaled(parse, difficulty).Some?
    ensures r.Some? ==> var (n, scale) := Scaled(parse, difficulty).value; n > 0 && Value(r.value) == TargetOf(n, scale)
    ensures ReadsDigits(parse) && IsDecimal(difficulty) && |TrimEndZeros(Fraction(difficulty))| < TWO32 ==>
      var n := Decimal(DigitsOf(difficulty));
      && (r.Some? <==> n > 0)
      && (r.Some? ==> Value(r.value) == TargetOf(n, Pow10(DigitsBehind(difficulty))))
  {
    hide Decimal, ReadsDigits, TargetOf, Joined, Pow10, TrimEndZeros, Value;
    if ReadsDigits(parse) && IsDecimal(difficulty) && |TrimEndZeros(Fraction(difficulty))| < TWO32 {
      TargetOfText(parse, difficulty);
    }
    if difficulty == "" || difficulty[0] == '-' { return None; }
    var point := SplitOnce(difficulty);
    var whole, frac, scale := difficulty, "", Pow10(0);
    if point < |difficulty| {
      whole := difficulty[..point];
      frac := TrimEndZeros(difficulty[point + 1..]);
      scale := Pow10(|frac| % TWO32);
    } else {
      assert difficulty[..point] == difficulty;
    }
    var wholeValue, fracValue := Part(parse, whole), Part(parse, frac);
    if wholeValue.None? || fracValue.None? { return None; }
    var scaled := JoinedParts(wholeValue.value, scale, fracValue.value, Exponent(frac));
    if scaled == 0 { return None; }
    var value := DividedTarget(scaled, scale);
    r := Some(value);
  }

  method JoinedParts(whole: nat, scale: nat, fraction: nat, ghost k: nat) returns (scaled: nat)
    requires scale == Pow10(k)
    ensures scaled == Joined(whole, k, fraction)
  {
    Multiplied(whole, scale, fraction);
    scaled := whole * scale + fraction;
  }

  method DividedTarget(n: nat, scale: nat) returns (r: Uint256)
    requires n > 0
    ensures Value(r) == TargetOf(n, scale)
  {
    QuotientIsNatural(DIFF1 * scale, n);
    r := LowestWords(DIFF1 * scale / n);
  }

  /** The bytes of a number are copied into 32, or the first 32 of them. */
  method LowestWords(n: nat) returns (r: Uint256)
    ensures Value(r) == n % LIMIT
  {
    var bytes := ToBytesLe(n);
    var target := new Byte[32](_ => 0);
    var len := if |bytes| < 32 then |bytes| else 32;
    for i: nat := 0 to len
      invariant forall k: nat | k < 32 :: target[k] == if k < i then bytes[k] else 0
    {
      target[i] := bytes[i];
    }
    forall k: nat | k < 32 ensures target[k] == ToLe(n, 32)[k] {
      PaddedBytes(n, 32, k);
    }
    assert target[..] == ToLe(n, 32);
    r := HashFromLe(target[..]);
    ValueOfBytes(target[..]);
    LowestBytes(n, 32);
    LimitIsPow2();
  }

  // ------------------------------------------------------------ what the target of a decimal number is

  lemma JoinedDigit(a: nat, k: nat, b: nat, digit: nat)
    ensures 10 * Joined(a, k, b) + digit == Joined(a, k + 1, 10 * b + digit)
  {
    Associate(a, 10, Pow10(k));
    Associate(10, a, Pow10(k));
  }

  lemma {:induction false} DecimalSum(a: string, b: string)
    requires IsDigits(a) && IsDigits(b)
    ensures Decimal(a + b) == Joined(Decimal(a), |b|, Decimal(b))
  {
    if b == "" {
      assert a + b == a;
    } else {
      var b' := b[..|b| - 1];
      assert (a + b)[..|a + b| - 1] == a + b';
      DecimalSum(a, b');
      JoinedDigit(Decimal(a), |b'|, Decimal(b'), b[|b| - 1] as nat - '0' as nat);
    }
  }

  lemma {:induction false} DecimalOfZeros(zeros: string)
    requires forall i | 0 <= i < |zeros| :: zeros[i] == '0'
    ensures Decimal(zeros) == 0
  {
    if zeros != "" {
      DecimalOfZeros(zeros[..|zeros| - 1]);
    }
  }

  lemma {:induction false} Pow10Sum(a: nat, b: nat)
    ensures Pow10(a + b) == Pow10(a) * Pow10(b)
  {
    if a > 0 {
      Pow10Sum(a - 1, b);
      assert 10 * (Pow10(a - 1) * Pow10(b)) == (10 * Pow10(a - 1)) * Pow10(b);
    }
  }

  lemma Cancel(a: nat, b: nat, c: nat)
    requires b > 0 && c > 0
    ensures b * c > 0 && (a * c) / (b * c) == a / b
  {
    PositiveProduct(b, c);
    var q, r := Divide(a, b);
    assert (b * q + r) * c == (b * c) * q + r * c by { assert (b * q) * c == (b * c) * q; }
    Minus(c, b, r);
    AtLeast(c, b - r);
    Product(r, c);
    Remainder(a * c, b * c, q, r * c);
  }

  /** A factor that numerator and scale have in common changes nothing. */
  lemma SameTarget(n: nat, scale: nat, c: nat)
    requires n > 0 && c > 0
    ensures n * c > 0 && TargetOf(n * c, scale * c) == TargetOf(n, scale)
  {
    Cancel(DIFF1 * scale, n, c);
    Associate(DIFF1, scale, c);
  }

  /** The zeros at the end make the number and the scale greater by the same factor. */
  lemma NumberOfDigits(whole: string, frac: string, kept: string, z: nat)
    requires IsDigits(whole) && IsDigits(frac) && kept == TrimEndZeros(frac) && |frac| == |kept| + z
    ensures IsDigits(whole + kept) && IsDigits(whole + frac)
    ensures Decimal(whole + frac) == Joined(Decimal(whole + kept), z, 0)
  {
    var zeros := frac[|kept|..];
    assert whole + frac == (whole + kept) + zeros;
    DecimalOfZeros(zeros);
    DecimalSum(whole + kept, zeros);
  }

  lemma PartOfDigits(parse: string -> Option<nat>, digits: string)
    requires ReadsDigits(parse) && IsDigits(digits)
    ensures Part(parse, digits) == Some(Decimal(digits))
  {
  }

  /** Where the parts of a text with a point are. */
  lemma PartsOfText(whole: string, frac: string)
    requires IsDigits(whole)
    ensures var text := whole + "." + frac;
            && text[0] != '-' && IndexOfPoint(text) == |whole| < |text|
            && text[..|whole|] == whole && text[|whole| + 1..] == frac
  {
    PointIsAfterWhole(whole, frac);
    var text := whole + "." + frac;
    assert text[0] == if whole == "" then '.' else whole[0];
  }

  /** What is read from a text with a point. */
  lemma ScaledParts(parse: string -> Option<nat>, whole: string, frac: string, kept: string)
    requires ReadsDigits(parse) && IsDigits(whole) && IsDigits(frac) && kept == TrimEndZeros(frac)
    ensures IsDigits(kept)
    ensures var n, r := Joined(Decimal(whole), Exponent(kept), Decimal(kept)), Scaled(parse, whole + "." + frac);
            r == if n == 0 then None else Some((n, Pow10(Exponent(kept))))
  {
    PartsOfText(whole, frac);
    PartOfDigits(parse, whole);
    PartOfDigits(parse, kept);
  }

  lemma ScaledOfDecimal(parse: string -> Option<nat>, whole: string, frac: string, kept: string)
    requires ReadsDigits(parse) && IsDigits(whole) && IsDigits(frac) && kept == TrimEndZeros(frac)
    requires |kept| < TWO32
    ensures IsDigits(whole + kept)
    ensures var n, r := Decimal(whole + kept), Scaled(parse, whole + "." + frac);
            if n == 0 then r.None? else r.Some? && r.value.0 == n && r.value.1 == Pow10(|kept|)
  {
    hide Scaled, Decimal, Joined, Pow10, ReadsDigits, TrimEndZeros;
    ScaledParts(parse, whole, frac, kept);
    DecimalSum(whole, kept);
  }

  lemma SameTargetJoined(n: nat, k: nat, z: nat)
    requires n > 0
    ensures Joined(n, z, 0) > 0 && TargetOf(Joined(n, z, 0), Pow10(k + z)) == TargetOf(n, Pow10(k))
  {
    Pow10Sum(k, z);
    SameTarget(n, Pow10(k), Pow10(z));
  }

  /**
   A difficulty that is written with digits, whole before the point and frac behind it, has the target
   floor(diff1 * 10^k / n) modulo 2^256, where n is the number of all the digits and k the number of those
   behind the point, zeros at the end included.
   */
  lemma DecimalTarget(parse: string -> Option<nat>, whole: string, frac: string)
    requires ReadsDigits(parse) && IsDigits(whole) && IsDigits(frac) && |TrimEndZeros(frac)| < TWO32
    ensures IsDigits(whole + frac)
    ensures var r, n := Scaled(parse, whole + "." + frac), Decimal(whole + frac);
            && (r.Some? <==> n > 0)
            && (r.Some? ==> r.value.0 > 0 && TargetOf(r.value.0, r.value.1) == TargetOf(n, Pow10(|frac|)))
  {
    hide Scaled, Decimal;
    var kept := TrimEndZeros(frac);
    var z := |frac| - |kept|;
    NumberOfDigits(whole, frac, kept, z);
    ScaledOfDecimal(parse, whole, frac, kept);
    if Decimal(whole + kept) > 0 {
      SameTargetJoined(Decimal(whole + kept), |kept|, z);
    } else {
      assert Joined(0, z, 0) == 0;
    }
  }

  // ------------------------------------------------------------ texts

  /** Digits, with at most one point before, between or behind them. */
  predicate IsDecimal(text: string) {
    var point := IndexOfPoint(text);
    text != "" && IsDigits(text[..point]) && (point < |text| ==> IsDigits(text[point + 1..]))
  }

  /** The digits of a text without its point. */
  function DigitsOf(text: string): (r: string)
    requires IsDecimal(text)
    ensures IsDigits(r)
  {
    var point := IndexOfPoint(text);
    if point < |text| then text[..point] + text[point + 1..] else text
  }

  /** The digits behind the point, without the zeros at the end. */
  function Fraction(text: string): string {
    var point := IndexOfPoint(text);
    if point < |text| then TrimEndZeros(text[point + 1..]) else ""
  }

  /** How many digits there are behind the point. */
  function DigitsBehind(text: string): nat {
    var point := IndexOfPoint(text);
    if point < |text| then |text| - 1 - point else 0
  }

  /** A text without a point is read as a whole number. */
  lemma WholeNumber(parse: string -> Option<nat>, text: string)
    requires ReadsDigits(parse) && text != "" && IsDigits(text)
    ensures IndexOfPoint(text) == |text|
    ensures Scaled(parse, text) == if Decimal(text) == 0 then None else Some((Decimal(text), 1))
  {
    assert text[..|text|] == text;
    PartOfDigits(parse, text);
    assert Joined(Decimal(text), 0, 0) == Decimal(text);
  }

  lemma AtPoint(text: string, point: nat)
    requires point < |text| && text[point] == '.'
    ensures text == text[..point] + "." + text[point + 1..]
  {
  }

  /**
   A difficulty n / 10^k, written with digits and at most one point, has the target floor(diff1 * 10^k / n)
   modulo 2^256, and none if n is zero, as long as there are fewer than 2^32 digits behind the point, zeros at the
   end not counted.
   */
  lemma TargetOfText(parse: string -> Option<nat>, text: string)
    requires ReadsDigits(parse) && IsDecimal(text) && |TrimEndZeros(Fraction(text))| < TWO32
    ensures var r, n := Scaled(parse, text), Decimal(DigitsOf(text));
            && (r.Some? <==> n > 0)
            && (r.Some? ==> r.value.0 > 0 && TargetOf(r.value.0, r.value.1) == TargetOf(n, Pow10(DigitsBehind(text))))
  {
    var point := IndexOfPoint(text);
    if point < |text| {
      AtPoint(text, point);
      var whole, frac := text[..point], text[point + 1..];
      DecimalTarget(parse, whole, frac);
      assert DigitsOf(text) == whole + frac && DigitsBehind(text) == |frac|;
    } else {
      assert text[..point] == text;
      WholeNumber(parse, text);
    }
  }

  /**
   The numerator and the scale that are read stand for the number that is written exactly if the digits behind the
   point, without zeros at the end, are fewer than 2^32.
   */
  lemma StandsForTextIff(parse: string -> Option<nat>, whole: string, frac: string, kept: string)
    requires ReadsDigits(parse) && IsDigits(whole) && IsDigits(frac) && kept == TrimEndZeros(frac)
    requires IsDigits(whole + kept) ==> Decimal(whole + kept) > 0
    ensures IsDigits(whole + kept) && Scaled(parse, whole + "." + frac).Some?
    ensures var (n, scale) := Scaled(parse, whole + "." + frac).value;
            n * Pow10(|kept|) == Decimal(whole + kept) * scale <==> |kept| < TWO32
  {
    hide Scaled, Decimal, Joined, Pow10, ReadsDigits, TrimEndZeros;
    ScaledParts(parse, whole, frac, kept);
    DecimalSum(whole, kept);
    FractionIsPositive(kept);
    var w, f := Decimal(whole), Decimal(kept);
    StaysPositive(w, f, |kept|, Exponent(kept));
    SameNumberIff(w, f, |kept|, Exponent(kept));
    ExponentIff(kept);
    if kept == "" {
      DecimalOfZeros(kept);
    }
  }

  lemma ExponentIff(frac: string)
    ensures Exponent(frac) == |frac| <==> |frac| < TWO32
    ensures Exponent(frac) <= |frac|
  {
  }

  lemma StaysPositive(w: nat, f: nat, k: nat, k': nat)
    requires Joined(w, k, f) > 0
    ensures Joined(w, k', f) > 0
  {
    if w > 0 {
      PositiveProduct(w, Pow10(k'));
    } else {
      assert Joined(0, k, f) == f;
      assert Joined(0, k', f) == f;
    }
  }

  /** A fraction of 2^32 digits: 10^-(2^32) is taken for one. */
  lemma LongFractionIsCut(parse: string -> Option<nat>)
    requires ReadsDigits(parse)
    ensures Scaled(parse, "0" + "." + (Zeros(0xffff_ffff) + "1")) == Some((1, 1))
  {
    hide Scaled, ReadsDigits, Exponent, TrimEndZeros, Decimal;
    var frac := Zeros(0xffff_ffff) + "1";
    EndsInOne(Zeros(0xffff_ffff));
    WrappedExponent(frac);
    assert Decimal("0") == 0 by { DecimalOfZeros("0"); }
    ScaledParts(parse, "0", frac, frac);
  }

  lemma EndsInOne(zeros: string)
    requires forall i | 0 <= i < |zeros| :: zeros[i] == '0'
    ensures IsDigits(zeros + "1") && TrimEndZeros(zeros + "1") == zeros + "1" && Decimal(zeros + "1") == 1
  {
    hide Decimal;
    OneBehindZeros(zeros);
    var all := zeros + "1";
    assert all[|all| - 1] == '1';
  }

  lemma OneBehindZeros(zeros: string)
    requires forall i | 0 <= i < |zeros| :: zeros[i] == '0'
    ensures Decimal(zeros + "1") == 1
  {
    DecimalOfZeros(zeros);
    var all := zeros + "1";
    assert all[..|all| - 1] == zeros;
  }

  lemma WrappedExponent(frac: string)
    requires |frac| == TWO32
    ensures Exponent(frac) == 0
  {
  }

  lemma FractionIsPositive(kept: string)
    requires IsDigits(kept) && (kept != "" ==> kept[|kept| - 1] != '0')
    ensures kept == "" || Decimal(kept) > 0
  {
  }

  lemma {:induction false} Pow10Rises(a: nat, b: nat)
    requires a < b
    ensures Pow10(a) < Pow10(b)
  {
    if a + 1 < b {
      Pow10Rises(a, b - 1);
    }
  }

  lemma SameNumberIff(w: nat, f: nat, k: nat, k': nat)
    requires k' <= k
    ensures Joined(w, k', f) * Pow10(k) == Joined(w, k, f) * Pow10(k') <==> f == 0 || k == k'
  {
    var long, short := Pow10(k), Pow10(k');
    if k' < k {
      Pow10Rises(k', k);
    }
    CrossProducts(w, f, long, short);
    Minus(f, long, short);
    if f > 0 && k' < k {
      PositiveProduct(f, long - short);
    }
  }

  lemma CrossProducts(w: nat, f: nat, long: nat, short: nat)
    ensures (w * short + f) * long == w * short * long + f * long
    ensures (w * long + f) * short == w * short * long + f * short
  {
  }

  lemma {:induction false} PointIsAfterWhole(whole: string, frac: string)
    requires IsDigits(whole)
    ensures IndexOfPoint(whole + "." + frac) == |whole|
  {
    var text := whole + "." + frac;
    if whole == "" {
      assert text[0] == '.';
    } else {
      assert text[0] == whole[0] && text[1..] == whole[1..] + "." + frac;
      PointIsAfterWhole(whole[1..], frac);
    }
  }

  /** A higher difficulty has no higher target, as long as the higher quotient fits into 256 bits. */
  lemma TargetIsAntitone(n: nat, scale: nat, n': nat, scale': nat)
    requires n > 0 && n' > 0 && scale > 0 && scale' > 0 && n * scale' <= n' * scale
    requires DIFF1 * scale / n < LIMIT
    ensures TargetOf(n', scale') <= TargetOf(n, scale)
  {
    Antitone(DIFF1, n, scale, n', scale');
    QuotientIsNatural(DIFF1 * scale, n);
    QuotientIsNatural(DIFF1 * scale', n');
    Remainder(DIFF1 * scale / n, LIMIT, 0, DIFF1 * scale / n);
    Remainder(DIFF1 * scale' / n', LIMIT, 0, DIFF1 * scale' / n');
  }

  lemma Antitone(d: nat, n: nat, s: nat, n': nat, s': nat)
    requires n > 0 && n' > 0 && s > 0 && s' > 0 && n * s' <= n' * s
    ensures d * s' / n' <= d * s / n
  {
    Product(d, s);
    Product(d, s');
    var q', r' := Divide(d * s', n');
    var q, r := Divide(d * s, n);
    CrossMultiplied(d, n, s, n', s', q, r, q', r');
  }

  lemma CrossMultiplied(d: nat, n: nat, s: nat, n': nat, s': nat, q: nat, r: nat, q': nat, r': nat)
    requires n > 0 && n' > 0 && s > 0 && s' > 0 && n * s' <= n' * s && r < n && r' < n'
    requires d * s == n * q + r && d * s' == n' * q' + r'
    ensures q' <= q
  {
    Monotone(q', n * s', n' * s);
    Monotone(s, n' * q', d * s');
    assert q' * (n' * s) == s * (n' * q') && s * (d * s') == s' * (d * s) && q' * (n * s') == s' * (n * q');
    CancelFactor(s', n * q', d * s);
    Minus(n, q', q);
    AtLeast(n, q' - q);
  }

  lemma Monotone(a: int, b: int, c: int)
    requires a >= 0 && b <= c
    ensures a * b <= a * c
  {
    Minus(a, c, b);
    Product(a, c - b);
  }

  lemma CancelFactor(a: nat, b: int, c: int)
    requires a > 0 && a * b <= a * c
    ensures b <= c
  {
    Minus(a, b, c);
    AtLeast(a, b - c);
  }

  // ------------------------------------------------------------ where the quotient does not fit into 256 bits

  /** The target is the quotient itself exactly if that fits into 256 bits, which can be told before the division. */
  lemma TargetIsQuotientIff(n: nat, scale: nat)
    requires n > 0 && scale > 0
    ensures TargetOf(n, scale) == DIFF1 * scale / n <==> DIFF1 * scale < n * LIMIT
  {
    QuotientFits(DIFF1 * scale, n);
  }

  lemma QuotientFits(a: nat, n: nat)
    requires n > 0
    ensures a / n >= 0
    ensures a / n < LIMIT <==> a < n * LIMIT
    ensures a / n % LIMIT == a / n <==> a < n * LIMIT
  {
    var q, r := Divide(a, n);
    Minus(n, LIMIT, q);
    AtLeast(n, LIMIT - q);
    Minus(n, q, LIMIT);
    if q >= LIMIT {
      Product(n, q - LIMIT);
    } else {
      Remainder(q, LIMIT, 0, q);
    }
  }

  /** From n / scale on, a higher decimal difficulty never has a higher target than a lower one. */
  ghost predicate FallsFrom(n: nat, scale: nat) {
    forall n1: nat, k1: nat, n2: nat, k2: nat
      | n1 > 0 && n2 > 0 && n * Pow10(k1) <= n1 * scale && n1 * Pow10(k2) <= n2 * Pow10(k1) ::
      TargetOf(n2, Pow10(k2)) <= TargetOf(n1, Pow10(k1))
  }

  /** The target falls as the difficulty rises, from a given one on, exactly if its quotient fits into 256 bits. */
  lemma FallsFromIff(n: nat, scale: nat)
    requires n > 0 && scale > 0
    ensures FallsFrom(n, scale) <==> DIFF1 * scale < n * LIMIT
  {
    if DIFF1 * scale < n * LIMIT {
      forall n1: nat, k1: nat, n2: nat, k2: nat
        | n1 > 0 && n2 > 0 && n * Pow10(k1) <= n1 * scale && n1 * Pow10(k2) <= n2 * Pow10(k1)
        ensures TargetOf(n2, Pow10(k2)) <= TargetOf(n1, Pow10(k1))
      {
        StillFits(DIFF1, n, scale, n1, Pow10(k1), LIMIT);
        QuotientFits(DIFF1 * Pow10(k1), n1);
        TargetIsAntitone(n1, Pow10(k1), n2, Pow10(k2));
      }
    } else {
      RisesAgain(n, scale);
    }
  }

  /** Above a difficulty that is cut off there are one with the target zero and a higher one with the highest target. */
  lemma RisesAgain(n: nat, scale: nat)
    requires n > 0 && scale > 0 && DIFF1 * scale >= n * LIMIT
    ensures !FallsFrom(n, scale)
  {
    var zero := 0xffff * 59604644775390625;
    ZeroTarget();
    HigherDifficulty(DIFF1, Pow10(24), n, scale, zero, LIMIT);
    var highest := HighestTarget(zero, Pow10(24));
    assert TargetOf(highest, Pow10(512)) > TargetOf(zero, Pow10(24));
  }

  /** 0xffff * 5^24 / 10^24 has the quotient 2^256. */
  lemma ZeroTarget()
    ensures DIFF1 * Pow10(24) == 0xffff * 59604644775390625 * LIMIT
    ensures TargetOf(0xffff * 59604644775390625, Pow10(24)) == 0
  {
    var five := 59604644775390625;
    assert Pow10(12) == 1_000_000_000_000;
    Pow10Sum(12, 12);
    TopOfLimit();
    assert Pow10(24) == five * 0x100_0000;
    Regrouped(0xffff, Pow2(232), five, 0x100_0000);
    Remainder(DIFF1 * Pow10(24), 0xffff * five, LIMIT, 0);
  }

  lemma Regrouped(a: nat, p: nat, b: nat, q: nat)
    ensures (a * p) * (b * q) == (a * b) * (q * p)
  {
    assert (a * p) * (b * q) == a * b * (p * q);
  }

  /** A higher difficulty has a quotient that fits if a lower one has. */
  lemma StillFits(d: nat, n: nat, s: nat, n': nat, s': nat, limit: nat)
    requires n > 0 && s > 0 && s' > 0 && d * s < n * limit && n * s' <= n' * s
    ensures d * s' < n' * limit
  {
    if d * s' >= n' * limit {
      Monotone(s, n' * limit, d * s');
      Monotone(limit, n * s', n' * s);
      assert s' * (n * limit) == limit * (n * s') && s * (n' * limit) == limit * (n' * s)
        && s' * (d * s) == s * (d * s');
      CancelFactor(s', n * limit, d * s);
    }
  }

  /** A difficulty whose target is the highest of all, higher than every difficulty that is cut off. */
  lemma HighestTarget(n: nat, scale: nat) returns (n': nat)
    requires n > 0 && scale > 0 && DIFF1 * scale >= n * LIMIT
    ensures n' > 0 && TargetOf(n', Pow10(512)) == LIMIT - 1 && n * Pow10(512) <= n' * scale
  {
    var a := DIFF1 * Pow10(512);
    FarAboveLimit();
    var r;
    n', r := Divide(a, LIMIT - 1);
    QuotientOfQuotient(a, LIMIT - 1, n', r);
    Remainder(LIMIT - 1, LIMIT, 0, LIMIT - 1);
    BelowQuotient(a, n', LIMIT, r);
    HigherDifficulty(DIFF1, Pow10(512), n, scale, n', LIMIT);
  }

  /** Dividing by a quotient that is not less than the divisor gives the divisor back. */
  lemma QuotientOfQuotient(a: nat, m: nat, q: nat, r: nat)
    requires m > 0 && a == m * q + r && r < m && a >= m * m
    ensures q >= m && a / q == m
  {
    Minus(m, q, m);
    AtLeast(m, q - m);
    Remainder(a, q, m, r);
  }

  lemma BelowQuotient(a: nat, q: nat, limit: nat, r: nat)
    requires limit > 1 && a == (limit - 1) * q + r && r < limit - 1 <= q
    ensures a <= q * limit
  {
    assert q * limit == (limit - 1) * q + q;
  }

  /** A quotient of d * s and n that is too high, and one of d * s' and n' that is not. */
  lemma HigherDifficulty(d: nat, s': nat, n: nat, s: nat, n': nat, limit: nat)
    requires limit > 0 && d * s >= n * limit && d * s' <= n' * limit
    ensures n * s' <= n' * s
  {
    Monotone(s', n * limit, d * s);
    Monotone(s, d * s', n' * limit);
    assert s' * (n * limit) == limit * (n * s') && s * (n' * limit) == limit * (n' * s) && s' * (d * s) == s * (d * s');
    CancelFactor(limit, n * s', n' * s);
  }

  lemma {:induction false} Pow10Exceeds(n: nat)
    ensures Pow10(n) >= Pow2(n)
  {
    if n > 0 {
      Pow10Exceeds(n - 1);
    }
  }

  lemma FarAboveLimit()
    ensures DIFF1 * Pow10(512) >= (LIMIT - 1) * (LIMIT - 1)
  {
    hide Pow10, Pow2;
    Pow10Exceeds(512);
    Pow2Sum(256, 256);
    LimitIsPow2();
    SquareBelow(DIFF1, LIMIT, Pow10(512));
  }

  lemma SquareBelow(d: nat, n: nat, a: nat)
    requires d > 0 && n > 0 && a >= n * n
    ensures d * a >= (n - 1) * (n - 1)
  {
    assert n * n == (n - 1) * (n - 1) + 2 * n - 1;
    AtLeast(a, d);
  }

  /** Difficulty 0.002 is higher than 0.001 and has a higher target, since both quotients are cut off. */
  lemma HigherDifficultyHigherTarget(parse: string -> Option<nat>)
    requires ReadsDigits(parse)
    ensures Scaled(parse, "0.001") == Some((1, 1000)) && Scaled(parse, "0.002") == Some((2, 1000))
    ensures TargetOf(1, 1000) == 15203352 * Pow2(232) && TargetOf(2, 1000) == 15990284 * Pow2(232)
    ensures TargetOf(1, 1000) < TargetOf(2, 1000)
  {
    hide Scaled, TargetOf, ReadsDigits, Pow2;
    ThousandthsText(parse, "001", 1);
    ThousandthsText(parse, "002", 2);
    assert "0.001" == "0" + "." + "001" && "0.002" == "0" + "." + "002";
    Thousandths(1, 65535000, 3, 15203352);
    Thousandths(2, 32767500, 1, 15990284);
  }

  lemma ThousandthsText(parse: string -> Option<nat>, frac: string, n: nat)
    requires ReadsDigits(parse) && n in {1, 2} && frac == if n == 1 then "001" else "002"
    ensures Scaled(parse, "0" + "." + frac) == Some((n, 1000))
  {
    assert TrimEndZeros(frac) == frac;
    ScaledOfDecimal(parse, "0", frac, frac);
    var digits := "0" + frac;
    DecimalOfZeros(digits[..3]);
    assert Decimal(digits) == n;
    assert Pow10(3) == 1000;
  }

  /** 65535000 / n, cut off to 24 bits, above 232 zero bits */
  lemma Thousandths(n: nat, quotient: nat, times: nat, left: nat)
    requires n > 0 && 65535000 == n * quotient && quotient == 0x100_0000 * times + left && left < 0x100_0000
    ensures TargetOf(n, 1000) == left * Pow2(232)
  {
    var p := Pow2(232);
    assert DIFF1 * 1000 == n * (quotient * p) by {
      assert DIFF1 * 1000 == 65535000 * p;
      assert (n * quotient) * p == n * (quotient * p);
    }
    Remainder(DIFF1 * 1000, n, quotient * p, 0);
    TopOfLimit();
    CutOff(p, times, left);
  }

  lemma TopOfLimit()
    ensures LIMIT == 0x100_0000 * Pow2(232)
  {
    Pow2OfBytes(0);
    Pow2OfBytes(1);
    Pow2OfBytes(2);
    assert Pow2(24) == 0x100_0000;
    Pow2Sum(24, 232);
    LimitIsPow2();
  }

  lemma CutOff(p: nat, times: nat, left: nat)
    requires LIMIT == 0x100_0000 * p && p > 0 && left < 0x100_0000
    ensures (0x100_0000 * times + left) * p % LIMIT == left * p
  {
    assert (0x100_0000 * times + left) * p == LIMIT * times + left * p by {
      assert (0x100_0000 * times) * p == (0x100_0000 * p) * times;
    }
    Minus(p, 0x100_0000, left);
    AtLeast(p, 0x100_0000 - left);
    Product(left, p);
    Remainder((0x100_0000 * times + left) * p, LIMIT, times, left * p);
  }

  // ------------------------------------------------------------ targets in hexadecimal

  /** The digits of a target, if there are as many as there may be. */
  function TargetDigits(text: string): (r: Option<string>)
    ensures r.Some? ==> 0 < |r.value| <= 64
  {
    var hex := if |text| >= 2 && text[..2] == "0x" then text[2..] else text;
    if hex == "" || |hex| > 64 then None else Some(hex)
  }

  /** A mark 0x in front is dropped, once; then one to 64 digits must be left. */
  lemma DigitsBehindMark(hex: string)
    ensures TargetDigits("0x" + hex) == if 0 < |hex| <= 64 then Some(hex) else None
    ensures !(|hex| >= 2 && hex[0] == '0' && hex[1] == 'x') ==>
      TargetDigits(hex) == if 0 < |hex| <= 64 then Some(hex) else None
  {
    var text := "0x" + hex;
    assert text[..2] == "0x" && text[2..] == hex;
    if |hex| >= 2 { assert hex[..2] == [hex[0], hex[1]]; }
  }

  function Padded(hex: string): (r: string)
    requires |hex| <= 64
    ensures |r| == 64
  {
    Zeros(64 - |hex|) + hex
  }

  lemma {:induction false} LeadingZeros(n: nat, hex: string)
    ensures Digits(Zeros(n) + hex) == Digits(hex)
  {
    if hex != "" {
      assert (Zeros(n) + hex)[..n + |hex| - 1] == Zeros(n) + hex[..|hex| - 1];
      LeadingZeros(n, hex[..|hex| - 1]);
    } else {
      assert Zeros(n) + hex == Zeros(n);
      ZerosAreZero(n);
    }
  }

  lemma OneMoreDigit(text: string, i: nat)
    requires i < |text|
    ensures var head, last, more := Digits(text[..i]), Digit(text[i]), Digits(text[..i + 1]);
            && (more.Some? <==> head.Some? && last.Some?)
            && (more.Some? ==> more.value == 16 * head.value + last.value)
  {
    assert text[..i + 1][..i] == text[..i];
  }

  lemma TwoMoreDigits(text: string, i: nat)
    requires i + 2 <= |text| && Digits(text[..i + 2]).Some?
    ensures var head, pair := Digits(text[..i]), FromStrRadix16(text[i..i + 2], 256);
            head.Some? && pair.Some? && Digits(text[..i + 2]).value == 256 * head.value + pair.value
  {
    OneMoreDigit(text, i + 1);
    OneMoreDigit(text, i);
    PairOfDigits(text[i..i + 2]);
  }

  lemma PairOfDigits(pair: string)
    requires |pair| == 2 && Digit(pair[0]).Some? && Digit(pair[1]).Some?
    ensures FromStrRadix16(pair, 256) == Some(16 * Digit(pair[0]).value + Digit(pair[1]).value)
  {
    OneMoreDigit(pair, 0);
    OneMoreDigit(pair, 1);
    assert pair[..2] == pair && pair[..0] == "";
  }

  /** The first n pairs of the digits can be read as bytes. */
  predicate PairsAreBytes(padded: string, n: nat)
    requires 2 * n <= |padded|
  {
    n == 0 || (PairsAreBytes(padded, n - 1) && FromStrRadix16(padded[2 * (n - 1)..2 * n], 256).Some?)
  }

  lemma {:induction false} FewerPairs(padded: string, i: nat, n: nat)
    requires i <= n && 2 * n <= |padded| && PairsAreBytes(padded, n)
    ensures PairsAreBytes(padded, i)
  {
    if i < n {
      FewerPairs(padded, i, n - 1);
    }
  }

  lemma NotAllPairs(padded: string, i: nat)
    requires i <= 32 && |padded| == 64 && !PairsAreBytes(padded, i)
    ensures !PairsAreBytes(padded, 32)
  {
    if PairsAreBytes(padded, 32) {
      FewerPairs(padded, i, 32);
    }
  }

  /** The bytes are the number of the first n digits, if these are digits at all. */
  ghost predicate NumberOf(padded: string, n: nat, bytes: seq<Byte>)
    requires n <= |padded|
  {
    Digits(padded).Some? ==> Digits(padded[..n]) == Some(FromLe(bytes))
  }

  lemma PairBefore(padded: string, i: nat, bytes: seq<Byte>)
    requires |padded| == 64 && i < 32 && NumberOf(padded, 2 * i, bytes)
    ensures var pair := FromStrRadix16(padded[2 * i..2 * (i + 1)], 256);
            && (Digits(padded).Some? ==> pair.Some?)
            && (pair.Some? ==> NumberOf(padded, 2 * (i + 1), [pair.value] + bytes))
  {
    hide Digits, FromLe, FromStrRadix16;
    if Digits(padded).Some? {
      PrefixIsHex(padded, 2 * i + 2);
      PairOfNumber(padded, 2 * i, bytes);
    }
  }

  lemma PairOfNumber(padded: string, i: nat, bytes: seq<Byte>)
    requires i + 2 <= |padded| && Digits(padded[..i + 2]).Some? && Digits(padded[..i]) == Some(FromLe(bytes))
    ensures var pair := FromStrRadix16(padded[i..i + 2], 256);
            pair.Some? && Digits(padded[..i + 2]) == Some(FromLe([pair.value] + bytes))
  {
    TwoMoreDigits(padded, i);
    var pair := FromStrRadix16(padded[i..i + 2], 256);
    var all := Digits(padded[..i + 2]);
    assert all.value == 256 * FromLe(bytes) + pair.value;
    FromLePrepend(pair.value, bytes);
  }

  lemma FromLePrepend(b: Byte, bytes: seq<Byte>)
    ensures FromLe([b] + bytes) == b + 256 * FromLe(bytes)
  {
    assert ([b] + bytes)[1..] == bytes;
  }

  lemma AllPairs(padded: string, bytes: seq<Byte>)
    requires |padded| == 64 && NumberOf(padded, 64, bytes) && Digits(padded).Some?
    ensures Digits(padded).value == FromLe(bytes)
  {
    assert padded[..64] == padded;
  }

  method ReadPair(padded: string, i: nat, bytes: array<Byte>) returns (ok: bool)
    requires |padded| == 64 && i < 32 && bytes.Length == 32
    requires PairsAreBytes(padded, i) && NumberOf(padded, 2 * i, bytes[32 - i..])
    modifies bytes
    ensures ok <==> PairsAreBytes(padded, i + 1)
    ensures ok ==> NumberOf(padded, 2 * (i + 1), bytes[32 - (i + 1)..])
    ensures !ok ==> Digits(padded).None?
  {
    ghost var done := bytes[32 - i..];
    PairBefore(padded, i, done);
    var byte := FromStrRadix16(padded[2 * i..2 * (i + 1)], 256);
    ok := byte.Some?;
    if ok {
      bytes[31 - i] := byte.value;
      assert bytes[32 - (i + 1)..] == [byte.value] + done;
    }
  }

  /** The pairs from the first on become bytes from the last on. */
  method ReadPairs(padded: string) returns (r: Option<seq<Byte>>)
    requires |padded| == 64
    ensures r.Some? <==> PairsAreBytes(padded, 32)
    ensures r.Some? ==> |r.value| == 32 && NumberOf(padded, 64, r.value)
    ensures r.None? ==> Digits(padded).None?
  {
    var bytes := new Byte[32](_ => 0);
    for i: nat := 0 to 32
      invariant PairsAreBytes(padded, i) && NumberOf(padded, 2 * i, bytes[32 - i..])
    {
      var ok := ReadPair(padded, i, bytes);
      if !ok {
        NotAllPairs(padded, i + 1);
        return None;
      }
    }
    assert bytes[32 - 32..] == bytes[..];
    r := Some(bytes[..]);
  }

  /**
   parse_target_hex: it answers exactly if every pair of the digits, filled up on the left, can be read,
   and digits give the number that they are in hexadecimal.
   */
  method ParseTargetHex(text: string) returns (r: Option<Uint256>)
    ensures r.Some? <==>
      TargetDigits(text).Some? && PairsAreBytes(Padded(TargetDigits(text).value), 32)
    ensures TargetDigits(text).Some? && Digits(TargetDigits(text).value).Some? ==>
      r.Some? && Value(r.value) == Digits(TargetDigits(text).value).value
  {
    var digits := TargetDigits(text);
    if digits.None? { return None; }
    var hex := digits.value;
    LeadingZeros(64 - |hex|, hex);
    var bytes := ReadPairs(Padded(hex));
    if bytes.None? { return None; }
    r := Some(HashFromLe(bytes.value));
    ValueOfBytes(bytes.value);
    if Digits(hex).Some? {
      AllPairs(Padded(hex), bytes.value);
    }
  }

  lemma {:induction false} PrefixIsHex(text: string, n: nat)
    requires Digits(text).Some? && n <= |text|
    ensures Digits(text[..n]).Some?
  {
    if n == |text| {
      assert text[..n] == text;
    } else {
      PrefixIsHex(text[..|text| - 1], n);
      assert text[..|text| - 1][..n] == text[..n];
    }
  }
}
