/** Hexadecimal digits, and the numbers that the standard library reads from them. */
module Hex {
  import opened Bits
  import opened Options

  function Digit(c: char): (r: Option<nat>)
    ensures r.Some? ==> r.value < 16
  {
    if '0' <= c <= '9' then Some(c as nat - '0' as nat)
    else if 'a' <= c <= 'f' then Some(c as nat - 'a' as nat + 10)
    else if 'A' <= c <= 'F' then Some(c as nat - 'A' as nat + 10)
    else None
  }

  function Digits(text: string): (r: Option<nat>)
    ensures r.Some? ==> r.value < Pow2(4 * |text|)
  {
    if text == "" then Some(0)
    else
      var head, last := Digits(text[..|text| - 1]), Digit(text[|text| - 1]);
      if head.None? || last.None? then None
      else
        Pow2Sum(4, 4 * (|text| - 1));
        assert Pow2(4) == 16;
        Some(16 * head.value + last.value)
  }

  /**
   from_str_radix(text, 16) of an unsigned type with the given limit: a plus sign may come first, and the value must
   fit.
   */
  function FromStrRadix16(text: string, limit: nat): (r: Option<nat>)
    ensures r.Some? ==> r.value < limit && r.value < Pow2(4 * |text|)
  {
    var digits := if |text| > 1 && text[0] == '+' then text[1..] else text;
    var value := Digits(digits);
    Pow2Grows(4 * |digits|, 4 * |text|);
    if digits == "" || value.None? || value.value >= limit then None else value
  }

  /** One plus sign may come first, the digits must not be missing, and a number that is too large is rejected. */
  lemma Radix16(text: string, limit: nat)
    requires text != "" && text[0] != '+'
    ensures FromStrRadix16(text, limit) == FromStrRadix16("+" + text, limit)
    ensures FromStrRadix16(text, limit)
         == if Digits(text).Some? && Digits(text).value < limit then Digits(text) else None
    ensures FromStrRadix16("", limit) == FromStrRadix16("+", limit) == None
  {
    assert ("+" + text)[1..] == text;
    assert Digit('+') == None && Digits("+"[..0]) == Some(0);
  }

  const LOWER := "0123456789abcdef"

  const UPPER := "0123456789ABCDEF"

  /** The sixteen digits in both cases, and no other character. */
  lemma DigitIff(c: char, k: nat)
    requires k < 16
    ensures Digit(c) == Some(k) <==> c == LOWER[k] || c == UPPER[k]
  {
  }

  /** A number in n digits, the highest first. */
  function HexOf(v: nat, n: nat): (r: string)
    ensures |r| == n
  {
    if n == 0 then "" else HexOf(v / 16, n - 1) + [LOWER[v % 16]]
  }

  lemma {:induction false} DigitsOfHex(v: nat, n: nat)
    requires v < Pow2(4 * n)
    ensures Digits(HexOf(v, n)) == Some(v)
  {
    if n > 0 {
      Pow2Sum(4, 4 * (n - 1));
      assert Pow2(4) == 16;
      DigitsOfHex(v / 16, n - 1);
      DigitIff(LOWER[v % 16], v % 16);
      var text := HexOf(v, n);
      assert text[..n - 1] == HexOf(v / 16, n - 1) && text[n - 1] == LOWER[v % 16];
    }
  }

  function Zeros(n: nat): (r: string)
    ensures |r| == n
  {
    seq(n, _ => '0')
  }

  lemma {:induction false} ZerosAreZero(n: nat)
    ensures Digits(Zeros(n)) == Some(0)
  {
    if n > 0 {
      assert Zeros(n)[..n - 1] == Zeros(n - 1);
      ZerosAreZero(n - 1);
    }
  }
}
