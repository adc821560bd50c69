/** Words as bytes, the least significant first: the loops of the kernel and the functions they compute. */
module LittleEndian {
  import opened Bits

  type Byte = b: nat | b < 256

  type Word = w: nat | w < U64

  /** The n lowest bytes of w. */
  function ToLe(w: nat, n: nat): (r: seq<Byte>)
    ensures |r| == n
  {
    if n == 0 then [] else [w % 256] + ToLe(w / 256, n - 1)
  }

  lemma {:induction false} ZeroToLe(n: nat)
    ensures ToLe(0, n) == seq(n, _ => 0)
  {
    if n > 0 {
      ZeroToLe(n - 1);
    }
  }

  function FromLe(bytes: seq<Byte>): nat {
    if bytes == [] then 0 else bytes[0] + 256 * FromLe(bytes[1..])
  }

  lemma Pow2OfBytes(n: nat)
    ensures Pow2(8 * (n + 1)) == 256 * Pow2(8 * n)
  {
    Pow2Sum(8, 8 * n);
    assert Pow2(8) == 256;
  }

  lemma {:induction false} FromToLe(w: nat, n: nat)
    requires w < Pow2(8 * n)
    ensures FromLe(ToLe(w, n)) == w
  {
    if n > 0 {
      Pow2OfBytes(n - 1);
      FromToLe(w / 256, n - 1);
      assert ToLe(w, n)[1..] == ToLe(w / 256, n - 1);
    }
  }

  lemma {:induction false} ToFromLe(bytes: seq<Byte>)
    ensures ToLe(FromLe(bytes), |bytes|) == bytes
  {
    if bytes != [] {
      ToFromLe(bytes[1..]);
    }
  }

  lemma {:induction false} FromLeBound(bytes: seq<Byte>)
    ensures FromLe(bytes) < Pow2(8 * |bytes|)
  {
    if bytes != [] {
      FromLeBound(bytes[1..]);
      Pow2OfBytes(|bytes| - 1);
    }
  }

  lemma Scaled(x: nat, b: nat, p: nat)
    ensures 256 * (x + b * p) == 256 * x + b * (256 * p)
  {
    assert b * (256 * p) == 256 * (b * p);
  }

  lemma {:induction false} FromLeAppend(bytes: seq<Byte>, b: Byte)
    ensures FromLe(bytes + [b]) == FromLe(bytes) + b * Pow2(8 * |bytes|)
  {
    var all := bytes + [b];
    if bytes == [] {
      assert all[1..] == [];
    } else {
      assert all[1..] == bytes[1..] + [b];
      FromLeAppend(bytes[1..], b);
      Pow2OfBytes(|bytes| - 1);
      Scaled(FromLe(bytes[1..]), b, Pow2(8 * (|bytes| - 1)));
    }
  }

  function Shr(a: nat, distance: nat): nat {
    QuotientIsNatural(a, Pow2(distance));
    a / Pow2(distance)
  }

  lemma ShrOfQuotient(w: nat, i: nat)
    ensures Shr(w, 8 * (i + 1)) == Shr(w / 256, 8 * i)
  {
    Pow2OfBytes(i);
    var p := Pow2(8 * i);
    var k, r := Divide(w, 256);
    var j, s := Divide(k, p);
    Regroup(1, 256, 0, k, r);
    assert w == (256 * p) * j + (256 * s + r) by {
      assert (256 * p) * j == 256 * (p * j);
    }
    Remainder(w, 256 * p, j, 256 * s + r);
  }

  /** Byte i is the i-th shift by eight, cut off to a byte. */
  lemma {:induction false} ToLeAt(w: nat, n: nat, i: nat)
    requires i < n
    ensures ToLe(w, n)[i] == Shr(w, 8 * i) % 256
  {
    if i > 0 {
      ToLeAt(w / 256, n - 1, i - 1);
      ShrOfQuotient(w, i - 1);
    } else {
      assert Pow2(0) == 1;
    }
  }

  /** after is before with some bytes written from a place on. */
  ghost predicate Placed(before: seq<Byte>, at: nat, bytes: seq<Byte>, after: seq<Byte>) {
    at + |bytes| <= |before| && after == before[..at] + bytes + before[at + |bytes|..]
  }

  /** What is written next to each other is written as one. */
  lemma PlacedNext(s: seq<Byte>, at: nat, x: seq<Byte>, s': seq<Byte>, next: nat, y: seq<Byte>, s'': seq<Byte>)
    requires Placed(s, at, x, s') && next == at + |x| && Placed(s', next, y, s'')
    ensures Placed(s, at, x + y, s'')
  {
    assert s'[..next] == s[..at] + x;
    assert s'[next + |y|..] == s[next + |y|..];
  }

  /** The bytes are copied to a place in the output; its other bytes stay. */
  method Write(out: array<Byte>, at: nat, bytes: seq<Byte>)
    requires at + |bytes| <= out.Length
    modifies out
    ensures Placed(old(out[..]), at, bytes, out[..])
  {
    for i: nat := 0 to |bytes|
      invariant forall k: nat | k < out.Length ::
        out[k] == if at <= k < at + i then bytes[k - at] else old(out[k])
    {
      out[at + i] := bytes[i];
    }
  }

  /** store64_le, in private and in global memory. */
  method Store64(dst: array<Byte>, at: nat, v: Word)
    requires at + 8 <= dst.Length
    modifies dst
    ensures Placed(old(dst[..]), at, ToLe(v, 8), dst[..])
  {
    for i: nat := 0 to 8
      invariant forall k: nat | k < dst.Length ::
        dst[k] == if at <= k < at + i then ToLe(v, 8)[k - at] else old(dst[k])
    {
      ToLeAt(v, 8, i);
      dst[at + i] := Shr(v, 8 * i) % 256;
    }
  }

  lemma LoadStep(bytes: seq<Byte>, b: Byte)
    ensures Or(FromLe(bytes), b * Pow2(8 * |bytes|)) == FromLe(bytes + [b])
  {
    FromLeBound(bytes);
    OrAbove(FromLe(bytes), b, 8 * |bytes|);
    FromLeAppend(bytes, b);
  }

  /** load64_le: the bytes are put together by or. */
  method Load64(src: seq<Byte>, at: nat) returns (v: Word)
    requires at + 8 <= |src|
    ensures v == FromLe(src[at..at + 8])
  {
    var r: nat := 0;
    for i: nat := 0 to 8
      invariant r == FromLe(src[at..at + i])
    {
      var b := src[at + i];
      LoadStep(src[at..at + i], b);
      assert src[at..at + i] + [b] == src[at..at + (i + 1)];
      r := Or(r, b * Pow2(8 * i));
    }
    assert WordFromLe(src[at..at + 8]) == r;
    v := r;
  }

  /** Four words, as Uint256 keeps them and as bytes. */
  function HashToLe(h: seq<Word>): (r: seq<Byte>)
    requires |h| == 4
    ensures |r| == 32
  {
    ToLe(h[0], 8) + ToLe(h[1], 8) + ToLe(h[2], 8) + ToLe(h[3], 8)
  }

  function WordFromLe(bytes: seq<Byte>): (r: Word)
    requires |bytes| == 8
    ensures r == FromLe(bytes)
  {
    FromLeBound(bytes);
    Pow2Of64();
    FromLe(bytes)
  }

  function HashFromLe(bytes: seq<Byte>): (r: seq<Word>)
    requires |bytes| == 32
    ensures |r| == 4
  {
    [WordFromLe(bytes[..8]), WordFromLe(bytes[8..16]), WordFromLe(bytes[16..24]), WordFromLe(bytes[24..])]
  }

  lemma WordRoundTrip(w: Word)
    ensures WordFromLe(ToLe(w, 8)) == w
  {
    Pow2Of64();
    FromToLe(w, 8);
  }

  lemma HashRoundTrip(h: seq<Word>)
    requires |h| == 4
    ensures HashFromLe(HashToLe(h)) == h
  {
    var bytes := HashToLe(h);
    assert bytes[..8] == ToLe(h[0], 8) && bytes[8..16] == ToLe(h[1], 8);
    assert bytes[16..24] == ToLe(h[2], 8) && bytes[24..] == ToLe(h[3], 8);
    WordRoundTrip(h[0]);
    WordRoundTrip(h[1]);
    WordRoundTrip(h[2]);
    WordRoundTrip(h[3]);
  }
}
