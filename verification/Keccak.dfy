/**
 The permutation KECCAK-f[1600]: the step mappings of section 3.2 of FIPS 202 on lanes, and the
 kernel's in-place version of them (src/argon2_kernel.cl, keccak_f1600_state).

 Lanes are an arbitrary type W of words with the operations that the step mappings use.
 */
module Keccak {
  import Numbers = Bits
  import opened BitStrings

  datatype Words<!W> = Words(xor: (W, W) -> W, and: (W, W) -> W, or: (W, W) -> W, not: W -> W,
                             rotl: (W, nat) -> W, bit: (W, nat) -> bool)

  /** The operations act on the bits of words, and words with the same bits are equal. */
  ghost predicate Laws<W(!new)>(w: Words<W>) {
    && (forall a, b, i: nat {:trigger w.bit(w.xor(a, b), i)} | i < 64 ::
      w.bit(w.xor(a, b), i) <==> w.bit(a, i) != w.bit(b, i))
    && (forall a, b, i: nat {:trigger w.bit(w.and(a, b), i)} | i < 64 ::
      w.bit(w.and(a, b), i) <==> w.bit(a, i) && w.bit(b, i))
    && (forall a, b, i: nat {:trigger w.bit(w.or(a, b), i)} | i < 64 ::
      w.bit(w.or(a, b), i) <==> w.bit(a, i) || w.bit(b, i))
    && (forall a, i: nat {:trigger w.bit(w.not(a), i)} | i < 64 :: w.bit(w.not(a), i) <==> !w.bit(a, i))
    && (forall a, b {:trigger SameBits(w, a, b)} :: SameBits(w, a, b) ==> a == b)
    && (forall a, n: nat {:trigger w.rotl(w.not(a), n)} :: w.rotl(w.not(a), n) == w.not(w.rotl(a, n)))
    && (forall a :: w.rotl(a, 0) == a)
  }

  ghost predicate SameBits<W>(w: Words<W>, a: W, b: W) { forall i: nat | i < 64 :: w.bit(a, i) == w.bit(b, i) }

  /** The lane in column x and row y. */
  type State<!W> = (nat, nat) -> W

  ghost predicate Same<W>(s: State<W>, s': State<W>) {
    forall x: nat, y: nat | x < 5 && y < 5 :: s(x, y) == s'(x, y)
  }

  /** x + k modulo 5, for the sums that occur: those of a coordinate and at most 12 */
  function Plus(x: nat, k: nat): (r: nat)
    ensures r < 5
  {
    var n := x + k;
    if n < 5 then n else if n < 10 then n - 5 else if n < 15 then n - 10 else if n < 20 then n - 15 else 0
  }

  lemma PlusIsModular(x: nat, k: nat)
    requires x < 5 && k <= 12
    ensures Plus(x, k) == (x + k) % 5
  {
  }

  // ------------------------------------------------------------ FIPS 202, section 3.2

  function Parity<W>(w: Words<W>, s: State<W>, x: nat): W {
    w.xor(w.xor(w.xor(w.xor(s(x, 0), s(x, 1)), s(x, 2)), s(x, 3)), s(x, 4))
  }

  function Effect<W>(w: Words<W>, s: State<W>, x: nat): W {
    w.xor(Parity(w, s, Plus(x, 4)), w.rotl(Parity(w, s, Plus(x, 1)), 1))
  }

  function Theta<W>(w: Words<W>, s: State<W>): State<W> { (x: nat, y: nat) => w.xor(s(x, y), Effect(w, s, x)) }

  /** The offsets of rho modulo 64, lane x + 5y at index x + 5y. */
  const OFFSETS: seq<nat> := [0, 1, 62, 28, 27, 36, 44, 6, 55, 20, 3, 10, 43, 25, 39, 41, 45, 15, 21, 8, 18, 2, 61, 56,
                              14]

  function Offset(x: nat, y: nat): nat { if x < 5 && y < 5 then OFFSETS[x + 5 * y] else 0 }

  function Rho<W>(w: Words<W>, offset: (nat, nat) -> nat, s: State<W>): State<W> {
    (x: nat, y: nat) => w.rotl(s(x, y), offset(x, y))
  }

  function Pi<W>(s: State<W>): State<W> { (x: nat, y: nat) => s(Plus(x, 3 * y), x) }

  function Chi<W>(w: Words<W>, s: State<W>): State<W> {
    (x: nat, y: nat) => w.xor(s(x, y), w.and(w.not(s(Plus(x, 1), y)), s(Plus(x, 2), y)))
  }

  function Iota<W>(w: Words<W>, s: State<W>, rc: W): State<W> {
    (x: nat, y: nat) => if x == 0 && y == 0 then w.xor(s(0, 0), rc) else s(x, y)
  }

  /** One round, with rho's offsets and the round constant. */
  function Round<W>(w: Words<W>, offset: (nat, nat) -> nat, s: State<W>, rc: W): State<W> {
    Iota(w, Chi(w, Pi(Rho(w, offset, Theta(w, s)))), rc)
  }

  /** A step repeated over the first n of the rs. */
  function Iterate<S, R>(step: (S, R) -> S, rs: seq<R>, s: S, n: nat): S
    requires n <= |rs|
  {
    if n == 0 then s else step(Iterate(step, rs, s, n - 1), rs[n - 1])
  }

  /** A step repeated over the rs from the n-th on. */
  function IterateFrom<S, R>(step: (S, R) -> S, rs: seq<R>, s: S, n: nat): S
    requires n <= |rs|
    decreases |rs| - n
  {
    if n == |rs| then s else IterateFrom(step, rs, step(s, rs[n]), n + 1)
  }

  lemma {:induction false} IterateFromThere<S, R>(step: (S, R) -> S, rs: seq<R>, s: S, n: nat)
    requires n <= |rs|
    ensures IterateFrom(step, rs, Iterate(step, rs, s, n), n) == Iterate(step, rs, s, |rs|)
    decreases |rs| - n
  {
    if n < |rs| {
      IterateFromThere(step, rs, s, n + 1);
    }
  }

  function RoundStep<W>(w: Words<W>, offset: (nat, nat) -> nat): (State<W>, W) -> State<W> {
    (s, rc) => Round(w, offset, s, rc)
  }

  /** The first n rounds with the given round constants. */
  function Rounds<W>(w: Words<W>, offset: (nat, nat) -> nat, rndc: seq<W>, s: State<W>, n: nat): State<W>
    requires n <= |rndc|
  {
    Iterate(RoundStep(w, offset), rndc, s, n)
  }

  // ------------------------------------------------------------ the kernel, in place
  //
  // Word x + 5y of the kernel's array is kept at [x, y].

  ghost predicate Holds<W>(st: array2<W>, s: State<W>)
    reads st
  {
    st.Length0 == 5 && st.Length1 == 5 && forall x: nat, y: nat | x < 5 && y < 5 :: st[x, y] == s(x, y)
  }

  method Parities<W(0)>(w: Words<W>, st: array2<W>, ghost s: State<W>) returns (parities: seq<W>)
    requires Holds(st, s)
    ensures |parities| == 5 && forall k: nat | k < 5 :: parities[k] == Parity(w, s, k)
  {
    var bc := new W[5];
    for i: nat := 0 to 5
      invariant forall k: nat | k < i :: bc[k] == Parity(w, s, k)
    {
      bc[i] := w.xor(w.xor(w.xor(w.xor(st[i, 0], st[i, 1]), st[i, 2]), st[i, 3]), st[i, 4]);
    }
    parities := bc[..];
  }

  method XorColumn<W>(w: Words<W>, st: array2<W>, i: nat, t: W)
    requires st.Length0 == 5 && st.Length1 == 5 && i < 5
    modifies st
    ensures forall x: nat, y: nat | x < 5 && y < 5 ::
      st[x, y] == if x == i then w.xor(old(st[x, y]), t) else old(st[x, y])
  {
    for j: nat := 0 to 5
      invariant forall x: nat, y: nat | x < 5 && y < 5 ::
        st[x, y] == if x == i && y < j then w.xor(old(st[x, y]), t) else old(st[x, y])
    {
      st[i, j] := w.xor(st[i, j], t);
    }
  }

  method ThetaInPlace<W(0)>(w: Words<W>, st: array2<W>, ghost s: State<W>)
    requires Holds(st, s)
    modifies st
    ensures Holds(st, Theta(w, s))
  {
    hide Plus, Parity;
    var bc := Parities(w, st, s);
    for i: nat := 0 to 5
      invariant forall x: nat, y: nat | x < 5 && y < 5 :: st[x, y] == if x < i then Theta(w, s)(x, y) else s(x, y)
    {
      PlusIsModular(i, 4);
      PlusIsModular(i, 1);
      var t := w.xor(bc[(i + 4) % 5], w.rotl(bc[(i + 1) % 5], 1));
      assert t == Effect(w, s, i);
      XorColumn(w, st, i, t);
    }
  }

  method ChiRow<W(0)>(w: Words<W>, st: array2<W>, j: nat, ghost s: State<W>)
    requires st.Length0 == 5 && st.Length1 == 5 && j < 5
    requires forall x: nat | x < 5 :: st[x, j] == s(x, j)
    modifies st
    ensures forall x: nat, y: nat | x < 5 && y < 5 :: st[x, y] == if y == j then Chi(w, s)(x, y) else old(st[x, y])
  {
    var bc := new W[5];
    for i: nat := 0 to 5
      invariant forall x: nat, y: nat | x < 5 && y < 5 :: st[x, y] == old(st[x, y])
      invariant forall k: nat | k < i :: bc[k] == s(k, j)
    {
      bc[i] := st[i, j];
    }
    for i: nat := 0 to 5
      invariant forall k: nat | k < 5 :: bc[k] == s(k, j)
      invariant forall x: nat, y: nat | x < 5 && y < 5 ::
        st[x, y] == if y == j && x < i then Chi(w, s)(x, y) else old(st[x, y])
    {
      PlusIsModular(i, 1);
      PlusIsModular(i, 2);
      st[i, j] := w.xor(st[i, j], w.and(w.not(bc[(i + 1) % 5]), bc[(i + 2) % 5]));
    }
  }

  method ChiInPlace<W(0)>(w: Words<W>, st: array2<W>, ghost s: State<W>)
    requires Holds(st, s)
    modifies st
    ensures Holds(st, Chi(w, s))
  {
    for j: nat := 0 to 5
      invariant forall x: nat, y: nat | x < 5 && y < 5 :: st[x, y] == if y < j then Chi(w, s)(x, y) else s(x, y)
    {
      ChiRow(w, st, j, s);
    }
  }

  // rho and pi: one walk over all lanes but [0, 0], carrying each lane to its new place

  datatype Pos = Pos(x: nat, y: nat) {
    predicate InState() { x < 5 && y < 5 }
  }

  /**
   The places of a walk, the rotation of each step, where pi takes a lane from, rho's offsets, and the step that
   visits a lane.
   */
  datatype Walk = Walk(piln: seq<Pos>, rotc: seq<nat>, source: Pos -> Pos, offset: Pos -> nat, visit: Pos -> nat) {
    /** The lane that step i moves: the one that the step before it replaced. */
    function Carried(i: nat): Pos
      requires i <= |piln|
    {
      if i == 0 then Pos(1, 0) else piln[i - 1]
    }

    /** Every step moves a lane as pi and rho say, and every lane but [0, 0] is visited once. */
    ghost predicate Valid() {
      && |piln| == |rotc| == 24
      && (forall i | 0 <= i < 24 :: piln[i].InState() && piln[i] != Pos(0, 0) && visit(piln[i]) == i)
      && (forall i {:trigger Carried(i)} | 0 <= i < 24 ::
        source(piln[i]) == Carried(i) && offset(Carried(i)) == rotc[i])
      && (forall l: Pos | l.InState() && l != Pos(0, 0) :: visit(l) < 24 && piln[visit(l)] == l)
    }

    /** The state after i steps. */
    function After<W>(w: Words<W>, s: State<W>, i: nat): State<W> {
      (x: nat, y: nat) =>
        var l := Pos(x, y);
        if l != Pos(0, 0) && visit(l) < i then w.rotl(s(source(l).x, source(l).y), offset(source(l))) else s(x, y)
    }

    lemma Next<W>(w: Words<W>, s: State<W>, i: nat, l: Pos)
      requires Valid() && i < 24 && l.InState()
      ensures After(w, s, i + 1)(l.x, l.y)
           == if l == piln[i] then w.rotl(s(Carried(i).x, Carried(i).y), rotc[i]) else After(w, s, i)(l.x, l.y)
      ensures l == piln[i] ==> After(w, s, i)(l.x, l.y) == s(l.x, l.y)
    {
      if l != Pos(0, 0) {
        assert visit(l) == i <==> l == piln[i];
      }
    }

    lemma Complete<W>(w: Words<W>, s: State<W>, l: Pos)
      requires Valid() && l.InState()
      ensures After(w, s, 24)(l.x, l.y)
           == if l == Pos(0, 0) then s(0, 0) else w.rotl(s(source(l).x, source(l).y), offset(source(l)))
    {
    }
  }

  method RhoPiInPlace<W>(w: Words<W>, st: array2<W>, walk: Walk, ghost s: State<W>)
    requires Holds(st, s) && walk.Valid()
    modifies st
    ensures Holds(st, walk.After(w, s, 24))
  {
    var t := st[1, 0];
    for i: nat := 0 to 24
      invariant t == s(walk.Carried(i).x, walk.Carried(i).y)
      invariant Holds(st, walk.After(w, s, i))
    {
      var l := walk.piln[i];
      var bc := st[l.x, l.y];
      st[l.x, l.y] := w.rotl(t, walk.rotc[i]);
      t := bc;
      walk.Next(w, s, i, l);
      forall x: nat, y: nat | x < 5 && y < 5 ensures st[x, y] == walk.After(w, s, i + 1)(x, y) {
        walk.Next(w, s, i, Pos(x, y));
      }
    }
  }

  // ------------------------------------------------------------ the tables of the kernel

  const ROTC: seq<nat> := [1, 3, 6, 10, 15, 21, 28, 36, 45, 55, 2, 14, 27, 41, 56, 8, 25, 43, 62, 18, 39, 61, 20, 44]

  const PILN: seq<nat> := [10, 7, 11, 17, 18, 3, 5, 16, 8, 21, 24, 4, 15, 23, 19, 13, 12, 2, 20, 14, 22, 9, 6, 1]

  /** The step that visits word x + 5y, if it is not word 0. */
  const VISIT: seq<nat> := [0, 23, 17, 5, 11, 6, 22, 1, 8, 21, 0, 2, 16, 15, 19, 12, 7, 3, 4, 14, 18, 9, 20, 13, 10]

  function Visit(l: Pos): nat { if l.InState() then VISIT[l.x + 5 * l.y] else 0 }

  function PiSource(l: Pos): Pos { Pos(Plus(l.x, 3 * l.y), l.x) }

  function KernelWalk(): Walk {
    Walk(seq(24, i requires 0 <= i < 24 => Pos(PILN[i] % 5, PILN[i] / 5)), ROTC, PiSource, (l: Pos) => Offset(l.x, l.y),
         Visit)
  }

  lemma StepOfWalk(i: nat)
    requires i < 24
    ensures var l := Pos(PILN[i] % 5, PILN[i] / 5);
            l.InState() && l != Pos(0, 0) && Visit(l) == i
  {
  }

  /** The word that step i moves. */
  function CarriedWord(i: nat): nat
    requires i < 24
  {
    if i == 0 then 1 else PILN[i - 1]
  }

  lemma SourceOfStep(i: nat)
    requires i < 24
    ensures PiSource(Pos(PILN[i] % 5, PILN[i] / 5)) == Pos(CarriedWord(i) % 5, CarriedWord(i) / 5)
  {
  }

  lemma OffsetOfStep(i: nat)
    requires i < 24
    ensures CarriedWord(i) < 25 && OFFSETS[CarriedWord(i)] == ROTC[i]
  {
  }

  /**
   The walk and its rotations are those of algorithm 2 of section 3.2.2: from (x, y) to (y, 2x + 3y), by
   (t + 1)(t + 2) / 2.
   */
  lemma WalkOfStandard(t: nat)
    requires t < 24
    ensures var x, y := CarriedWord(t) % 5, CarriedWord(t) / 5;
            ROTC[t] == (t + 1) * (t + 2) / 2 % 64 && PILN[t] == y + 5 * ((2 * x + 3 * y) % 5)
  {
    hide CarriedWord;
    RotationOfStandard(t);
    if t < 12 { FirstPlaces(t); } else { LastPlaces(t); }
  }

  lemma FirstPlaces(t: nat)
    requires t < 12
    ensures var x, y := CarriedWord(t) % 5, CarriedWord(t) / 5; PILN[t] == y + 5 * ((2 * x + 3 * y) % 5)
  {
  }

  lemma LastPlaces(t: nat)
    requires 12 <= t < 24
    ensures var x, y := CarriedWord(t) % 5, CarriedWord(t) / 5; PILN[t] == y + 5 * ((2 * x + 3 * y) % 5)
  {
  }

  lemma RotationOfStandard(t: nat)
    requires t < 24
    ensures ROTC[t] == (t + 1) * (t + 2) / 2 % 64
  {
  }

  lemma StepOfWord(j: nat)
    requires 1 <= j < 25
    ensures VISIT[j] < 24 && PILN[VISIT[j]] == j
  {
  }

  lemma StepOfKernelWalk(i: nat)
    requires i < 24
    ensures var walk := KernelWalk();
            && walk.piln[i].InState() && walk.piln[i] != Pos(0, 0) && walk.visit(walk.piln[i]) == i
            && walk.source(walk.piln[i]) == walk.Carried(i) && walk.offset(walk.Carried(i)) == walk.rotc[i]
  {
    hide Visit, PiSource;
    StepOfWalk(i);
    SourceOfStep(i);
    OffsetOfStep(i);
  }

  lemma VisitOfKernelWalk(l: Pos)
    requires l.InState() && l != Pos(0, 0)
    ensures KernelWalk().visit(l) < 24 && KernelWalk().piln[KernelWalk().visit(l)] == l
  {
    StepOfWord(l.x + 5 * l.y);
  }

  lemma KernelWalkIsValid()
    ensures KernelWalk().Valid()
  {
    var walk := KernelWalk();
    forall i | 0 <= i < 24
      ensures walk.piln[i].InState() && walk.piln[i] != Pos(0, 0) && walk.visit(walk.piln[i]) == i
      ensures walk.source(walk.piln[i]) == walk.Carried(i) && walk.offset(walk.Carried(i)) == walk.rotc[i]
    {
      StepOfKernelWalk(i);
    }
    forall l: Pos | l.InState() && l != Pos(0, 0) ensures walk.visit(l) < 24 && walk.piln[walk.visit(l)] == l {
      VisitOfKernelWalk(l);
    }
  }

  /** A whole walk is rho followed by pi. */
  lemma WalkIsRhoPi<W>(w: Words<W>, walk: Walk, offset: (nat, nat) -> nat, s: State<W>)
    requires walk.Valid() && walk.source == PiSource && forall l: Pos :: walk.offset(l) == offset(l.x, l.y)
    requires w.rotl(s(0, 0), offset(0, 0)) == s(0, 0)
    ensures Same(walk.After(w, s, 24), Pi(Rho(w, offset, s)))
  {
    forall x: nat, y: nat | x < 5 && y < 5 ensures walk.After(w, s, 24)(x, y) == Pi(Rho(w, offset, s))(x, y) {
      var l := Pos(x, y);
      var from := PiSource(l);
      walk.Complete(w, s, l);
      assert walk.source(l) == from;
      assert Pi(Rho(w, offset, s))(x, y) == Rho(w, offset, s)(from.x, from.y);
    }
  }

  lemma NextRound<W>(w: Words<W>, offset: (nat, nat) -> nat, rndc: seq<W>, s: State<W>, n: nat)
    requires n < |rndc|
    ensures Rounds(w, offset, rndc, s, n + 1) == Round(w, offset, Rounds(w, offset, rndc, s, n), rndc[n])
  {
  }

  /** keccak_f1600_state: the rounds of the standard, one after the other and in place. */
  method F1600InPlace<W(0,!new)>(w: Words<W>, st: array2<W>, rndc: seq<W>, ghost s: State<W>)
    requires Holds(st, s) && Laws(w) && |rndc| == 24
    modifies st
    ensures Holds(st, Rounds(w, Offset, rndc, s, 24))
  {
    ghost var t := s;
    for round: nat := 0 to 24
      invariant Holds(st, t) && t == Rounds(w, Offset, rndc, s, round)
    {
      NextRound(w, Offset, rndc, s, round);
      t := KeccakRound(w, st, rndc[round], t);
    }
  }

  method KeccakRound<W(0,!new)>(w: Words<W>, st: array2<W>, rc: W, ghost s: State<W>) returns (ghost t: State<W>)
    requires Holds(st, s) && Laws(w)
    modifies st
    ensures Holds(st, t) && t == Round(w, Offset, s, rc)
  {
    RoundInPlace(w, st, rc, s);
    t := Round(w, Offset, s, rc);
  }

  method RoundInPlace<W(0,!new)>(w: Words<W>, st: array2<W>, rc: W, ghost s: State<W>)
    requires Holds(st, s) && Laws(w)
    modifies st
    ensures Holds(st, Round(w, Offset, s, rc))
  {
    ThetaInPlace(w, st, s);
    KernelWalkIsValid();
    RhoPiInPlace(w, st, KernelWalk(), Theta(w, s));
    OriginStays(w, Theta(w, s));
    WalkIsRhoPi(w, KernelWalk(), Offset, Theta(w, s));
    ChiInPlace(w, st, Pi(Rho(w, Offset, Theta(w, s))));
    st[0, 0] := w.xor(st[0, 0], rc);
  }

  lemma OriginStays<W(!new)>(w: Words<W>, s: State<W>)
    requires Laws(w)
    ensures w.rotl(s(0, 0), Offset(0, 0)) == s(0, 0)
  {
  }

  // ------------------------------------------------------------ 64-bit words

  /** A lane as in section 3.1.2 of FIPS 202: a string of 64 bits, the least significant first. */
  type Bits = b: seq<bool> | |b| == 64 witness seq(64, _ => false)

  function Zip(f: (bool, bool) -> bool, a: Bits, b: Bits): (r: Bits)
    ensures forall i | 0 <= i < 64 :: r[i] == f(a[i], b[i])
  {
    seq(64, i requires 0 <= i < 64 => f(a[i], b[i]))
  }

  function Not(a: Bits): (r: Bits)
    ensures forall i | 0 <= i < 64 :: r[i] == !a[i]
  {
    seq(64, i requires 0 <= i < 64 => !a[i])
  }

  function RotateLeft(a: Bits, n: nat): Bits { a[64 - n % 64..] + a[..64 - n % 64] }

  function Words64(): Words<Bits> {
    Words((a, b) => Zip((x, y) => x != y, a, b), (a, b) => Zip((x, y) => x && y, a, b),
          (a, b) => Zip((x, y) => x || y, a, b),
          Not, RotateLeft, (a: Bits, i: nat) => i < 64 && a[i])
  }

  /** Bit i goes up by n places, and the highest bits come in below. */
  lemma RotateLeftAt(a: Bits, n: nat, i: nat)
    requires i < 64
    ensures RotateLeft(a, n)[(i + n) % 64] == a[i]
  {
    var k := n % 64;
    assert (i + n) % 64 == if i < 64 - k then i + k else i + k - 64;
  }

  /** As a number: multiplication by 2^n modulo 2^64, and what overflows is added below. */
  lemma RotateLeftValue(a: Bits, n: nat)
    requires n < 64
    ensures ValueOf(RotateLeft(a, n))
         == ValueOf(a) * Numbers.Pow2(n) % Numbers.U64 + ValueOf(a) / Numbers.Pow2(64 - n)
  {
    hide Numbers.Pow2, ValueOf;
    Numbers.Pow2Of64();
    TurnedValue(a, 64 - n);
    ScaledRemainder(ValueOf(a), 64, n);
  }

  /** The other operations as numbers. */
  lemma OperationsOnNumbers(a: Bits, b: Bits)
    ensures var w := Words64();
            && ValueOf(w.xor(a, b)) == Numbers.Xor(ValueOf(a), ValueOf(b))
            && ValueOf(w.and(a, b)) == Numbers.And(ValueOf(a), ValueOf(b))
            && ValueOf(w.or(a, b)) == Numbers.Or(ValueOf(a), ValueOf(b))
            && ValueOf(w.not(a)) + ValueOf(a) == Numbers.U64 - 1
  {
    var w := Words64();
    ValueOfZip((x, y) => x != y, a, b, w.xor(a, b));
    ValueOfZip((x, y) => x && y, a, b, w.and(a, b));
    ValueOfZip((x, y) => x || y, a, b, w.or(a, b));
    Numbers.Pow2Of64();
    ValueOfNot(a, w.not(a));
  }

  /** The words of the machine obey the laws, so the results hold for them. */
  lemma Words64Laws()
    ensures Laws(Words64())
  {
    var w := Words64();
    forall a: Bits, b: Bits | SameBits(w, a, b) ensures a == b {
      forall i: nat | i < 64 ensures a[i] == b[i] { assert w.bit(a, i) == w.bit(b, i); }
    }
    forall a: Bits, n: nat ensures w.rotl(w.not(a), n) == w.not(w.rotl(a, n)) {
      assert RotateLeft(Not(a), n) == Not(RotateLeft(a, n));
    }
    forall a: Bits ensures w.rotl(a, 0) == a {
      assert a[64..] + a[..64] == a;
    }
  }
}
