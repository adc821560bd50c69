/**
 The assembly version of KECCAK-f[1600] (src/asm/keccakf1600_x86-64-elf.s): two state buffers that
 change places every round, six lanes kept complemented, and NOT-AND replaced by AND and OR.
 */
module KeccakAssembly {
  import opened Keccak

  /** Lanes 1, 2, 8, 12, 17 and 20 are stored complemented. */
  predicate Complemented(x: nat, y: nat) {
    x + 5 * y in {1, 2, 8, 12, 17, 20}
  }

  /** A lane as it is stored: complemented or not. */
  function Stored<W>(w: Words<W>, complemented: bool, v: W): W { if complemented then w.not(v) else v }

  function Coded<W>(w: Words<W>, s: State<W>): State<W> {
    (x: nat, y: nat) => Stored(w, Complemented(x, y), s(x, y))
  }

  lemma Equal<W(!new)>(w: Words<W>, a: W, b: W)
    requires Laws(w) && SameBits(w, a, b)
    ensures a == b
  {
  }

  /** chi on one lane */
  function ChiWord<W>(w: Words<W>, a: W, b: W, c: W): W { w.xor(a, w.and(w.not(b), c)) }

  // The five planes, between the loads and the stores: the arguments are the lanes that theta and
  // rho have produced, complemented as the comments say.

  method Plane0<W(!new)>(w: Words<W>, r8_: W, r9_: W, r10_: W, r11_: W, r12_: W, rc: W,
                         ghost b0: W, ghost b1: W, ghost b2: W, ghost b3: W, ghost b4: W)
    returns (o0: W, o1: W, o2: W, o3: W, o4: W)
    requires Laws(w)
    requires r8_ == w.not(b0) && r9_ == b1 && r10_ == w.not(b2) && r11_ == w.not(b3) && r12_ == b4
    ensures o0 == w.xor(ChiWord(w, b0, b1, b2), rc)
    ensures o1 == w.not(ChiWord(w, b1, b2, b3))
    ensures o2 == w.not(ChiWord(w, b2, b3, b4))
    ensures o3 == ChiWord(w, b3, b4, b0)
    ensures o4 == ChiWord(w, b4, b0, b1)
  {
    var r8, r9, r10, r11, r12 := r8_, r9_, r10_, r11_, r12_;
    var r13 := r9;
    r9 := w.or(r9, r10);
    r9 := w.xor(r9, r8);
    r9 := w.xor(r9, rc);
    var r14 := r12;
    r12 := w.and(r12, r11);
    o0 := r9;
    r12 := w.xor(r12, r10);
    r10 := w.not(r10);
    o2 := r12;
    r10 := w.or(r10, r11);
    r10 := w.xor(r10, r13);
    o1 := r10;
    r13 := w.and(r13, r8);
    r13 := w.xor(r13, r14);
    o4 := r13;
    r14 := w.or(r14, r8);
    r14 := w.xor(r14, r11);
    o3 := r14;
    Equal(w, o0, w.xor(ChiWord(w, b0, b1, b2), rc));
    Equal(w, o1, w.not(ChiWord(w, b1, b2, b3)));
    Equal(w, o2, w.not(ChiWord(w, b2, b3, b4)));
    Equal(w, o3, ChiWord(w, b3, b4, b0));
    Equal(w, o4, ChiWord(w, b4, b0, b1));
  }

  method Plane1<W(!new)>(w: Words<W>, r8_: W, r9_: W, r10_: W, r11_: W, r12_: W,
                         ghost b0: W, ghost b1: W, ghost b2: W, ghost b3: W, ghost b4: W)
    returns (o0: W, o1: W, o2: W, o3: W, o4: W)
    requires Laws(w)
    requires r8_ == w.not(b0) && r9_ == b1 && r10_ == w.not(b2) && r11_ == b3 && r12_ == b4
    ensures o0 == ChiWord(w, b0, b1, b2)
    ensures o1 == ChiWord(w, b1, b2, b3)
    ensures o2 == ChiWord(w, b2, b3, b4)
    ensures o3 == w.not(ChiWord(w, b3, b4, b0))
    ensures o4 == ChiWord(w, b4, b0, b1)
  {
    var r8, r9, r10, r11, r12 := r8_, r9_, r10_, r11_, r12_;
    var r13 := r8;
    r8 := w.or(r8, r12);
    r8 := w.xor(r8, r11);
    o3 := r8;
    var r14 := r9;
    r9 := w.and(r9, r13);
    r9 := w.xor(r9, r12);
    r12 := w.not(r12);
    o4 := r9;
    r12 := w.or(r12, r11);
    r12 := w.xor(r12, r10);
    o2 := r12;
    r11 := w.and(r11, r10);
    r11 := w.xor(r11, r14);
    o1 := r11;
    r14 := w.or(r14, r10);
    r14 := w.xor(r14, r13);
    o0 := r14;
    Equal(w, o0, ChiWord(w, b0, b1, b2));
    Equal(w, o1, ChiWord(w, b1, b2, b3));
    Equal(w, o2, ChiWord(w, b2, b3, b4));
    Equal(w, o3, w.not(ChiWord(w, b3, b4, b0)));
    Equal(w, o4, ChiWord(w, b4, b0, b1));
  }

  method Plane2<W(!new)>(w: Words<W>, r8_: W, r9_: W, r10_: W, r11_: W, r12_: W,
                         ghost b0: W, ghost b1: W, ghost b2: W, ghost b3: W, ghost b4: W)
    returns (o0: W, o1: W, o2: W, o3: W, o4: W)
    requires Laws(w)
    requires r8_ == w.not(b0) && r9_ == b1 && r10_ == w.not(b2) && r11_ == b3 && r12_ == b4
    ensures o0 == ChiWord(w, b0, b1, b2)
    ensures o1 == ChiWord(w, b1, b2, b3)
    ensures o2 == w.not(ChiWord(w, b2, b3, b4))
    ensures o3 == ChiWord(w, b3, b4, b0)
    ensures o4 == ChiWord(w, b4, b0, b1)
  {
    var r8, r9, r10, r11, r12 := r8_, r9_, r10_, r11_, r12_;
    var r13 := r10;
    r10 := w.and(r10, r11);
    r11 := w.not(r11);
    r10 := w.xor(r10, r9);
    o1 := r10;
    var r14 := r12;
    r12 := w.and(r12, r11);
    r12 := w.xor(r12, r13);
    o2 := r12;
    r13 := w.or(r13, r9);
    r13 := w.xor(r13, r8);
    o0 := r13;
    r9 := w.and(r9, r8);
    r9 := w.xor(r9, r14);
    o4 := r9;
    r14 := w.or(r14, r8);
    r14 := w.xor(r14, r11);
    o3 := r14;
    Equal(w, o0, ChiWord(w, b0, b1, b2));
    Equal(w, o1, ChiWord(w, b1, b2, b3));
    Equal(w, o2, w.not(ChiWord(w, b2, b3, b4)));
    Equal(w, o3, ChiWord(w, b3, b4, b0));
    Equal(w, o4, ChiWord(w, b4, b0, b1));
  }

  method Plane3<W(!new)>(w: Words<W>, r8_: W, r9_: W, r10_: W, r11_: W, r12_: W,
                         ghost b0: W, ghost b1: W, ghost b2: W, ghost b3: W, ghost b4: W)
    returns (o0: W, o1: W, o2: W, o3: W, o4: W)
    requires Laws(w)
    requires r8_ == b0 && r9_ == w.not(b1) && r10_ == b2 && r11_ == w.not(b3) && r12_ == w.not(b4)
    ensures o0 == ChiWord(w, b0, b1, b2)
    ensures o1 == ChiWord(w, b1, b2, b3)
    ensures o2 == w.not(ChiWord(w, b2, b3, b4))
    ensures o3 == ChiWord(w, b3, b4, b0)
    ensures o4 == ChiWord(w, b4, b0, b1)
  {
    var r8, r9, r10, r11, r12 := r8_, r9_, r10_, r11_, r12_;
    var r13 := r10;
    r10 := w.or(r10, r11);
    r11 := w.not(r11);
    r10 := w.xor(r10, r9);
    o1 := r10;
    var r14 := r12;
    r12 := w.or(r12, r11);
    r12 := w.xor(r12, r13);
    o2 := r12;
    r13 := w.and(r13, r9);
    r13 := w.xor(r13, r8);
    o0 := r13;
    r9 := w.or(r9, r8);
    r9 := w.xor(r9, r14);
    o4 := r9;
    r8 := w.and(r8, r14);
    r8 := w.xor(r8, r11);
    o3 := r8;
    Equal(w, o0, ChiWord(w, b0, b1, b2));
    Equal(w, o1, ChiWord(w, b1, b2, b3));
    Equal(w, o2, w.not(ChiWord(w, b2, b3, b4)));
    Equal(w, o3, ChiWord(w, b3, b4, b0));
    Equal(w, o4, ChiWord(w, b4, b0, b1));
  }

  method Plane4<W(!new)>(w: Words<W>, rax_: W, rbx_: W, rcx_: W, rdx_: W, rbp_: W,
                         ghost b0: W, ghost b1: W, ghost b2: W, ghost b3: W, ghost b4: W)
    returns (rax: W, rbx: W, rcx: W, rdx: W, rbp: W)
    requires Laws(w)
    requires rax_ == b2 && rbx_ == w.not(b3) && rcx_ == b4 && rdx_ == w.not(b0) && rbp_ == b1
    ensures rax == w.not(ChiWord(w, b0, b1, b2))
    ensures rbx == ChiWord(w, b1, b2, b3)
    ensures rcx == ChiWord(w, b2, b3, b4)
    ensures rdx == ChiWord(w, b3, b4, b0)
    ensures rbp == ChiWord(w, b4, b0, b1)
  {
    rax, rbx, rcx, rdx, rbp := rax_, rbx_, rcx_, rdx_, rbp_;
    var r13 := rdx;
    rdx := w.and(rdx, rbp);
    rbp := w.not(rbp);
    rdx := w.xor(rdx, rcx);
    var r14 := rax;
    rax := w.and(rax, rbp);
    rax := w.xor(rax, r13);
    r13 := w.or(r13, rcx);
    r13 := w.xor(r13, rbx);
    rcx := w.and(rcx, rbx);
    rcx := w.xor(rcx, r14);
    rbx := w.or(rbx, r14);
    rbx := w.xor(rbx, rbp);
    rbp := rdx;
    rdx := r13;
    Equal(w, rax, w.not(ChiWord(w, b0, b1, b2)));
    Equal(w, rbx, ChiWord(w, b1, b2, b3));
    Equal(w, rcx, ChiWord(w, b2, b3, b4));
    Equal(w, rdx, ChiWord(w, b3, b4, b0));
    Equal(w, rbp, ChiWord(w, b4, b0, b1));
  }

  // ------------------------------------------------------------ theta and rho on complemented lanes

  /** The buffer holds the state; lane (x, y) is at byte 8 * (x + 5 * y) - 100 from the register that points to it. */
  ghost predicate HoldsFlat<W>(a: array<W>, s: State<W>)
    reads a
  {
    a.Length == 25 && RowHolds(a, s, 0) && RowHolds(a, s, 1) && RowHolds(a, s, 2) && RowHolds(a, s, 3)
      && RowHolds(a, s, 4)
  }

  ghost predicate RowHolds<W>(a: array<W>, s: State<W>, y: nat)
    requires a.Length == 25 && y < 5
    reads a
  {
    a[5 * y] == s(0, y) && a[1 + 5 * y] == s(1, y) && a[2 + 5 * y] == s(2, y) && a[3 + 5 * y] == s(3, y)
      && a[4 + 5 * y] == s(4, y)
  }

  /** The registers that carry the effect of theta from plane to plane; those of columns 0 and 3 are complemented. */
  datatype Effects<W> = Effects(rax: W, rbx: W, rcx: W, rdx: W, rbp: W)

  ghost predicate AreEffects<W>(w: Words<W>, s: State<W>, d: Effects<W>) {
    && d.rbx == w.not(Effect(w, s, 0)) && d.rcx == Effect(w, s, 1) && d.rdx == Effect(w, s, 2)
    && d.rbp == w.not(Effect(w, s, 3)) && d.rax == Effect(w, s, 4)
  }

  /** The column parities of a coded state, in any order of its lanes: odd columns come out complemented. */
  lemma CodedParities<W(!new)>(w: Words<W>, s: State<W>)
    requires Laws(w)
    ensures var c := Coded(w, s);
            && w.xor(w.xor(w.xor(w.xor(c(0, 4), c(0, 0)), c(0, 1)), c(0, 2)), c(0, 3)) == w.not(Parity(w, s, 0))
            && w.xor(w.xor(w.xor(w.xor(c(1, 4), c(1, 0)), c(1, 1)), c(1, 2)), c(1, 3)) == w.not(Parity(w, s, 1))
            && w.xor(w.xor(w.xor(w.xor(c(2, 4), c(2, 0)), c(2, 1)), c(2, 2)), c(2, 3)) == w.not(Parity(w, s, 2))
            && w.xor(w.xor(w.xor(w.xor(c(3, 4), c(3, 0)), c(3, 1)), c(3, 2)), c(3, 3)) == w.not(Parity(w, s, 3))
            && w.xor(w.xor(w.xor(w.xor(c(4, 4), c(4, 0)), c(4, 1)), c(4, 2)), c(4, 3)) == Parity(w, s, 4)
  {
    var c := Coded(w, s);
    Equal(w, w.xor(w.xor(w.xor(w.xor(c(0, 4), c(0, 0)), c(0, 1)), c(0, 2)), c(0, 3)), w.not(Parity(w, s, 0)));
    Equal(w, w.xor(w.xor(w.xor(w.xor(c(1, 4), c(1, 0)), c(1, 1)), c(1, 2)), c(1, 3)), w.not(Parity(w, s, 1)));
    Equal(w, w.xor(w.xor(w.xor(w.xor(c(2, 4), c(2, 0)), c(2, 1)), c(2, 2)), c(2, 3)), w.not(Parity(w, s, 2)));
    Equal(w, w.xor(w.xor(w.xor(w.xor(c(3, 4), c(3, 0)), c(3, 1)), c(3, 2)), c(3, 3)), w.not(Parity(w, s, 3)));
    Equal(w, w.xor(w.xor(w.xor(w.xor(c(4, 4), c(4, 0)), c(4, 1)), c(4, 2)), c(4, 3)), Parity(w, s, 4));
  }

  /** The effects from parities of which only that of column 4 is not complemented. */
  lemma CodedEffects<W(!new)>(w: Words<W>, a: W, b: W)
    requires Laws(w)
    ensures w.xor(w.rotl(w.not(b), 1), w.not(a)) == w.xor(a, w.rotl(b, 1))
    ensures w.xor(w.rotl(b, 1), w.not(a)) == w.not(w.xor(a, w.rotl(b, 1)))
    ensures w.xor(w.rotl(w.not(b), 1), a) == w.not(w.xor(a, w.rotl(b, 1)))
  {
    Equal(w, w.xor(w.rotl(w.not(b), 1), w.not(a)), w.xor(a, w.rotl(b, 1)));
    Equal(w, w.xor(w.rotl(b, 1), w.not(a)), w.not(w.xor(a, w.rotl(b, 1))));
    Equal(w, w.xor(w.rotl(w.not(b), 1), a), w.not(w.xor(a, w.rotl(b, 1))));
  }

  /** A stored lane with its stored effect mixed in and rotated is the stored lane of rho after theta. */
  lemma RotatedLane<W(!new)>(w: Words<W>, c: bool, v: W, d: bool, e: W, n: nat)
    requires Laws(w)
    ensures w.rotl(w.xor(Stored(w, c, v), Stored(w, d, e)), n) == Stored(w, c != d, w.rotl(w.xor(v, e), n))
  {
    Equal(w, w.xor(Stored(w, c, v), Stored(w, d, e)), Stored(w, c != d, w.xor(v, e)));
  }

  // ------------------------------------------------------------ one round

  /** The column parities and the effects of theta; rax to rbp hold row 4 when a round starts. */
  method AsmTheta<W(!new)>(w: Words<W>, rdi: array<W>, rax_: W, rbx_: W, rcx_: W, rdx_: W, rbp_: W, ghost s: State<W>)
    returns (d: Effects<W>)
    requires Laws(w) && HoldsFlat(rdi, Coded(w, s))
    requires rax_ == rdi[20] && rbx_ == rdi[21] && rcx_ == rdi[22] && rdx_ == rdi[23] && rbp_ == rdi[24]
    ensures AreEffects(w, s, d)
  {
    ghost var c := Coded(w, s);
    assert rdi[0] == c(0, 0) && rdi[5] == c(0, 1) && rdi[10] == c(0, 2) && rdi[15] == c(0, 3) && rdi[20] == c(0, 4);
    assert rdi[1] == c(1, 0) && rdi[6] == c(1, 1) && rdi[11] == c(1, 2) && rdi[16] == c(1, 3) && rdi[21] == c(1, 4);
    assert rdi[2] == c(2, 0) && rdi[7] == c(2, 1) && rdi[12] == c(2, 2) && rdi[17] == c(2, 3) && rdi[22] == c(2, 4);
    assert rdi[3] == c(3, 0) && rdi[8] == c(3, 1) && rdi[13] == c(3, 2) && rdi[18] == c(3, 3) && rdi[23] == c(3, 4);
    assert rdi[4] == c(4, 0) && rdi[9] == c(4, 1) && rdi[14] == c(4, 2) && rdi[19] == c(4, 3) && rdi[24] == c(4, 4);
    CodedParities(w, s);

    var rax, rbx, rcx, rdx, rbp := rax_, rbx_, rcx_, rdx_, rbp_;
    var r8, r9, r10, r11 := rdi[0], rdi[6], rdi[12], rdi[18];
    rcx := w.xor(rcx, rdi[2]);
    rdx := w.xor(rdx, rdi[3]);
    rax := w.xor(rax, r8);
    rbx := w.xor(rbx, rdi[1]);
    rcx := w.xor(rcx, rdi[7]);
    rax := w.xor(rax, rdi[5]);
    rbp := w.xor(rbp, rdi[4]);
    rcx := w.xor(rcx, r10);
    rax := w.xor(rax, rdi[10]);
    rdx := w.xor(rdx, rdi[8]);
    rbx := w.xor(rbx, r9);
    rbp := w.xor(rbp, rdi[9]);
    rcx := w.xor(rcx, rdi[17]);
    rax := w.xor(rax, rdi[15]);
    rdx := w.xor(rdx, rdi[13]);
    rbx := w.xor(rbx, rdi[11]);
    rbp := w.xor(rbp, rdi[14]);
    var r13 := rcx;
    rcx := w.rotl(rcx, 1);
    rcx := w.xor(rcx, rax);
    rdx := w.xor(rdx, r11);
    rax := w.rotl(rax, 1);
    rax := w.xor(rax, rdx);
    rbx := w.xor(rbx, rdi[16]);
    rdx := w.rotl(rdx, 1);
    rdx := w.xor(rdx, rbx);
    rbp := w.xor(rbp, rdi[19]);
    rbx := w.rotl(rbx, 1);
    rbx := w.xor(rbx, rbp);
    rbp := w.rotl(rbp, 1);
    rbp := w.xor(rbp, r13);
    CodedEffects(w, Parity(w, s, 4), Parity(w, s, 1));
    CodedEffects(w, Parity(w, s, 0), Parity(w, s, 2));
    CodedEffects(w, Parity(w, s, 1), Parity(w, s, 3));
    CodedEffects(w, Parity(w, s, 2), Parity(w, s, 4));
    CodedEffects(w, Parity(w, s, 3), Parity(w, s, 0));
    d := Effects(rax, rbx, rcx, rdx, rbp);
  }

  /** The table of rho's offsets, lane by lane. */
  ghost predicate RhoOffsets(offset: (nat, nat) -> nat) {
    && offset(0, 0) == 0 && offset(1, 0) == 1 && offset(2, 0) == 62 && offset(3, 0) == 28 && offset(4, 0) == 27
    && offset(0, 1) == 36 && offset(1, 1) == 44 && offset(2, 1) == 6 && offset(3, 1) == 55 && offset(4, 1) == 20
    && offset(0, 2) == 3 && offset(1, 2) == 10 && offset(2, 2) == 43 && offset(3, 2) == 25 && offset(4, 2) == 39
    && offset(0, 3) == 41 && offset(1, 3) == 45 && offset(2, 3) == 15 && offset(3, 3) == 21 && offset(4, 3) == 8
    && offset(0, 4) == 18 && offset(1, 4) == 2 && offset(2, 4) == 61 && offset(3, 4) == 56 && offset(4, 4) == 14
  }

  /** The state after theta, rho and pi. */
  function Moved<W>(w: Words<W>, offset: (nat, nat) -> nat, s: State<W>): State<W> { Pi(Rho(w, offset, Theta(w, s))) }

  /** Where lane (x, y) comes from, and how it is stored before chi. */
  lemma MovedLane<W(!new)>(w: Words<W>, offset: (nat, nat) -> nat, s: State<W>, x: nat, y: nat, n: nat)
    requires Laws(w) && x < 5 && y < 5 && n == offset(Plus(x, 3 * y), x)
    ensures var from := Plus(x, 3 * y);
            var odd := from == 0 || from == 3;
            w.rotl(w.xor(Coded(w, s)(from, x), Stored(w, odd, Effect(w, s, from))), n)
            == Stored(w, Complemented(from, x) != odd, Moved(w, offset, s)(x, y))
  {
    var from := Plus(x, 3 * y);
    RotatedLane(w, Complemented(from, x), s(from, x), from == 0 || from == 3, Effect(w, s, from), n);
    assert Moved(w, offset, s)(x, y) == Rho(w, offset, Theta(w, s))(from, x);
    assert Rho(w, offset, Theta(w, s))(from, x) == w.rotl(Theta(w, s)(from, x), n);
  }

  /** A row of chi is stored complemented where the buffer says so; iota only touches lane (0, 0). */
  lemma RowOutput<W(!new)>(w: Words<W>, offset: (nat, nat) -> nat, s: State<W>, rc: W, x: nat, y: nat)
    requires x < 5 && y < 5
    ensures var b := Moved(w, offset, s);
            var v := ChiWord(w, b(x, y), b(Plus(x, 1), y), b(Plus(x, 2), y));
            Coded(w, Round(w, offset, s, rc))(x, y)
              == Stored(w, Complemented(x, y), if x == 0 && y == 0 then w.xor(v, rc) else v)
  {
  }

  lemma Row0Inputs<W(!new)>(w: Words<W>, offset: (nat, nat) -> nat, s: State<W>, d: Effects<W>, r8: W, r9: W, r10: W,
                            r11: W, r12: W)
    requires Laws(w) && RhoOffsets(offset) && AreEffects(w, s, d)
    requires r8 == Coded(w, s)(0, 0) && r9 == Coded(w, s)(1, 1) && r10 == Coded(w, s)(2, 2) && r11 == Coded(w, s)(3, 3)
      && r12 == Coded(w, s)(4, 4)
    ensures var b := Moved(w, offset, s);
            && w.xor(r8, d.rbx) == w.not(b(0, 0))
            && w.rotl(w.xor(r9, d.rcx), 44) == b(1, 0)
            && w.rotl(w.xor(r10, d.rdx), 43) == w.not(b(2, 0))
            && w.rotl(w.xor(r11, d.rbp), 21) == w.not(b(3, 0))
            && w.rotl(w.xor(r12, d.rax), 14) == b(4, 0)
  {
    MovedLane(w, offset, s, 0, 0, 0);
    MovedLane(w, offset, s, 1, 0, 44);
    MovedLane(w, offset, s, 2, 0, 43);
    MovedLane(w, offset, s, 3, 0, 21);
    MovedLane(w, offset, s, 4, 0, 14);
  }

  method Row0<W(!new)>(w: Words<W>, rdi: array<W>, rsi: array<W>, d: Effects<W>, rc: W,
                       ghost offset: (nat, nat) -> nat, ghost s: State<W>)
    requires Laws(w) && HoldsFlat(rdi, Coded(w, s)) && AreEffects(w, s, d) && rdi != rsi && rsi.Length == 25
    requires RhoOffsets(offset)
    modifies rsi
    ensures forall i | 0 <= i < 25 && !(0 <= i < 5) :: rsi[i] == old(rsi[i])
    ensures RowHolds(rsi, Coded(w, Round(w, offset, s, rc)), 0)
  {
    ghost var b := Moved(w, offset, s);
    Row0Inputs(w, offset, s, d, rdi[0], rdi[6], rdi[12], rdi[18], rdi[24]);
    var r8 := w.xor(rdi[0], d.rbx);
    var r9 := w.rotl(w.xor(rdi[6], d.rcx), 44);
    var r10 := w.rotl(w.xor(rdi[12], d.rdx), 43);
    var r11 := w.rotl(w.xor(rdi[18], d.rbp), 21);
    var r12 := w.rotl(w.xor(rdi[24], d.rax), 14);
    var o0, o1, o2, o3, o4 := Plane0(w, r8, r9, r10, r11, r12, rc, b(0, 0), b(1, 0), b(2, 0), b(3, 0), b(4, 0));
    RowOutput(w, offset, s, rc, 0, 0);
    RowOutput(w, offset, s, rc, 1, 0);
    RowOutput(w, offset, s, rc, 2, 0);
    RowOutput(w, offset, s, rc, 3, 0);
    RowOutput(w, offset, s, rc, 4, 0);
    rsi[0], rsi[1], rsi[2], rsi[3], rsi[4] := o0, o1, o2, o3, o4;
  }

  lemma Row1Inputs<W(!new)>(w: Words<W>, offset: (nat, nat) -> nat, s: State<W>, d: Effects<W>, r8: W, r9: W, r10: W,
                            r11: W, r12: W)
    requires Laws(w) && RhoOffsets(offset) && AreEffects(w, s, d)
    requires r8 == Coded(w, s)(3, 0) && r9 == Coded(w, s)(4, 1) && r10 == Coded(w, s)(0, 2) && r11 == Coded(w, s)(1, 3)
      && r12 == Coded(w, s)(2, 4)
    ensures var b := Moved(w, offset, s);
            && w.rotl(w.xor(r8, d.rbp), 28) == w.not(b(0, 1))
            && w.rotl(w.xor(r9, d.rax), 20) == b(1, 1)
            && w.rotl(w.xor(r10, d.rbx), 3) == w.not(b(2, 1))
            && w.rotl(w.xor(r11, d.rcx), 45) == b(3, 1)
            && w.rotl(w.xor(r12, d.rdx), 61) == b(4, 1)
  {
    MovedLane(w, offset, s, 0, 1, 28);
    MovedLane(w, offset, s, 1, 1, 20);
    MovedLane(w, offset, s, 2, 1, 3);
    MovedLane(w, offset, s, 3, 1, 45);
    MovedLane(w, offset, s, 4, 1, 61);
  }

  method Row1<W(!new)>(w: Words<W>, rdi: array<W>, rsi: array<W>, d: Effects<W>, rc: W,
                       ghost offset: (nat, nat) -> nat, ghost s: State<W>)
    requires Laws(w) && HoldsFlat(rdi, Coded(w, s)) && AreEffects(w, s, d) && rdi != rsi && rsi.Length == 25
    requires RhoOffsets(offset)
    modifies rsi
    ensures forall i | 0 <= i < 25 && !(5 <= i < 10) :: rsi[i] == old(rsi[i])
    ensures RowHolds(rsi, Coded(w, Round(w, offset, s, rc)), 1)
  {
    ghost var b := Moved(w, offset, s);
    Row1Inputs(w, offset, s, d, rdi[3], rdi[9], rdi[10], rdi[16], rdi[22]);
    var r8 := w.rotl(w.xor(rdi[3], d.rbp), 28);
    var r9 := w.rotl(w.xor(rdi[9], d.rax), 20);
    var r10 := w.rotl(w.xor(rdi[10], d.rbx), 3);
    var r11 := w.rotl(w.xor(rdi[16], d.rcx), 45);
    var r12 := w.rotl(w.xor(rdi[22], d.rdx), 61);
    var o0, o1, o2, o3, o4 := Plane1(w, r8, r9, r10, r11, r12, b(0, 1), b(1, 1), b(2, 1), b(3, 1), b(4, 1));
    RowOutput(w, offset, s, rc, 0, 1);
    RowOutput(w, offset, s, rc, 1, 1);
    RowOutput(w, offset, s, rc, 2, 1);
    RowOutput(w, offset, s, rc, 3, 1);
    RowOutput(w, offset, s, rc, 4, 1);
    rsi[5], rsi[6], rsi[7], rsi[8], rsi[9] := o0, o1, o2, o3, o4;
  }

  lemma Row2Inputs<W(!new)>(w: Words<W>, offset: (nat, nat) -> nat, s: State<W>, d: Effects<W>, r8: W, r9: W, r10: W,
                            r11: W, r12: W)
    requires Laws(w) && RhoOffsets(offset) && AreEffects(w, s, d)
    requires r8 == Coded(w, s)(1, 0) && r9 == Coded(w, s)(2, 1) && r10 == Coded(w, s)(3, 2) && r11 == Coded(w, s)(4, 3)
      && r12 == Coded(w, s)(0, 4)
    ensures var b := Moved(w, offset, s);
            && w.rotl(w.xor(r8, d.rcx), 1) == w.not(b(0, 2))
            && w.rotl(w.xor(r9, d.rdx), 6) == b(1, 2)
            && w.rotl(w.xor(r10, d.rbp), 25) == w.not(b(2, 2))
            && w.rotl(w.xor(r11, d.rax), 8) == b(3, 2)
            && w.rotl(w.xor(r12, d.rbx), 18) == b(4, 2)
  {
    MovedLane(w, offset, s, 0, 2, 1);
    MovedLane(w, offset, s, 1, 2, 6);
    MovedLane(w, offset, s, 2, 2, 25);
    MovedLane(w, offset, s, 3, 2, 8);
    MovedLane(w, offset, s, 4, 2, 18);
  }

  method Row2<W(!new)>(w: Words<W>, rdi: array<W>, rsi: array<W>, d: Effects<W>, rc: W,
                       ghost offset: (nat, nat) -> nat, ghost s: State<W>)
    requires Laws(w) && HoldsFlat(rdi, Coded(w, s)) && AreEffects(w, s, d) && rdi != rsi && rsi.Length == 25
    requires RhoOffsets(offset)
    modifies rsi
    ensures forall i | 0 <= i < 25 && !(10 <= i < 15) :: rsi[i] == old(rsi[i])
    ensures RowHolds(rsi, Coded(w, Round(w, offset, s, rc)), 2)
  {
    ghost var b := Moved(w, offset, s);
    Row2Inputs(w, offset, s, d, rdi[1], rdi[7], rdi[13], rdi[19], rdi[20]);
    var r8 := w.rotl(w.xor(rdi[1], d.rcx), 1);
    var r9 := w.rotl(w.xor(rdi[7], d.rdx), 6);
    var r10 := w.rotl(w.xor(rdi[13], d.rbp), 25);
    var r11 := w.rotl(w.xor(rdi[19], d.rax), 8);
    var r12 := w.rotl(w.xor(rdi[20], d.rbx), 18);
    var o0, o1, o2, o3, o4 := Plane2(w, r8, r9, r10, r11, r12, b(0, 2), b(1, 2), b(2, 2), b(3, 2), b(4, 2));
    RowOutput(w, offset, s, rc, 0, 2);
    RowOutput(w, offset, s, rc, 1, 2);
    RowOutput(w, offset, s, rc, 2, 2);
    RowOutput(w, offset, s, rc, 3, 2);
    RowOutput(w, offset, s, rc, 4, 2);
    rsi[10], rsi[11], rsi[12], rsi[13], rsi[14] := o0, o1, o2, o3, o4;
  }

  lemma Row3Inputs<W(!new)>(w: Words<W>, offset: (nat, nat) -> nat, s: State<W>, d: Effects<W>, r8: W, r9: W, r10: W,
                            r11: W, r12: W)
    requires Laws(w) && RhoOffsets(offset) && AreEffects(w, s, d)
    requires r8 == Coded(w, s)(4, 0) && r9 == Coded(w, s)(0, 1) && r10 == Coded(w, s)(1, 2) && r11 == Coded(w, s)(2, 3)
      && r12 == Coded(w, s)(3, 4)
    ensures var b := Moved(w, offset, s);
            && w.rotl(w.xor(r8, d.rax), 27) == b(0, 3)
            && w.rotl(w.xor(r9, d.rbx), 36) == w.not(b(1, 3))
            && w.rotl(w.xor(r10, d.rcx), 10) == b(2, 3)
            && w.rotl(w.xor(r11, d.rdx), 15) == w.not(b(3, 3))
            && w.rotl(w.xor(r12, d.rbp), 56) == w.not(b(4, 3))
  {
    MovedLane(w, offset, s, 0, 3, 27);
    MovedLane(w, offset, s, 1, 3, 36);
    MovedLane(w, offset, s, 2, 3, 10);
    MovedLane(w, offset, s, 3, 3, 15);
    MovedLane(w, offset, s, 4, 3, 56);
  }

  method Row3<W(!new)>(w: Words<W>, rdi: array<W>, rsi: array<W>, d: Effects<W>, rc: W,
                       ghost offset: (nat, nat) -> nat, ghost s: State<W>)
    requires Laws(w) && HoldsFlat(rdi, Coded(w, s)) && AreEffects(w, s, d) && rdi != rsi && rsi.Length == 25
    requires RhoOffsets(offset)
    modifies rsi
    ensures forall i | 0 <= i < 25 && !(15 <= i < 20) :: rsi[i] == old(rsi[i])
    ensures RowHolds(rsi, Coded(w, Round(w, offset, s, rc)), 3)
  {
    ghost var b := Moved(w, offset, s);
    Row3Inputs(w, offset, s, d, rdi[4], rdi[5], rdi[11], rdi[17], rdi[23]);
    var r8 := w.rotl(w.xor(rdi[4], d.rax), 27);
    var r9 := w.rotl(w.xor(rdi[5], d.rbx), 36);
    var r10 := w.rotl(w.xor(rdi[11], d.rcx), 10);
    var r11 := w.rotl(w.xor(rdi[17], d.rdx), 15);
    var r12 := w.rotl(w.xor(rdi[23], d.rbp), 56);
    var o0, o1, o2, o3, o4 := Plane3(w, r8, r9, r10, r11, r12, b(0, 3), b(1, 3), b(2, 3), b(3, 3), b(4, 3));
    RowOutput(w, offset, s, rc, 0, 3);
    RowOutput(w, offset, s, rc, 1, 3);
    RowOutput(w, offset, s, rc, 2, 3);
    RowOutput(w, offset, s, rc, 3, 3);
    RowOutput(w, offset, s, rc, 4, 3);
    rsi[15], rsi[16], rsi[17], rsi[18], rsi[19] := o0, o1, o2, o3, o4;
  }

  lemma Row4Inputs<W(!new)>(w: Words<W>, offset: (nat, nat) -> nat, s: State<W>, d: Effects<W>, rax: W, rbx: W, rcx: W,
                            rdx: W, rbp: W)
    requires Laws(w) && RhoOffsets(offset) && AreEffects(w, s, d)
    requires rax == Coded(w, s)(4, 2) && rbx == Coded(w, s)(0, 3) && rcx == Coded(w, s)(1, 4)
      && rdx == Coded(w, s)(2, 0) && rbp == Coded(w, s)(3, 1)
    ensures var b := Moved(w, offset, s);
            && w.rotl(w.xor(rax, d.rax), 39) == b(2, 4)
            && w.rotl(w.xor(rbx, d.rbx), 41) == w.not(b(3, 4))
            && w.rotl(w.xor(rcx, d.rcx), 2) == b(4, 4)
            && w.rotl(w.xor(rdx, d.rdx), 62) == w.not(b(0, 4))
            && w.rotl(w.xor(rbp, d.rbp), 55) == b(1, 4)
  {
    MovedLane(w, offset, s, 2, 4, 39);
    MovedLane(w, offset, s, 3, 4, 41);
    MovedLane(w, offset, s, 4, 4, 2);
    MovedLane(w, offset, s, 0, 4, 62);
    MovedLane(w, offset, s, 1, 4, 55);
  }

  method Row4<W(!new)>(w: Words<W>, rdi: array<W>, rsi: array<W>, d: Effects<W>, rc: W,
                       ghost offset: (nat, nat) -> nat, ghost s: State<W>)
    returns (rax: W, rbx: W, rcx: W, rdx: W, rbp: W)
    requires Laws(w) && HoldsFlat(rdi, Coded(w, s)) && AreEffects(w, s, d) && rdi != rsi && rsi.Length == 25
    requires RhoOffsets(offset)
    modifies rsi
    ensures forall i | 0 <= i < 25 && !(20 <= i < 25) :: rsi[i] == old(rsi[i])
    ensures RowHolds(rsi, Coded(w, Round(w, offset, s, rc)), 4)
    ensures rax == rsi[20] && rbx == rsi[21] && rcx == rsi[22] && rdx == rsi[23] && rbp == rsi[24]
  {
    ghost var b := Moved(w, offset, s);
    Row4Inputs(w, offset, s, d, rdi[14], rdi[15], rdi[21], rdi[2], rdi[8]);
    rax := w.rotl(w.xor(rdi[14], d.rax), 39);
    rbx := w.rotl(w.xor(rdi[15], d.rbx), 41);
    rcx := w.rotl(w.xor(rdi[21], d.rcx), 2);
    rdx := w.rotl(w.xor(rdi[2], d.rdx), 62);
    rbp := w.rotl(w.xor(rdi[8], d.rbp), 55);
    rax, rbx, rcx, rdx, rbp := Plane4(w, rax, rbx, rcx, rdx, rbp, b(0, 4), b(1, 4), b(2, 4), b(3, 4), b(4, 4));
    RowOutput(w, offset, s, rc, 0, 4);
    RowOutput(w, offset, s, rc, 1, 4);
    RowOutput(w, offset, s, rc, 2, 4);
    RowOutput(w, offset, s, rc, 3, 4);
    RowOutput(w, offset, s, rc, 4, 4);
    rsi[20], rsi[21], rsi[22], rsi[23], rsi[24] := rax, rbx, rcx, rdx, rbp;
  }

  method AsmRound<W(!new)>(w: Words<W>, rdi: array<W>, rsi: array<W>, rax_: W, rbx_: W, rcx_: W, rdx_: W, rbp_: W,
                           rc: W,
                           ghost offset: (nat, nat) -> nat, ghost s: State<W>)
    returns (rax: W, rbx: W, rcx: W, rdx: W, rbp: W)
    requires Laws(w) && RhoOffsets(offset) && HoldsFlat(rdi, Coded(w, s)) && rdi != rsi && rsi.Length == 25
    requires rax_ == rdi[20] && rbx_ == rdi[21] && rcx_ == rdi[22] && rdx_ == rdi[23] && rbp_ == rdi[24]
    modifies rsi
    ensures HoldsFlat(rsi, Coded(w, Round(w, offset, s, rc)))
    ensures rax == rsi[20] && rbx == rsi[21] && rcx == rsi[22] && rdx == rsi[23] && rbp == rsi[24]
  {
    var d := AsmTheta(w, rdi, rax_, rbx_, rcx_, rdx_, rbp_, s);
    Row0(w, rdi, rsi, d, rc, offset, s);
    Row1(w, rdi, rsi, d, rc, offset, s);
    assert RowHolds(rsi, Coded(w, Round(w, offset, s, rc)), 0);
    Row2(w, rdi, rsi, d, rc, offset, s);
    assert RowHolds(rsi, Coded(w, Round(w, offset, s, rc)), 0) && RowHolds(rsi, Coded(w, Round(w, offset, s, rc)), 1);
    Row3(w, rdi, rsi, d, rc, offset, s);
    assert RowHolds(rsi, Coded(w, Round(w, offset, s, rc)), 0) && RowHolds(rsi, Coded(w, Round(w, offset, s, rc)), 1)
      && RowHolds(rsi, Coded(w, Round(w, offset, s, rc)), 2);
    rax, rbx, rcx, rdx, rbp := Row4(w, rdi, rsi, d, rc, offset, s);
  }

  // ------------------------------------------------------------ all rounds

  /** One round as the loop sees it: a step on the state and a change of buffers. */
  method AsmStep<W(!new)>(w: Words<W>, rdi: array<W>, rsi: array<W>, rax_: W, rbx_: W, rcx_: W, rdx_: W, rbp_: W, rc: W,
                          ghost offset: (nat, nat) -> nat, ghost step: (State<W>, W) -> State<W>, ghost s: State<W>)
    returns (rax: W, rbx: W, rcx: W, rdx: W, rbp: W)
    requires Laws(w) && RhoOffsets(offset) && IsRound(w, offset, step)
    requires HoldsFlat(rdi, Coded(w, s)) && rdi != rsi && rsi.Length == 25
    requires rax_ == rdi[20] && rbx_ == rdi[21] && rcx_ == rdi[22] && rdx_ == rdi[23] && rbp_ == rdi[24]
    modifies rsi
    ensures HoldsFlat(rsi, Coded(w, step(s, rc)))
    ensures rax == rsi[20] && rbx == rsi[21] && rcx == rsi[22] && rdx == rsi[23] && rbp == rsi[24]
  {
    rax, rbx, rcx, rdx, rbp := AsmRound(w, rdi, rsi, rax_, rbx_, rcx_, rdx_, rbp_, rc, offset, s);
    assert step(s, rc) == Round(w, offset, s, rc);
  }

  ghost predicate IsRound<W(!new)>(w: Words<W>, offset: (nat, nat) -> nat, step: (State<W>, W) -> State<W>) {
    forall s: State<W>, rc: W {:trigger Round(w, offset, s, rc)} :: step(s, rc) == Round(w, offset, s, rc)
  }

  /**
   __KeccakF1600: rounds until r15, which runs through the table of round constants, reaches a
   multiple of 256; the table of 24 words ends at such an address.
   */
  method AsmRounds<W(!new)>(w: Words<W>, rdi_: array<W>, rsi_: array<W>, iotas: seq<W>, ghost offset: (nat, nat) -> nat,
                            ghost step: (State<W>, W) -> State<W>, ghost s: State<W>)
    requires Laws(w) && RhoOffsets(offset) && IsRound(w, offset, step)
    requires HoldsFlat(rdi_, Coded(w, s)) && rdi_ != rsi_ && rsi_.Length == 25 && |iotas| == 24
    modifies rdi_, rsi_
    ensures HoldsFlat(rdi_, Coded(w, IterateFrom(step, iotas, s, 0)))
  {
    hide Coded, Laws, RhoOffsets, IsRound;
    var rdi, rsi := rdi_, rsi_;
    var rax, rbx, rcx, rdx, rbp := rdi[20], rdi[21], rdi[22], rdi[23], rdi[24];
    var r15: nat := 64;
    ghost var n: nat, m: nat, even, t := 0, 0, true, s;
    var more := true;
    while more
      invariant n <= 24 && r15 == 64 + 8 * n && more == (n < 24)
      invariant n == if even then 2 * m else 2 * m + 1
      invariant if even then rdi == rdi_ && rsi == rsi_ else rdi == rsi_ && rsi == rdi_
      invariant HoldsFlat(rdi, Coded(w, t))
      invariant IterateFrom(step, iotas, t, n) == IterateFrom(step, iotas, s, 0)
      invariant rax == rdi[20] && rbx == rdi[21] && rcx == rdi[22] && rdx == rdi[23] && rbp == rdi[24]
      decreases 24 - n
    {
      TableEntry(n);
      var rc := iotas[(r15 - 64) / 8];
      rax, rbx, rcx, rdx, rbp := AsmStep(w, rdi, rsi, rax, rbx, rcx, rdx, rbp, rc, offset, step, t);
      t := step(t, rc);
      r15 := r15 + 8;
      rsi, rdi := rdi, rsi;
      n, m, even := n + 1, if even then m else m + 1, !even;
      EndOfTable(n);
      more := r15 % 256 != 0;
    }
  }

  lemma TableEntry(n: nat)
    ensures (64 + 8 * n - 64) / 8 == n
  {
  }

  lemma EndOfTable(n: nat)
    requires 1 <= n <= 24
    ensures (64 + 8 * n) % 256 != 0 <==> n < 24
  {
  }

  /** The six lanes that are complemented before and after the rounds. */
  method ComplementLanes<W>(w: Words<W>, a: array<W>, ghost s: State<W>)
    requires HoldsFlat(a, s)
    modifies a
    ensures HoldsFlat(a, Coded(w, s))
  {
    a[1] := w.not(a[1]);
    a[2] := w.not(a[2]);
    a[8] := w.not(a[8]);
    a[12] := w.not(a[12]);
    a[17] := w.not(a[17]);
    a[20] := w.not(a[20]);
  }

  lemma OffsetsAreRho()
    ensures RhoOffsets(Offset)
  {
    OffsetsOfRow(0); OffsetsOfRow(1); OffsetsOfRow(2); OffsetsOfRow(3); OffsetsOfRow(4);
  }

  lemma OffsetsOfRow(y: nat)
    requires y < 5
    ensures [Offset(0, y), Offset(1, y), Offset(2, y), Offset(3, y), Offset(4, y)]
         == if y == 0 then [0, 1, 62, 28, 27] else if y == 1 then [36, 44, 6, 55, 20]
           else if y == 2 then [3, 10, 43, 25, 39]
            else if y == 3 then [41, 45, 15, 21, 8] else [18, 2, 61, 56, 14]
  {
  }

  lemma NotNot<W(!new)>(w: Words<W>, a: W)
    requires Laws(w)
    ensures w.not(w.not(a)) == a
  {
    Equal(w, w.not(w.not(a)), a);
  }

  lemma CodedTwice<W(!new)>(w: Words<W>, s: State<W>)
    requires Laws(w)
    ensures forall x: nat, y: nat :: Coded(w, Coded(w, s))(x, y) == s(x, y)
  {
    forall x: nat, y: nat ensures Coded(w, Coded(w, s))(x, y) == s(x, y) {
      NotNot(w, s(x, y));
      assert Coded(w, Coded(w, s))(x, y) == Stored(w, Complemented(x, y), Stored(w, Complemented(x, y), s(x, y)));
    }
  }

  method UncomplementLanes<W(!new)>(w: Words<W>, a: array<W>, ghost t: State<W>)
    requires Laws(w) && HoldsFlat(a, Coded(w, t))
    modifies a
    ensures HoldsFlat(a, t)
  {
    ComplementLanes(w, a, Coded(w, t));
    CodedTwice(w, t);
  }

  /**
   KeccakF1600: what it leaves in the state is what the kernel's keccak_f1600_state leaves, the 24 rounds of the
   standard.
   */
  method KeccakF1600<W(0,!new)>(w: Words<W>, st: array<W>, iotas: seq<W>, ghost s: State<W>)
    requires Laws(w) && HoldsFlat(st, s) && |iotas| == 24
    modifies st
    ensures HoldsFlat(st, Rounds(w, Offset, iotas, s, 24))
  {
    OffsetsAreRho();
    ghost var step := RoundStep(w, Offset);
    var buffer := new W[25];
    ComplementLanes(w, st, s);
    AsmRounds(w, st, buffer, iotas, Offset, step, s);
    UncomplementLanes(w, st, IterateFrom(step, iotas, s, 0));
    IterateFromThere(step, iotas, s, 0);
  }
}
