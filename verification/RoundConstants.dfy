/**
 The round constants of KECCAK-f[1600]: the table of the kernel (src/argon2_kernel.cl, KECCAKF_RNDC) and of the
 assembly (iotas) against the shift register of section 3.2.5 of FIPS 202.
 */
module RoundConstants {

  const RNDC: seq<nat> :=
    [
     0x0000000000000001, 0x0000000000008082, 0x800000000000808a, 0x8000000080008000,
     0x000000000000808b, 0x0000000080000001, 0x8000000080008081, 0x8000000000008009,
     0x000000000000008a, 0x0000000000000088, 0x0000000080008009, 0x000000008000000a,
     0x000000008000808b, 0x800000000000008b, 0x8000000000008089, 0x8000000000008003,
     0x8000000000008002, 0x8000000000000080, 0x000000000000800a, 0x800000008000000a,
     0x8000000080008081, 0x8000000000008080, 0x0000000080000001, 0x8000000080008008
    ]

  /** Algorithm 5: one step of the shift register; its lowest bit is the output. */
  function Shifted(r: bv8): bv8 { if r & 0x80 != 0 then (r << 1) ^ 0x71 else r << 1 }

  function Out(r: bv8): nat { if r & 1 != 0 then 1 else 0 }

  function SevenSteps(r: bv8): bv8 { Shifted(Shifted(Shifted(Shifted(Shifted(Shifted(Shifted(r))))))) }

  /** Algorithm 6: seven outputs become bits 0, 1, 3, 7, 15, 31 and 63 of a round constant. */
  function Constant(r: bv8): nat {
    var r1 := Shifted(r);
    var r2 := Shifted(r1);
    var r3 := Shifted(r2);
    var r4 := Shifted(r3);
    var r5 := Shifted(r4);
    var r6 := Shifted(r5);
    Out(r) + 2 * Out(r1) + 8 * Out(r2) + 0x80 * Out(r3) + 0x8000 * Out(r4) + 0x8000_0000 * Out(r5) +
      0x8000_0000_0000_0000 * Out(r6)
  }

  /** The register before the outputs for a round. */
  function Register(round: nat): bv8 { if round == 0 then 1 else SevenSteps(Register(round - 1)) }

  /** The registers before each round. */
  const REGISTERS: seq<bv8> :=
    [0x01, 0x80, 0xd8, 0x1a, 0xdf, 0x09, 0x35, 0x4f, 0xca, 0x70, 0x41, 0xec,
     0xd5, 0xcd, 0x63, 0xab, 0xaa, 0x2a, 0xf2, 0xe8, 0x37, 0x3e, 0x0b, 0x44]

  lemma FirstRegisters(i: nat)
    requires i < 12
    ensures SevenSteps(REGISTERS[i]) == REGISTERS[i + 1]
  {
  }

  lemma LastRegisters(i: nat)
    requires 12 <= i < 23
    ensures SevenSteps(REGISTERS[i]) == REGISTERS[i + 1]
  {
  }

  lemma NextRegister(i: nat)
    requires i < 23
    ensures SevenSteps(REGISTERS[i]) == REGISTERS[i + 1]
  {
    hide SevenSteps;
    if i < 12 { FirstRegisters(i); } else { LastRegisters(i); }
  }

  lemma {:induction false} RegisterOf(round: nat)
    requires round < 24
    ensures Register(round) == REGISTERS[round]
  {
    if round > 0 {
      RegisterOf(round - 1);
      NextRegister(round - 1);
    }
  }

  lemma Constants0To7()
    ensures Constant(0x01) == 0x1
    ensures Constant(0x80) == 0x8082
    ensures Constant(0xd8) == 0x800000000000808a
    ensures Constant(0x1a) == 0x8000000080008000
    ensures Constant(0xdf) == 0x808b
    ensures Constant(0x09) == 0x80000001
    ensures Constant(0x35) == 0x8000000080008081
    ensures Constant(0x4f) == 0x8000000000008009
  {
  }

  lemma Constants8To15()
    ensures Constant(0xca) == 0x8a
    ensures Constant(0x70) == 0x88
    ensures Constant(0x41) == 0x80008009
    ensures Constant(0xec) == 0x8000000a
    ensures Constant(0xd5) == 0x8000808b
    ensures Constant(0xcd) == 0x800000000000008b
    ensures Constant(0x63) == 0x8000000000008089
    ensures Constant(0xab) == 0x8000000000008003
  {
  }

  lemma Constants16To23()
    ensures Constant(0xaa) == 0x8000000000008002
    ensures Constant(0x2a) == 0x8000000000000080
    ensures Constant(0xf2) == 0x800a
    ensures Constant(0xe8) == 0x800000008000000a
    ensures Constant(0x37) == 0x8000000080008081
    ensures Constant(0x3e) == 0x8000000000008080
    ensures Constant(0x0b) == 0x80000001
    ensures Constant(0x44) == 0x8000000080008008
  {
  }

  lemma ConstantOfRegister(i: nat)
    requires i < 24
    ensures Constant(REGISTERS[i]) == RNDC[i]
  {
    if i < 8 {
      Constants0To7();
    } else if i < 16 {
      Constants8To15();
    } else {
      Constants16To23();
    }
  }

  lemma TableFits(round: nat)
    requires round < |RNDC|
    ensures RNDC[round] < 0x1_0000_0000_0000_0000
  {
  }

  /** Every entry of the table is the round constant of the standard. */
  lemma TableIsStandard(round: nat)
    requires round < |RNDC|
    ensures |RNDC| == 24 && RNDC[round] == Constant(Register(round))
  {
    RegisterOf(round);
    ConstantOfRegister(round);
  }
}
