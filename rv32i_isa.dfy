/*
 * RV32I instruction encoders used to build program-buffer code: the R, I, S,
 * B, U and J formats of the RISC-V unprivileged ISA (sections 2.2 and 2.3),
 * the LOAD and STORE forms, the Zicsr CSRRS form and the EBREAK constant.
 *
 * Each encoder is kept exactly as the C macros write it. In particular every
 * encoder masks the opcode with 0x3f rather than 0x7f, and the I-type
 * immediate with 0x7ff rather than 0xfff. The decoders below place the fields
 * where the ISA manual puts them; the encoders' contracts say what each field
 * decodes back to.
 */
module Rv32iIsa {

  const OP_SYSTEM: bv32 := 0x73
  const OP_LOAD: bv32 := 0x03
  const OP_STORE: bv32 := 0x23
  const LOAD_ZERO_EXTEND: bv32 := 0x4

  // ----- field decoders, at the positions the ISA manual gives -----

  /** Bits 0-6: the 7-bit major opcode. */
  function Opcode(w: bv32): bv32 { w & 0x7f }
  /** Bits 7-11. */
  function Rd(w: bv32): bv32 { (w >> 7) & 0x1f }
  /** Bits 12-14. */
  function Funct3(w: bv32): bv32 { (w >> 12) & 0x7 }
  /** Bits 15-19. */
  function Rs1(w: bv32): bv32 { (w >> 15) & 0x1f }
  /** Bits 20-24. */
  function Rs2(w: bv32): bv32 { (w >> 20) & 0x1f }
  /** Bits 25-31. */
  function Funct7(w: bv32): bv32 { w >> 25 }

  /** The 12-bit I-type immediate, bits 20-31. */
  function ImmI(w: bv32): bv32 { w >> 20 }

  /** The 12-bit S-type immediate: bits 11:5 from 31-25, bits 4:0 from 11-7. */
  function ImmS(w: bv32): bv32 { ((w >> 25) << 5) | ((w >> 7) & 0x1f) }

  /** The B-type immediate bits 12:1, as a 12-bit number: bit 12 from bit 31,
      bit 11 from bit 7, bits 10:5 from 30-25 and bits 4:1 from 11-8. */
  function ImmB(w: bv32): bv32
  {
    ((w >> 31) << 11) | (((w >> 7) & 1) << 10) | (((w >> 25) & 0x3f) << 4) | ((w >> 8) & 0xf)
  }

  /** The U-type immediate bits 31:12, as a 20-bit number. */
  function ImmU(w: bv32): bv32 { w >> 12 }

  /** The J-type immediate bits 20:1, as a 20-bit number: bit 20 from bit 31,
      bits 10:1 from 30-21, bit 11 from bit 20 and bits 19:12 from 19-12. */
  function ImmJ(w: bv32): bv32
  {
    ((w >> 31) << 19) | (((w >> 12) & 0xff) << 11) | (((w >> 20) & 1) << 10) | ((w >> 21) & 0x3ff)
  }

  // ----- encoders, as written -----

  /** Only the low six opcode bits are kept, so bit 6 of every word is 0. */
  function RType(funct7: bv32, rs2: bv32, rs1: bv32, funct3: bv32, rd: bv32, opcode: bv32): (w: bv32)
    ensures Opcode(w) == opcode & 0x3f
    ensures Rd(w) == rd & 0x1f && Funct3(w) == funct3 & 0x7
    ensures Rs1(w) == rs1 & 0x1f && Rs2(w) == rs2 & 0x1f
    ensures Funct7(w) == funct7 & 0x7f
  {
    (opcode & 0x3f)
    | ((rd & 0x1f) << 7)
    | ((funct3 & 0x7) << 12)
    | ((rs1 & 0x1f) << 15)
    | ((rs2 & 0x1f) << 20)
    | ((funct7 & 0x7f) << 25)
  }

  /** Only eleven immediate bits are kept: bit 31 of every word is 0. */
  function IType(imm11_0: bv32, rs1: bv32, funct3: bv32, rd: bv32, opcode: bv32): (w: bv32)
    ensures Opcode(w) == opcode & 0x3f
    ensures Rd(w) == rd & 0x1f && Funct3(w) == funct3 & 0x7 && Rs1(w) == rs1 & 0x1f
    ensures ImmI(w) == imm11_0 & 0x7ff && w >> 31 == 0
  {
    (opcode & 0x3f)
    | ((rd & 0x1f) << 7)
    | ((funct3 & 0x7) << 12)
    | ((rs1 & 0x1f) << 15)
    | ((imm11_0 & 0x7ff) << 20)
  }

  function SType(imm11_0: bv32, rs2: bv32, rs1: bv32, funct3: bv32, opcode: bv32): (w: bv32)
    ensures Opcode(w) == opcode & 0x3f
    ensures Funct3(w) == funct3 & 0x7 && Rs1(w) == rs1 & 0x1f && Rs2(w) == rs2 & 0x1f
    ensures ImmS(w) == imm11_0 & 0xfff
  {
    (opcode & 0x3f)
    | ((imm11_0 & 0x1f) << 7)
    | ((funct3 & 0x7) << 12)
    | ((rs1 & 0x1f) << 15)
    | ((rs2 & 0x1f) << 20)
    | (((imm11_0 >> 5) & 0x7f) << 25)
  }

  function BType(imm12_1: bv32, rs2: bv32, rs1: bv32, funct3: bv32, opcode: bv32): (w: bv32)
    ensures Opcode(w) == opcode & 0x3f
    ensures Funct3(w) == funct3 & 0x7 && Rs1(w) == rs1 & 0x1f && Rs2(w) == rs2 & 0x1f
    ensures ImmB(w) == imm12_1 & 0xfff
  {
    (opcode & 0x3f)
    | (((imm12_1 >> 10) & 0x1) << 7)
    | ((imm12_1 & 0xf) << 8)
    | ((funct3 & 0x7) << 12)
    | ((rs1 & 0x1f) << 15)
    | ((rs2 & 0x1f) << 20)
    | (((imm12_1 >> 4) & 0x3f) << 25)
    | (((imm12_1 >> 11) & 0x1) << 31)
  }

  function UType(imm31_12: bv32, rd: bv32, opcode: bv32): (w: bv32)
    ensures Opcode(w) == opcode & 0x3f && Rd(w) == rd & 0x1f
    ensures ImmU(w) == imm31_12 & 0xfffff
  {
    (opcode & 0x3f)
    | ((rd & 0x1f) << 7)
    | ((imm31_12 & 0xfffff) << 12)
  }

  function JType(imm20_1: bv32, rd: bv32, opcode: bv32): (w: bv32)
    ensures Opcode(w) == opcode & 0x3f && Rd(w) == rd & 0x1f
    ensures ImmJ(w) == imm20_1 & 0xfffff
  {
    (opcode & 0x3f)
    | ((rd & 0x1f) << 7)
    | (((imm20_1 >> 11) & 0xff) << 12)
    | (((imm20_1 >> 10) & 0x1) << 20)
    | ((imm20_1 & 0x3ff) << 21)
    | (((imm20_1 >> 19) & 0x1) << 31)
  }

  // ----- instruction forms -----

  /** A load of `width` (funct3), optionally zero-extending, into rd. The
      macro hands the unparenthesised `width | zextend` to the I-type mask, so
      `width | zextend & 0x7` masks only zextend: width is shifted unmasked.
      The word is the intended I-type load with `width << 12` laid over it,
      which is that load exactly when width fits in funct3. */
  function Load(rd: bv32, width: bv32, zextend: bv32, base: bv32, offset: bv32): (w: bv32)
    ensures Opcode(w) == OP_LOAD && Rd(w) == rd & 0x1f
    ensures w == IType(offset, base, width | zextend, rd, OP_LOAD) | (width << 12)
  {
    (OP_LOAD & 0x3f)
    | ((rd & 0x1f) << 7)
    | ((width | (zextend & 0x7)) << 12)
    | ((base & 0x1f) << 15)
    | ((offset & 0x7ff) << 20)
  }

  /** With a width that fits in funct3 the word is the intended load. */
  lemma LoadNarrowWidth(rd: bv32, width: bv32, zextend: bv32, base: bv32, offset: bv32)
    requires width <= 7
    ensures Load(rd, width, zextend, base, offset) == IType(offset, base, width | zextend, rd, OP_LOAD)
    ensures var w := Load(rd, width, zextend, base, offset);
      Funct3(w) == (width | zextend) & 0x7 && Rs1(w) == base & 0x1f && ImmI(w) == offset & 0x7ff
  {
    assert width << 12 == (width & 0x7) << 12;
  }

  /** A width of 8 spills into rs1: the word loads through x1, not x0. */
  lemma LoadWideWidth()
    ensures Load(0, 8, 0, 0, 0) == 0x8003
    ensures Rs1(Load(0, 8, 0, 0, 0)) == 1 != Rs1(IType(0, 0, 8, 0, OP_LOAD))
  {
  }

  /** A store of register `value` of `width` (funct3) at base + offset. */
  function Store(value: bv32, width: bv32, base: bv32, offset: bv32): (w: bv32)
    ensures Opcode(w) == OP_STORE && Rs2(w) == value & 0x1f && Rs1(w) == base & 0x1f
    ensures Funct3(w) == width & 0x7 && ImmS(w) == offset & 0xfff
  {
    SType(offset, value, base, width, OP_STORE)
  }

  /** CSRRS dst, csr, src. The SYSTEM opcode 0x73 loses bit 6 and the CSR
      number loses bit 11, so the word carries opcode 0x33. */
  function Csrrs(dst: bv32, csr: bv32, src: bv32): (w: bv32)
    ensures Opcode(w) == 0x33 && Opcode(w) != OP_SYSTEM
    ensures Funct3(w) == 2 && Rd(w) == dst & 0x1f && Rs1(w) == src & 0x1f
    ensures ImmI(w) == csr & 0x7ff
  {
    IType(csr, src, 0x2, dst, OP_SYSTEM)
  }

  /** The CSR read used by the program buffer, `csrrs x1, csr, x0`. */
  lemma CsrReadWord(csr: bv32)
    ensures Csrrs(1, csr, 0) == 0x20b3 | ((csr & 0x7ff) << 20)
  {
  }

  /** EBREAK as written: an S-type word with immediate 1, which puts the 1 in
      bits 7-11 rather than in bit 20. */
  const EBREAK: bv32 := SType(0x1, 0, 0, 0, OP_SYSTEM)

  lemma EbreakAsWritten()
    ensures EBREAK == 0xb3
    ensures Opcode(EBREAK) != OP_SYSTEM && EBREAK != 0x0010_0073
  {
  }

  /** The R-type fields occupy disjoint bit ranges that tile the word. */
  lemma RTypeFieldsTile(w: bv32)
    ensures RType(Funct7(w), Rs2(w), Rs1(w), Funct3(w), Rd(w), Opcode(w)) == w & !0x40
  {
  }
}
