/** The RISC-V base instruction layouts, written as encoders, and what the
    decoder makes of each one. The round trips pin down where every field
    is taken from, how the sign bit is handled, and the scaled form the
    decoder gives branch and jump offsets. */
module Encoding {
  import opened Arch
  import opened Decoder

  // ---------------------------------------------------------------------
  // Encoders (the layouts of the RISC-V unprivileged ISA, chapter 2)
  // ---------------------------------------------------------------------

  /** imm[11:0] | rs1 | funct3 | rd | opcode */
  function EncodeI(op: nat, rd: RegIndex, f3: nat, rs1: RegIndex, imm: int): u32
    requires op < 0x80 && f3 < 8 && -0x800 <= imm < 0x800
  {
    op + 0x80 * rd + 0x1000 * f3 + 0x8000 * rs1 + 0x100000 * (imm % 0x1000)
  }

  /** imm[11:5] | rs2 | rs1 | funct3 | imm[4:0] | 0100011 */
  function EncodeS(f3: nat, rs1: RegIndex, rs2: RegIndex, imm: int): u32
    requires f3 < 8 && -0x800 <= imm < 0x800
  {
    var h := imm % 0x1000;
    0x23 + 0x80 * (h % 0x20) + 0x1000 * f3 + 0x8000 * rs1 + 0x100000 * rs2 + 0x2000000 * (h / 0x20)
  }

  /** funct7 | rs2 | rs1 | funct3 | rd | opcode, with funct7 split into
      its low two bits f2 and its high five bits f5 */
  function EncodeR(op: nat, rd: RegIndex, f3: nat, rs1: RegIndex, rs2: RegIndex, f2: nat, f5: nat): u32
    requires op < 0x80 && f3 < 8 && f2 < 4 && f5 < 0x20
  {
    op + 0x80 * rd + 0x1000 * f3 + 0x8000 * rs1 + 0x100000 * rs2 + 0x2000000 * f2 + 0x8000000 * f5
  }

  /** imm[12] | imm[10:5] | rs2 | rs1 | funct3 | imm[4:1] | imm[11] | 1100011,
      for an even byte offset off */
  function EncodeB(f3: nat, rs1: RegIndex, rs2: RegIndex, off: int): u32
    requires f3 < 8 && off % 2 == 0 && -0x1000 <= off < 0x1000
  {
    var h := (off / 2) % 0x1000;
    var b11, lo, mid, b12 := (h / 0x400) % 2, h % 0x10, (h / 0x10) % 0x40, h / 0x800;
    assert b12 < 2;
    BranchWord(f3, rs1, rs2, b11, lo, mid, b12)
  }

  /** imm[31:12] | rd | 0110111 */
  function EncodeU(rd: RegIndex, imm: nat): u32
    requires imm < 0x100000
  {
    0x37 + 0x80 * rd + 0x1000 * imm
  }

  /** imm[20] | imm[10:1] | imm[11] | imm[19:12] | rd | 1101111, for an even
      byte offset off */
  function EncodeJ(rd: RegIndex, off: int): u32
    requires off % 2 == 0 && -0x100000 <= off < 0x100000
  {
    var h := (off / 2) % 0x100000;
    var mid, b11, lo, b20 := (h / 0x800) % 0x100, (h / 0x400) % 2, h % 0x400, h / 0x80000;
    assert b20 < 2;
    JumpWord(rd, mid, b11, lo, b20)
  }

  // ---------------------------------------------------------------------
  // Arithmetic the round trips share
  // ---------------------------------------------------------------------

  /** Complementing, halving and negating a negative number is flooring its half */
  lemma NegativeHalf(q: int)
    requires q < 0
    ensures -((-1 - q) / 2 + 1) == q / 2
  {
    var k, r := q / 2, q % 2;
    DivModUnique(-1 - q, 2, -k - 1, 1 - r);
  }

  /** Halving an even number twice is dividing it by four */
  lemma HalfOfHalf(off: int)
    requires off % 2 == 0
    ensures (off / 2) / 2 == off / 4
  {
    var m, s := off / 4, off % 4;
    DivModUnique(off, 2, 2 * m + s / 2, 0);
    DivModUnique(2 * m + s / 2, 2, m, s / 2);
  }

  /** The decoder's value of a branch offset's 12-bit field */
  lemma ImmediateSBOf(off: int)
    requires off % 2 == 0 && -0x1000 <= off < 0x1000
    ensures var h := (off / 2) % 0x1000;
      ImmediateSB(h >= 0x800, h) == if off >= 0 then off / 2 else off / 4
  {
    if off < 0 {
      assert (off / 2) % 0x1000 == 0x1000 + off / 2;
      NegativeHalf(off / 2);
      HalfOfHalf(off);
    }
  }

  /** The decoder's value of a jump offset's 20-bit field */
  lemma ImmediateUJOf(off: int)
    requires off % 2 == 0 && -0x100000 <= off < 0x100000
    ensures var h := (off / 2) % 0x100000;
      ImmediateUJ(h >= 0x80000, h) == off / 4
  {
    HalfOfHalf(off);
    if off < 0 {
      assert (off / 2) % 0x100000 == 0x100000 + off / 2;
      NegativeHalf(off / 2);
    }
  }

  /** The SB-type field reassembles the 12 bits it was scattered from */
  lemma SBDigits(h: nat)
    requires h < 0x1000
    ensures h % 0x10 + 0x10 * ((h / 0x10) % 0x40) + 0x400 * ((h / 0x400) % 2) + 0x800 * (h / 0x800) == h
  {
    assert (h / 0x10) / 0x40 == h / 0x400;
    assert (h / 0x400) / 2 == h / 0x800;
  }

  /** The UJ-type field reassembles the 20 bits it was scattered from */
  lemma UJDigits(h: nat)
    requires h < 0x100000
    ensures h % 0x400 + 0x400 * ((h / 0x400) % 2) + 0x800 * ((h / 0x800) % 0x100) + 0x80000 * (h / 0x80000) == h
  {
    assert (h / 0x400) / 2 == h / 0x800;
    assert (h / 0x800) / 0x100 == h / 0x80000;
  }

  // ---------------------------------------------------------------------
  // Round trips
  // ---------------------------------------------------------------------

  /** The signed value of a 12-bit two's complement pattern */
  lemma Immediate12Of(imm: int)
    requires -0x800 <= imm < 0x800
    ensures var h := imm % 0x1000; Immediate12(h >= 0x800, h) == imm
  {
  }

  /** The fields of an I-type word */
  lemma FieldsOfI(op: nat, rd: RegIndex, f3: nat, rs1: RegIndex, imm: int)
    requires op < 0x80 && f3 < 8 && -0x800 <= imm < 0x800
    ensures var w, h := EncodeI(op, rd, f3, rs1, imm), imm % 0x1000;
      && Field(w, 0, 7) == op && Field(w, 7, 5) == rd && Field(w, 12, 3) == f3 && Field(w, 15, 5) == rs1
      && FieldI(w) == h && (Bit(w, 31) == 1 <==> h >= 0x800)
  {
    var w, h := EncodeI(op, rd, f3, rs1, imm), imm % 0x1000;
    Pow2Table();
    FieldAt(w, 0, 0, op, 7, rd + 0x20 * f3 + 0x100 * rs1 + 0x2000 * h);
    FieldAt(w, op, 7, rd, 5, f3 + 8 * rs1 + 0x100 * h);
    FieldAt(w, op + 0x80 * rd, 12, f3, 3, rs1 + 0x20 * h);
    FieldAt(w, op + 0x80 * rd + 0x1000 * f3, 15, rs1, 5, h);
    FieldAt(w, op + 0x80 * rd + 0x1000 * f3 + 0x8000 * rs1, 20, h, 12, 0);
    FieldAt(w, op + 0x80 * rd + 0x1000 * f3 + 0x8000 * rs1 + 0x100000 * (h % 0x800), 31, h / 0x800, 1, 0);
  }

  /** An I-type word decodes to its rd, funct3, rs1 and signed immediate */
  lemma DecodeEncodeI(op: nat, rd: RegIndex, f3: nat, rs1: RegIndex, imm: int)
    requires IsIType(op) && f3 < 8 && -0x800 <= imm < 0x800
    ensures Decode(EncodeI(op, rd, f3, rs1, imm)) == DecodedInstruction(op, imm, 0, f3, 0, rd, rs1, 0)
  {
    FieldsOfI(op, rd, f3, rs1, imm);
    Immediate12Of(imm);
    DecodeCases(EncodeI(op, rd, f3, rs1, imm));
  }

  /** The fields of an S-type word */
  lemma FieldsOfS(f3: nat, rs1: RegIndex, rs2: RegIndex, imm: int)
    requires f3 < 8 && -0x800 <= imm < 0x800
    ensures var w, h := EncodeS(f3, rs1, rs2, imm), imm % 0x1000;
      && Field(w, 0, 7) == 0x23 && Field(w, 12, 3) == f3 && Field(w, 15, 5) == rs1 && Field(w, 20, 5) == rs2
      && FieldS(w) == h && (Bit(w, 31) == 1 <==> h >= 0x800)
  {
    var w, h := EncodeS(f3, rs1, rs2, imm), imm % 0x1000;
    var lo, hi := h % 0x20, h / 0x20;
    Pow2Table();
    FieldAt(w, 0, 0, 0x23, 7, lo + 0x20 * f3 + 0x100 * rs1 + 0x2000 * rs2 + 0x40000 * hi);
    FieldAt(w, 0x23, 7, lo, 5, f3 + 8 * rs1 + 0x100 * rs2 + 0x2000 * hi);
    FieldAt(w, 0x23 + 0x80 * lo, 12, f3, 3, rs1 + 0x20 * rs2 + 0x400 * hi);
    FieldAt(w, 0x23 + 0x80 * lo + 0x1000 * f3, 15, rs1, 5, rs2 + 0x20 * hi);
    FieldAt(w, 0x23 + 0x80 * lo + 0x1000 * f3 + 0x8000 * rs1, 20, rs2, 5, hi);
    FieldAt(w, 0x23 + 0x80 * lo + 0x1000 * f3 + 0x8000 * rs1 + 0x100000 * rs2, 25, hi, 7, 0);
    FieldAt(w, 0x23 + 0x80 * lo + 0x1000 * f3 + 0x8000 * rs1 + 0x100000 * rs2 + 0x2000000 * (hi % 0x40),
            31, hi / 0x40, 1, 0);
  }

  /** An S-type word decodes to its funct3, rs1, rs2 and signed offset */
  lemma DecodeEncodeS(f3: nat, rs1: RegIndex, rs2: RegIndex, imm: int)
    requires f3 < 8 && -0x800 <= imm < 0x800
    ensures Decode(EncodeS(f3, rs1, rs2, imm)) == DecodedInstruction(0x23, imm, 0, f3, 0, 0, rs1, rs2)
  {
    FieldsOfS(f3, rs1, rs2, imm);
    Immediate12Of(imm);
    DecodeCases(EncodeS(f3, rs1, rs2, imm));
  }

  /** An R-type word decodes to all three registers and its function fields */
  lemma DecodeEncodeR(op: nat, rd: RegIndex, f3: nat, rs1: RegIndex, rs2: RegIndex, f2: nat, f5: nat)
    requires IsRType(op) && f3 < 8 && f2 < 4 && f5 < 0x20
    ensures Decode(EncodeR(op, rd, f3, rs1, rs2, f2, f5)) == DecodedInstruction(op, 0, f2, f3, f5, rd, rs1, rs2)
  {
    var w := EncodeR(op, rd, f3, rs1, rs2, f2, f5);
    Pow2Table();
    FieldAt(w, 0, 0, op, 7, rd + 0x20 * f3 + 0x100 * rs1 + 0x2000 * rs2 + 0x40000 * f2 + 0x100000 * f5);
    FieldAt(w, op, 7, rd, 5, f3 + 8 * rs1 + 0x100 * rs2 + 0x2000 * f2 + 0x8000 * f5);
    FieldAt(w, op + 0x80 * rd, 12, f3, 3, rs1 + 0x20 * rs2 + 0x400 * f2 + 0x1000 * f5);
    FieldAt(w, op + 0x80 * rd + 0x1000 * f3, 15, rs1, 5, rs2 + 0x20 * f2 + 0x80 * f5);
    FieldAt(w, op + 0x80 * rd + 0x1000 * f3 + 0x8000 * rs1, 20, rs2, 5, f2 + 4 * f5);
    FieldAt(w, op + 0x80 * rd + 0x1000 * f3 + 0x8000 * rs1 + 0x100000 * rs2, 25, f2, 2, f5);
    FieldAt(w, op + 0x80 * rd + 0x1000 * f3 + 0x8000 * rs1 + 0x100000 * rs2 + 0x2000000 * f2, 27, f5, 5, 0);
    DecodeCases(w);
  }

  /** The fields of an SB-type word */
  lemma FieldsOfB(f3: nat, rs1: RegIndex, rs2: RegIndex, off: int)
    requires f3 < 8 && off % 2 == 0 && -0x1000 <= off < 0x1000
    ensures var w, h := EncodeB(f3, rs1, rs2, off), (off / 2) % 0x1000;
      && Field(w, 0, 7) == 0x63 && Field(w, 12, 3) == f3 && Field(w, 15, 5) == rs1 && Field(w, 20, 5) == rs2
      && FieldSB(w) == h && (Bit(w, 31) == 1 <==> h >= 0x800)
  {
    var h := (off / 2) % 0x1000;
    var b11, lo, mid, b12 := (h / 0x400) % 2, h % 0x10, (h / 0x10) % 0x40, h / 0x800;
    assert EncodeB(f3, rs1, rs2, off) == BranchWord(f3, rs1, rs2, b11, lo, mid, b12);
    FieldsOfBRegisters(f3, rs1, rs2, b11, lo, mid, b12);
    FieldsOfBImmediate(f3, rs1, rs2, b11, lo, mid, b12);
    SBDigits(h);
  }

  /** The SB-type word as the sum of its pieces */
  function BranchWord(f3: nat, rs1: RegIndex, rs2: RegIndex, b11: nat, lo: nat, mid: nat, b12: nat): nat
  {
    0x63 + 0x80 * b11 + 0x100 * lo + 0x1000 * f3 + 0x8000 * rs1 + 0x100000 * rs2 + 0x2000000 * mid + 0x80000000 * b12
  }

  lemma FieldsOfBRegisters(f3: nat, rs1: RegIndex, rs2: RegIndex, b11: nat, lo: nat, mid: nat, b12: nat)
    requires f3 < 8 && b11 < 2 && lo < 0x10 && mid < 0x40 && b12 < 2
    ensures var w := BranchWord(f3, rs1, rs2, b11, lo, mid, b12);
      Field(w, 0, 7) == 0x63 && Field(w, 12, 3) == f3 && Field(w, 15, 5) == rs1 && Field(w, 20, 5) == rs2
  {
    var w := BranchWord(f3, rs1, rs2, b11, lo, mid, b12);
    Pow2Table();
    FieldAt(w, 0, 0, 0x63, 7, b11 + 2 * lo + 0x20 * f3 + 0x100 * rs1 + 0x2000 * rs2 + 0x40000 * mid + 0x1000000 * b12);
    var low12 := 0x63 + 0x80 * b11 + 0x100 * lo;
    FieldAt(w, low12, 12, f3, 3, rs1 + 0x20 * rs2 + 0x400 * mid + 0x10000 * b12);
    FieldAt(w, low12 + 0x1000 * f3, 15, rs1, 5, rs2 + 0x20 * mid + 0x800 * b12);
    FieldAt(w, low12 + 0x1000 * f3 + 0x8000 * rs1, 20, rs2, 5, mid + 0x40 * b12);
  }

  lemma FieldsOfBImmediate(f3: nat, rs1: RegIndex, rs2: RegIndex, b11: nat, lo: nat, mid: nat, b12: nat)
    requires f3 < 8 && b11 < 2 && lo < 0x10 && mid < 0x40 && b12 < 2
    ensures var w := BranchWord(f3, rs1, rs2, b11, lo, mid, b12);
      FieldSB(w) == lo + 0x10 * mid + 0x400 * b11 + 0x800 * b12 && Bit(w, 31) == b12
  {
    var w := BranchWord(f3, rs1, rs2, b11, lo, mid, b12);
    Pow2Table();
    FieldAt(w, 0x63, 7, b11, 1, lo + 0x10 * f3 + 0x80 * rs1 + 0x1000 * rs2 + 0x20000 * mid + 0x800000 * b12);
    FieldAt(w, 0x63 + 0x80 * b11, 8, lo, 4, f3 + 8 * rs1 + 0x100 * rs2 + 0x2000 * mid + 0x80000 * b12);
    var low25 := 0x63 + 0x80 * b11 + 0x100 * lo + 0x1000 * f3 + 0x8000 * rs1 + 0x100000 * rs2;
    FieldAt(w, low25, 25, mid, 6, b12);
    FieldAt(w, low25 + 0x2000000 * mid, 31, b12, 1, 0);
  }

  /** A branch word decodes to its funct3 and registers; its immediate is
      half the byte offset going forward and a quarter of it (rounded down)
      going backward */
  lemma DecodeEncodeB(f3: nat, rs1: RegIndex, rs2: RegIndex, off: int)
    requires f3 < 8 && off % 2 == 0 && -0x1000 <= off < 0x1000
    ensures Decode(EncodeB(f3, rs1, rs2, off))
         == DecodedInstruction(0x63, if off >= 0 then off / 2 else off / 4, 0, f3, 0, 0, rs1, rs2)
  {
    FieldsOfB(f3, rs1, rs2, off);
    ImmediateSBOf(off);
    DecodeCases(EncodeB(f3, rs1, rs2, off));
  }

  /** A U-type word decodes to rd and its 20-bit upper immediate, unscaled */
  lemma DecodeEncodeU(rd: RegIndex, imm: nat)
    requires imm < 0x100000
    ensures Decode(EncodeU(rd, imm)) == DecodedInstruction(0x37, imm, 0, 0, 0, rd, 0, 0)
  {
    var w := EncodeU(rd, imm);
    Pow2Table();
    FieldAt(w, 0, 0, 0x37, 7, rd + 0x20 * imm);
    FieldAt(w, 0x37, 7, rd, 5, imm);
    FieldAt(w, 0x37 + 0x80 * rd, 12, imm, 20, 0);
    DecodeCases(w);
  }

  /** The fields of a UJ-type word */
  lemma FieldsOfJ(rd: RegIndex, off: int)
    requires off % 2 == 0 && -0x100000 <= off < 0x100000
    ensures var w, h := EncodeJ(rd, off), (off / 2) % 0x100000;
      && Field(w, 0, 7) == 0x6f && Field(w, 7, 5) == rd
      && FieldUJ(w) == h && (Bit(w, 31) == 1 <==> h >= 0x80000)
  {
    var h := (off / 2) % 0x100000;
    var mid, b11, lo, b20 := (h / 0x800) % 0x100, (h / 0x400) % 2, h % 0x400, h / 0x80000;
    assert EncodeJ(rd, off) == JumpWord(rd, mid, b11, lo, b20);
    FieldsOfJPieces(rd, mid, b11, lo, b20);
    UJDigits(h);
  }

  /** The UJ-type word as the sum of its pieces */
  function JumpWord(rd: RegIndex, mid: nat, b11: nat, lo: nat, b20: nat): nat
  {
    0x6f + 0x80 * rd + 0x1000 * mid + 0x100000 * b11 + 0x200000 * lo + 0x80000000 * b20
  }

  lemma FieldsOfJPieces(rd: RegIndex, mid: nat, b11: nat, lo: nat, b20: nat)
    requires mid < 0x100 && b11 < 2 && lo < 0x400 && b20 < 2
    ensures var w := JumpWord(rd, mid, b11, lo, b20);
      && Field(w, 0, 7) == 0x6f && Field(w, 7, 5) == rd
      && FieldUJ(w) == lo + 0x400 * b11 + 0x800 * mid + 0x80000 * b20 && Bit(w, 31) == b20
  {
    var w := JumpWord(rd, mid, b11, lo, b20);
    Pow2Table();
    FieldAt(w, 0, 0, 0x6f, 7, rd + 0x20 * mid + 0x2000 * b11 + 0x4000 * lo + 0x1000000 * b20);
    FieldAt(w, 0x6f, 7, rd, 5, mid + 0x100 * b11 + 0x200 * lo + 0x80000 * b20);
    FieldAt(w, 0x6f + 0x80 * rd, 12, mid, 8, b11 + 2 * lo + 0x800 * b20);
    var low20 := 0x6f + 0x80 * rd + 0x1000 * mid;
    FieldAt(w, low20, 20, b11, 1, lo + 0x400 * b20);
    FieldAt(w, low20 + 0x100000 * b11, 21, lo, 10, b20);
    FieldAt(w, low20 + 0x100000 * b11 + 0x200000 * lo, 31, b20, 1, 0);
  }

  /** A jal word decodes to rd and a quarter of the byte offset (rounded
      down), in both directions */
  lemma DecodeEncodeJ(rd: RegIndex, off: int)
    requires off % 2 == 0 && -0x100000 <= off < 0x100000
    ensures Decode(EncodeJ(rd, off)) == DecodedInstruction(0x6f, off / 4, 0, 0, 0, rd, 0, 0)
  {
    FieldsOfJ(rd, off);
    ImmediateUJOf(off);
    DecodeCases(EncodeJ(rd, off));
  }

  // ---------------------------------------------------------------------
  // Properties of every word
  // ---------------------------------------------------------------------

  /** The opcode is the low seven bits; an opcode outside the six format
      families leaves every other field zero */
  lemma DecodeOpcodeBits(w: u32)
    ensures Decode(w).opcode == w % 0x80
    ensures !IsHandled(w % 0x80) ==> Decode(w) == DecodedInstruction(w % 0x80, 0, 0, 0, 0, 0, 0, 0)
  {
    assert Pow2(0) == 1 && Pow2(7) == 0x80;
  }

  /** Bit 31 is the top bit of the I-type field and of the high S-type field */
  lemma SignBitOfFields(w: u32)
    ensures FieldI(w) >= 0x800 <==> Bit(w, 31) == 1
    ensures Field(w, 25, 7) >= 0x40 <==> Bit(w, 31) == 1
  {
    Pow2Table();
    assert Bit(w, 31) == w / 0x80000000;
    assert FieldI(w) == w / 0x100000;
    assert Field(w, 25, 7) == w / 0x2000000;
  }

  /** The range of the decoded immediate, per format family */
  lemma DecodeImmediateRange(w: u32)
    ensures var d := Decode(w);
      && (IsIType(d.opcode) || IsSType(d.opcode) ==> -0x800 <= d.immediate < 0x800)
      && (IsSBType(d.opcode) ==> -0x400 <= d.immediate < 0x800)
      && (IsUType(d.opcode) ==> 0 <= d.immediate < 0x100000)
      && (IsUJType(d.opcode) ==> -0x40000 <= d.immediate < 0x40000)
      && (IsRType(d.opcode) || !IsHandled(d.opcode) ==> d.immediate == 0)
  {
    Pow2Table();
    DecodeCases(w);
    SignBitOfFields(w);
  }
}
