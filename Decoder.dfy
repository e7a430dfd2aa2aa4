/** The instruction decoder: a 32-bit instruction word becomes a
    DecodedInstruction. Fields are extracted per format family, keyed by the
    7-bit opcode; the branch and jump immediates keep this decoder's own
    scaled form rather than the byte offsets of the RISC-V manual. */
module Decoder {
  import opened Arch

  /** The decoded record. The three register slots reg[0], reg[1], reg[2]
      play the role of rd, rs1 and rs2 where a format defines them; a slot or
      field the format does not define is 0. */
  datatype DecodedInstruction = DecodedInstruction(
    opcode: nat,
    immediate: int,
    funct2: nat,
    funct3: nat,
    funct5: nat,
    reg0: RegIndex,
    reg1: RegIndex,
    reg2: RegIndex)

  predicate IsIType(op: nat) { op == 0x13 || op == 0x03 || op == 0x67 || op == 0x1b }
  predicate IsSType(op: nat) { op == 0x23 }
  predicate IsRType(op: nat) { op == 0x33 || op == 0x3b }
  predicate IsSBType(op: nat) { op == 0x63 }
  predicate IsUType(op: nat) { op == 0x37 }
  predicate IsUJType(op: nat) { op == 0x6f }

  predicate IsHandled(op: nat)
  {
    IsIType(op) || IsSType(op) || IsRType(op) || IsSBType(op) || IsUType(op) || IsUJType(op)
  }

  // ---------------------------------------------------------------------
  // The unsigned immediate field each format assembles from the word
  // ---------------------------------------------------------------------

  /** I-type: bits 20..31 */
  function FieldI(w: u32): nat { Field(w, 20, 12) }

  /** S-type: bits 7..11 low, bits 25..31 high */
  function FieldS(w: u32): nat { Field(w, 7, 5) + 32 * Field(w, 25, 7) }

  /** SB-type: bits 11..8 -> 3..0, bits 30..25 -> 9..4, bit 7 -> 10, bit 31 -> 11 */
  function FieldSB(w: u32): nat
  {
    Field(w, 8, 4) + 16 * Field(w, 25, 6) + 1024 * Bit(w, 7) + 2048 * Bit(w, 31)
  }

  /** U-type: bits 12..31 */
  function FieldU(w: u32): nat { Field(w, 12, 20) }

  /** UJ-type: bits 30..21 -> 9..0, bit 20 -> 10, bits 19..12 -> 18..11, bit 31 -> 19 */
  function FieldUJ(w: u32): nat
  {
    Field(w, 21, 10) + 1024 * Bit(w, 20) + 2048 * Field(w, 12, 8) + 0x80000 * Bit(w, 31)
  }

  // ---------------------------------------------------------------------
  // Sign handling: the sign bit of every signed format is bit 31 of the word
  // ---------------------------------------------------------------------

  /** I- and S-type: a set sign bit negates the 12-bit complement-plus-one */
  function Immediate12(sign: bool, f: nat): int
  {
    if sign then -((0xfff - f) + 1) else f
  }

  /** SB-type: the complement is halved before the +1, only when negative */
  function ImmediateSB(sign: bool, f: nat): int
  {
    if sign then -((0xfff - f) / 2 + 1) else f
  }

  /** UJ-type: the 20-bit complement is halved before the +1 when negative,
      the field itself is halved when not */
  function ImmediateUJ(sign: bool, f: nat): int
  {
    if sign then -((0xfffff - f) / 2 + 1) else f / 2
  }

  /** What decoding the word w yields */
  function Decode(w: u32): DecodedInstruction
  {
    var op := Field(w, 0, 7);
    var sign := Bit(w, 31) == 1;
    var rd, f3, rs1, rs2 := Field(w, 7, 5), Field(w, 12, 3), Field(w, 15, 5), Field(w, 20, 5);
    if IsIType(op) then
      DecodedInstruction(op, Immediate12(sign, FieldI(w)), 0, f3, 0, rd, rs1, 0)
    else if IsSType(op) then
      DecodedInstruction(op, Immediate12(sign, FieldS(w)), 0, f3, 0, 0, rs1, rs2)
    else if IsRType(op) then
      DecodedInstruction(op, 0, Field(w, 25, 2), f3, Field(w, 27, 5), rd, rs1, rs2)
    else if IsSBType(op) then
      DecodedInstruction(op, ImmediateSB(sign, FieldSB(w)), 0, f3, 0, 0, rs1, rs2)
    else if IsUType(op) then
      DecodedInstruction(op, FieldU(w), 0, 0, 0, rd, 0, 0)
    else if IsUJType(op) then
      DecodedInstruction(op, ImmediateUJ(sign, FieldUJ(w)), 0, 0, 0, rd, 0, 0)
    else
      DecodedInstruction(op, 0, 0, 0, 0, 0, 0, 0)
  }

  /** Decode, one format family at a time */
  lemma DecodeCases(w: u32)
    ensures var op, sign := Field(w, 0, 7), Bit(w, 31) == 1;
      var rd, f3, rs1, rs2 := Field(w, 7, 5), Field(w, 12, 3), Field(w, 15, 5), Field(w, 20, 5);
      && (IsIType(op) ==> Decode(w) == DecodedInstruction(op, Immediate12(sign, FieldI(w)), 0, f3, 0, rd, rs1, 0))
      && (IsSType(op) ==> Decode(w) == DecodedInstruction(op, Immediate12(sign, FieldS(w)), 0, f3, 0, 0, rs1, rs2))
      && (IsRType(op) ==> Decode(w) == DecodedInstruction(op, 0, Field(w, 25, 2), f3, Field(w, 27, 5), rd, rs1, rs2))
      && (IsSBType(op) ==> Decode(w) == DecodedInstruction(op, ImmediateSB(sign, FieldSB(w)), 0, f3, 0, 0, rs1, rs2))
      && (IsUType(op) ==> Decode(w) == DecodedInstruction(op, FieldU(w), 0, 0, 0, rd, 0, 0))
      && (IsUJType(op) ==> Decode(w) == DecodedInstruction(op, ImmediateUJ(sign, FieldUJ(w)), 0, 0, 0, rd, 0, 0))
      && (!IsHandled(op) ==> Decode(w) == DecodedInstruction(op, 0, 0, 0, 0, 0, 0, 0))
  {
  }

  // ---------------------------------------------------------------------
  // The imperative decoder
  // ---------------------------------------------------------------------

  /** `for (i = lo; i <= hi; i++) dst.set(i - lo + dlo, bin[i])`:
      copies bits lo..hi of bin into dst from position dlo on, and leaves
      every other bit of dst as it was */
  method CopyBits(dst: seq<bool>, dlo: nat, bin: seq<bool>, lo: nat, hi: nat)
    returns (r: seq<bool>)
    requires lo <= hi < |bin| && dlo + (hi - lo) < |dst|
    ensures |r| == |dst|
    ensures forall j :: 0 <= j < |r| ==>
              r[j] == if dlo <= j < dlo + (hi + 1 - lo) then bin[lo + j - dlo] else dst[j]
  {
    r := dst;
    for i := lo to hi + 1
      invariant |r| == |dst|
      invariant forall j :: 0 <= j < |r| ==>
                  r[j] == if dlo <= j < dlo + (i - lo) then bin[lo + j - dlo] else dst[j]
    {
      r := r[dlo + (i - lo) := bin[i]];
    }
  }

  /** The value of bits lo..hi of the word's bitset is the word's field */
  lemma WordPiece(w: u32, lo: nat, hi: nat)
    requires lo <= hi < 32
    ensures ToNat(BitsOf(w, 0, 32)[lo..hi + 1]) == Field(w, lo, hi + 1 - lo)
  {
    assert BitsOf(w, 0, 32)[lo..hi + 1] == BitsOf(w, lo, hi + 1 - lo);
    ToNatBitsOf(w, lo, hi + 1 - lo);
  }

  /** `bitset<20>(~bitset<12>(imm) + 1)`: the magnitude of a negative
      12-bit immediate */
  method Negate12(imm: seq<bool>) returns (r: seq<bool>)
    requires |imm| == 20 && ToNat(imm) < 0x1000
    ensures |r| == 20 && ToNat(r) == 0x1000 - ToNat(imm)
  {
    Pow2Table();
    var temp := BitsOf(ToNat(imm), 0, 12);
    SmallBitsOf(ToNat(imm), 12);
    ToNatNot(temp);
    temp := Not(temp);
    r := BitsOf(ToNat(temp) + 1, 0, 20);
    SmallBitsOf(ToNat(temp) + 1, 20);
  }

  /** The same with the complement shifted right once before the +1 */
  method NegateHalve12(imm: seq<bool>) returns (r: seq<bool>)
    requires |imm| == 20 && ToNat(imm) < 0x1000
    ensures |r| == 20 && ToNat(r) == (0xfff - ToNat(imm)) / 2 + 1
  {
    Pow2Table();
    var temp := BitsOf(ToNat(imm), 0, 12);
    SmallBitsOf(ToNat(imm), 12);
    ToNatNot(temp);
    temp := Not(temp);
    ToNatShiftRight1(temp);
    temp := ShiftRight1(temp);
    r := BitsOf(ToNat(temp) + 1, 0, 20);
    SmallBitsOf(ToNat(temp) + 1, 20);
  }

  /** `~imm; imm >>= 1; bitset<20>(imm + 1)`: the magnitude of a negative
      20-bit jump offset */
  method NegateHalve20(imm: seq<bool>) returns (r: seq<bool>)
    requires |imm| == 20
    ensures |r| == 20 && ToNat(r) == (0xfffff - ToNat(imm)) / 2 + 1
  {
    Pow2Table();
    ToNatNot(imm);
    var temp := Not(imm);
    ToNatShiftRight1(temp);
    temp := ShiftRight1(temp);
    r := BitsOf(ToNat(temp) + 1, 0, 20);
    SmallBitsOf(ToNat(temp) + 1, 20);
  }

  /** The signed value a magnitude bitset and its sign flag stand for */
  function Signed(neg: bool, imm: seq<bool>): int
  {
    var magnitude: int := ToNat(imm);
    if neg then -magnitude else magnitude
  }

  /** The opcode: bits 0..6 */
  method DecodeOpcode(ghost w: u32, bin: seq<bool>) returns (op: seq<bool>)
    requires bin == BitsOf(w, 0, 32)
    ensures ToNat(op) == Field(w, 0, 7)
  {
    op := CopyBits(Zeros(7), 0, bin, 0, 6);
    assert op == bin[0..7];
    WordPiece(w, 0, 6);
  }

  /** The copy loops of the I-type block */
  method CopyIFields(bin: seq<bool>) returns (map0: seq<bool>, f3: seq<bool>, map1: seq<bool>, imm: seq<bool>)
    requires |bin| == 32
    ensures map0 == bin[7..12] && f3 == bin[12..15] && map1 == bin[15..20]
    ensures imm == bin[20..32] + Zeros(8)
  {
    map0 := CopyBits(Zeros(5), 0, bin, 7, 11);
    f3 := CopyBits(Zeros(3), 0, bin, 12, 14);
    map1 := CopyBits(Zeros(5), 0, bin, 15, 19);
    imm := CopyBits(Zeros(20), 0, bin, 20, 31);
  }

  /** The I-type block: rd, funct3, rs1 and the sign-corrected immediate */
  method DecodeIFormat(ghost w: u32, bin: seq<bool>)
    returns (map0: seq<bool>, f3: seq<bool>, map1: seq<bool>, imm: seq<bool>, neg: bool)
    requires bin == BitsOf(w, 0, 32)
    ensures |map0| == 5 && |f3| == 3 && |map1| == 5
    ensures ToNat(map0) == Field(w, 7, 5) && ToNat(f3) == Field(w, 12, 3) && ToNat(map1) == Field(w, 15, 5)
    ensures Signed(neg, imm) == Immediate12(Bit(w, 31) == 1, FieldI(w))
  {
    Pow2Table();
    map0, f3, map1, imm := CopyIFields(bin);
    RawI(w);
    WordPiece(w, 7, 11); WordPiece(w, 12, 14); WordPiece(w, 15, 19);
    neg := false;
    if imm[11] {
      neg := true;
      imm := Negate12(imm);
    }
  }

  /** The copy loops of the S-type block */
  method CopySFields(bin: seq<bool>) returns (f3: seq<bool>, map1: seq<bool>, map2: seq<bool>, imm: seq<bool>)
    requires |bin| == 32
    ensures f3 == bin[12..15] && map1 == bin[15..20] && map2 == bin[20..25]
    ensures imm == bin[7..12] + bin[25..32] + Zeros(8)
  {
    imm := CopyBits(Zeros(20), 0, bin, 7, 11);
    f3 := CopyBits(Zeros(3), 0, bin, 12, 14);
    map1 := CopyBits(Zeros(5), 0, bin, 15, 19);
    map2 := CopyBits(Zeros(5), 0, bin, 20, 24);
    imm := CopyBits(imm, 5, bin, 25, 31);
  }

  /** The S-type block: funct3, rs1, rs2 and the sign-corrected offset */
  method DecodeSFormat(ghost w: u32, bin: seq<bool>)
    returns (f3: seq<bool>, map1: seq<bool>, map2: seq<bool>, imm: seq<bool>, neg: bool)
    requires bin == BitsOf(w, 0, 32)
    ensures |f3| == 3 && |map1| == 5 && |map2| == 5
    ensures ToNat(f3) == Field(w, 12, 3) && ToNat(map1) == Field(w, 15, 5) && ToNat(map2) == Field(w, 20, 5)
    ensures Signed(neg, imm) == Immediate12(Bit(w, 31) == 1, FieldS(w))
  {
    Pow2Table();
    f3, map1, map2, imm := CopySFields(bin);
    RawS(w);
    WordPiece(w, 12, 14); WordPiece(w, 15, 19); WordPiece(w, 20, 24);
    neg := false;
    if imm[11] {
      neg := true;
      imm := Negate12(imm);
    }
  }

  /** The R-type block: all three registers, funct2, funct3 and funct5 */
  method DecodeRFormat(ghost w: u32, bin: seq<bool>)
    returns (map0: seq<bool>, f3: seq<bool>, map1: seq<bool>, map2: seq<bool>, f2: seq<bool>, f5: seq<bool>)
    requires bin == BitsOf(w, 0, 32)
    ensures |map0| == 5 && |f3| == 3 && |map1| == 5 && |map2| == 5 && |f2| == 2 && |f5| == 5
    ensures ToNat(map0) == Field(w, 7, 5) && ToNat(f3) == Field(w, 12, 3)
    ensures ToNat(map1) == Field(w, 15, 5) && ToNat(map2) == Field(w, 20, 5)
    ensures ToNat(f2) == Field(w, 25, 2) && ToNat(f5) == Field(w, 27, 5)
  {
    map0 := CopyBits(Zeros(5), 0, bin, 7, 11);
    f3 := CopyBits(Zeros(3), 0, bin, 12, 14);
    map1 := CopyBits(Zeros(5), 0, bin, 15, 19);
    map2 := CopyBits(Zeros(5), 0, bin, 20, 24);
    f2 := CopyBits(Zeros(2), 0, bin, 25, 26);
    f5 := CopyBits(Zeros(5), 0, bin, 27, 31);
    assert map0 == bin[7..12] && f3 == bin[12..15] && map1 == bin[15..20] && map2 == bin[20..25];
    assert f2 == bin[25..27] && f5 == bin[27..32];
    WordPiece(w, 7, 11); WordPiece(w, 12, 14); WordPiece(w, 15, 19); WordPiece(w, 20, 24);
    WordPiece(w, 25, 26); WordPiece(w, 27, 31);
  }

  /** The copy loops of the SB-type block */
  method CopySBFields(bin: seq<bool>) returns (f3: seq<bool>, map1: seq<bool>, map2: seq<bool>, imm: seq<bool>)
    requires |bin| == 32
    ensures f3 == bin[12..15] && map1 == bin[15..20] && map2 == bin[20..25]
    ensures imm == bin[8..12] + bin[25..31] + bin[7..8] + bin[31..32] + Zeros(8)
  {
    imm := CopyBits(Zeros(20), 10, bin, 7, 7);
    imm := CopyBits(imm, 0, bin, 8, 11);
    f3 := CopyBits(Zeros(3), 0, bin, 12, 14);
    map1 := CopyBits(Zeros(5), 0, bin, 15, 19);
    map2 := CopyBits(Zeros(5), 0, bin, 20, 24);
    imm := CopyBits(imm, 4, bin, 25, 30);
    imm := CopyBits(imm, 11, bin, 31, 31);
  }

  /** The SB-type block: funct3, rs1, rs2 and the sign-corrected scaled offset */
  method DecodeSBFormat(ghost w: u32, bin: seq<bool>)
    returns (f3: seq<bool>, map1: seq<bool>, map2: seq<bool>, imm: seq<bool>, neg: bool)
    requires bin == BitsOf(w, 0, 32)
    ensures |f3| == 3 && |map1| == 5 && |map2| == 5
    ensures ToNat(f3) == Field(w, 12, 3) && ToNat(map1) == Field(w, 15, 5) && ToNat(map2) == Field(w, 20, 5)
    ensures Signed(neg, imm) == ImmediateSB(Bit(w, 31) == 1, FieldSB(w))
  {
    Pow2Table();
    f3, map1, map2, imm := CopySBFields(bin);
    RawSB(w);
    WordPiece(w, 12, 14); WordPiece(w, 15, 19); WordPiece(w, 20, 24);
    neg := false;
    if imm[11] {
      neg := true;
      imm := NegateHalve12(imm);
    }
  }

  /** The U-type block: rd and the 20-bit upper immediate */
  method DecodeUFormat(ghost w: u32, bin: seq<bool>) returns (map0: seq<bool>, imm: seq<bool>)
    requires bin == BitsOf(w, 0, 32)
    ensures |map0| == 5
    ensures ToNat(map0) == Field(w, 7, 5) && ToNat(imm) == FieldU(w)
  {
    map0 := CopyBits(Zeros(5), 0, bin, 7, 11);
    imm := CopyBits(Zeros(20), 0, bin, 12, 31);
    assert imm == bin[12..32] && map0 == bin[7..12];
    RawU(w);
    WordPiece(w, 7, 11);
  }

  /** The copy loops of the UJ-type block */
  method CopyUJFields(bin: seq<bool>) returns (map0: seq<bool>, imm: seq<bool>)
    requires |bin| == 32
    ensures map0 == bin[7..12]
    ensures imm == bin[21..31] + bin[20..21] + bin[12..20] + bin[31..32]
  {
    map0 := CopyBits(Zeros(5), 0, bin, 7, 11);
    imm := CopyBits(Zeros(20), 11, bin, 12, 19);
    imm := CopyBits(imm, 10, bin, 20, 20);
    imm := CopyBits(imm, 0, bin, 21, 30);
    imm := CopyBits(imm, 19, bin, 31, 31);
  }

  /** The UJ-type block: rd and the sign-corrected scaled offset */
  method DecodeUJFormat(ghost w: u32, bin: seq<bool>) returns (map0: seq<bool>, imm: seq<bool>, neg: bool)
    requires bin == BitsOf(w, 0, 32)
    ensures |map0| == 5
    ensures ToNat(map0) == Field(w, 7, 5)
    ensures Signed(neg, imm) == ImmediateUJ(Bit(w, 31) == 1, FieldUJ(w))
  {
    Pow2Table();
    map0, imm := CopyUJFields(bin);
    RawUJ(w);
    WordPiece(w, 7, 11);
    neg := false;
    if imm[19] {
      neg := true;
      imm := NegateHalve20(imm);
    } else {
      ToNatShiftRight1(imm);
      imm := ShiftRight1(imm);
    }
  }

  // ---------------------------------------------------------------------
  // The raw immediates the blocks assemble are the spec's fields
  // ---------------------------------------------------------------------

  lemma RawI(w: u32)
    ensures var bin := BitsOf(w, 0, 32);
      ToNat(bin[20..32] + Zeros(8)) == FieldI(w) &&
      ((bin[20..32] + Zeros(8))[11] <==> Bit(w, 31) == 1)
  {
    Pow2Table();
    var bin := BitsOf(w, 0, 32);
    ToNatAppend(bin[20..32], Zeros(8));
    ToNatZeros(8);
    WordPiece(w, 20, 31);
  }

  lemma RawS(w: u32)
    ensures var bin := BitsOf(w, 0, 32);
      ToNat(bin[7..12] + bin[25..32] + Zeros(8)) == FieldS(w) &&
      ((bin[7..12] + bin[25..32] + Zeros(8))[11] <==> Bit(w, 31) == 1)
  {
    Pow2Table();
    var bin := BitsOf(w, 0, 32);
    var a, b := bin[7..12], bin[25..32];
    ToNatPadZeros(a + b, 8);
    ToNatAppend(a, b);
    WordPiece(w, 7, 11);
    WordPiece(w, 25, 31);
    assert (a + b + Zeros(8))[11] == b[6] == bin[31];
  }

  /** The value of the SB-type immediate bitset */
  lemma SBValue(a: seq<bool>, b: seq<bool>, c: seq<bool>, d: seq<bool>)
    requires |a| == 4 && |b| == 6 && |c| == 1 && |d| == 1
    ensures ToNat(a + b + c + d + Zeros(8)) == ToNat(a) + 16 * ToNat(b) + 1024 * ToNat(c) + 2048 * ToNat(d)
    ensures (a + b + c + d + Zeros(8))[11] == d[0]
  {
    Pow2Table();
    assert ToNat(a + b) == ToNat(a) + 16 * ToNat(b) by {
      ToNatAppend(a, b);
      assert Pow2(4) == 16;
    }
    assert ToNat(a + b + c) == ToNat(a + b) + 1024 * ToNat(c) by {
      ToNatAppend(a + b, c);
      assert Pow2(10) == 1024;
    }
    assert ToNat(a + b + c + d) == ToNat(a + b + c) + 2048 * ToNat(d) by {
      ToNatAppend(a + b + c, d);
      assert Pow2(11) == 2048;
    }
    ToNatPadZeros(a + b + c + d, 8);
  }

  lemma RawSB(w: u32)
    ensures var bin := BitsOf(w, 0, 32);
      var imm := bin[8..12] + bin[25..31] + bin[7..8] + bin[31..32] + Zeros(8);
      ToNat(imm) == FieldSB(w) && (imm[11] <==> Bit(w, 31) == 1)
  {
    WordPiece(w, 8, 11);
    WordPiece(w, 25, 30);
    WordPiece(w, 7, 7);
    WordPiece(w, 31, 31);
    SBFromPieces(w, BitsOf(w, 0, 32));
  }

  lemma SBFromPieces(w: u32, bin: seq<bool>)
    requires |bin| == 32 && (bin[31] <==> Bit(w, 31) == 1)
    requires ToNat(bin[8..12]) == Field(w, 8, 4) && ToNat(bin[25..31]) == Field(w, 25, 6)
    requires ToNat(bin[7..8]) == Field(w, 7, 1) && ToNat(bin[31..32]) == Field(w, 31, 1)
    ensures var imm := bin[8..12] + bin[25..31] + bin[7..8] + bin[31..32] + Zeros(8);
      ToNat(imm) == FieldSB(w) && (imm[11] <==> Bit(w, 31) == 1)
  {
    SBValue(bin[8..12], bin[25..31], bin[7..8], bin[31..32]);
    Pow2Table();
    assert Field(w, 7, 1) == Bit(w, 7) && Field(w, 31, 1) == Bit(w, 31);
  }

  lemma RawU(w: u32)
    ensures ToNat(BitsOf(w, 0, 32)[12..32]) == FieldU(w)
  {
    WordPiece(w, 12, 31);
  }

  lemma RawUJ(w: u32)
    ensures var bin := BitsOf(w, 0, 32);
      var imm := bin[21..31] + bin[20..21] + bin[12..20] + bin[31..32];
      ToNat(imm) == FieldUJ(w) && (imm[19] <==> Bit(w, 31) == 1)
  {
    WordPiece(w, 21, 30);
    WordPiece(w, 20, 20);
    WordPiece(w, 12, 19);
    WordPiece(w, 31, 31);
    UJFromPieces(w, BitsOf(w, 0, 32));
  }

  lemma UJFromPieces(w: u32, bin: seq<bool>)
    requires |bin| == 32 && (bin[31] <==> Bit(w, 31) == 1)
    requires ToNat(bin[21..31]) == Field(w, 21, 10) && ToNat(bin[20..21]) == Field(w, 20, 1)
    requires ToNat(bin[12..20]) == Field(w, 12, 8) && ToNat(bin[31..32]) == Field(w, 31, 1)
    ensures var imm := bin[21..31] + bin[20..21] + bin[12..20] + bin[31..32];
      ToNat(imm) == FieldUJ(w) && (imm[19] <==> Bit(w, 31) == 1)
  {
    UJValue(bin[21..31], bin[20..21], bin[12..20], bin[31..32]);
    Pow2Table();
    assert Field(w, 20, 1) == Bit(w, 20) && Field(w, 31, 1) == Bit(w, 31);
  }

  /** The value of the UJ-type immediate bitset */
  lemma UJValue(a: seq<bool>, b: seq<bool>, c: seq<bool>, d: seq<bool>)
    requires |a| == 10 && |b| == 1 && |c| == 8 && |d| == 1
    ensures ToNat(a + b + c + d) == ToNat(a) + 1024 * ToNat(b) + 2048 * ToNat(c) + 0x80000 * ToNat(d)
    ensures (a + b + c + d)[19] == d[0]
  {
    Pow2Table();
    ToNatAppend(a, b);
    ToNatAppend(a + b, c);
    ToNatAppend(a + b + c, d);
  }

  /** The closing conversion of every bitset to an integer field */
  function Assemble(opcode: nat, neg: bool, imm: seq<bool>, f2: seq<bool>, f3: seq<bool>, f5: seq<bool>,
                    map0: seq<bool>, map1: seq<bool>, map2: seq<bool>): (d: DecodedInstruction)
    requires |map0| == 5 && |map1| == 5 && |map2| == 5
    ensures d.opcode == opcode && d.immediate == Signed(neg, imm)
    ensures d.funct2 == ToNat(f2) && d.funct3 == ToNat(f3) && d.funct5 == ToNat(f5)
    ensures d.reg0 == ToNat(map0) && d.reg1 == ToNat(map1) && d.reg2 == ToNat(map2)
  {
    assert Pow2(5) == 32;
    DecodedInstruction(opcode, Signed(neg, imm), ToNat(f2), ToNat(f3), ToNat(f5), ToNat(map0), ToNat(map1), ToNat(map2))
  }

  // ---------------------------------------------------------------------
  // Each block's bitsets assemble into what Decode yields for its format
  // ---------------------------------------------------------------------

  /** The bitsets a block leaves untouched are still zero */
  predicate Untouched(f2: seq<bool>, f5: seq<bool>, map0: seq<bool>, map2: seq<bool>, imm: seq<bool>, neg: bool,
                      touchesF2F5: bool, touchesMap0: bool, touchesMap2: bool, touchesImm: bool)
  {
    && (!touchesF2F5 ==> ToNat(f2) == 0 && ToNat(f5) == 0)
    && (!touchesMap0 ==> ToNat(map0) == 0)
    && (!touchesMap2 ==> ToNat(map2) == 0)
    && (!touchesImm ==> ToNat(imm) == 0 && !neg)
  }

  lemma AssembleI(w: u32, neg: bool, imm: seq<bool>, f2: seq<bool>, f3: seq<bool>, f5: seq<bool>,
                  map0: seq<bool>, map1: seq<bool>, map2: seq<bool>)
    requires |map0| == 5 && |map1| == 5 && |map2| == 5 && IsIType(Field(w, 0, 7))
    requires ToNat(map0) == Field(w, 7, 5) && ToNat(f3) == Field(w, 12, 3) && ToNat(map1) == Field(w, 15, 5)
    requires Signed(neg, imm) == Immediate12(Bit(w, 31) == 1, FieldI(w))
    requires Untouched(f2, f5, map0, map2, imm, neg, false, true, false, true)
    ensures Assemble(Field(w, 0, 7), neg, imm, f2, f3, f5, map0, map1, map2) == Decode(w)
  {
    DecodeCases(w);
  }

  lemma AssembleS(w: u32, neg: bool, imm: seq<bool>, f2: seq<bool>, f3: seq<bool>, f5: seq<bool>,
                  map0: seq<bool>, map1: seq<bool>, map2: seq<bool>)
    requires |map0| == 5 && |map1| == 5 && |map2| == 5 && IsSType(Field(w, 0, 7))
    requires ToNat(f3) == Field(w, 12, 3) && ToNat(map1) == Field(w, 15, 5) && ToNat(map2) == Field(w, 20, 5)
    requires Signed(neg, imm) == Immediate12(Bit(w, 31) == 1, FieldS(w))
    requires Untouched(f2, f5, map0, map2, imm, neg, false, false, true, true)
    ensures Assemble(Field(w, 0, 7), neg, imm, f2, f3, f5, map0, map1, map2) == Decode(w)
  {
    DecodeCases(w);
  }

  lemma AssembleR(w: u32, neg: bool, imm: seq<bool>, f2: seq<bool>, f3: seq<bool>, f5: seq<bool>,
                  map0: seq<bool>, map1: seq<bool>, map2: seq<bool>)
    requires |map0| == 5 && |map1| == 5 && |map2| == 5 && IsRType(Field(w, 0, 7))
    requires ToNat(map0) == Field(w, 7, 5) && ToNat(f3) == Field(w, 12, 3)
    requires ToNat(map1) == Field(w, 15, 5) && ToNat(map2) == Field(w, 20, 5)
    requires ToNat(f2) == Field(w, 25, 2) && ToNat(f5) == Field(w, 27, 5)
    requires Untouched(f2, f5, map0, map2, imm, neg, true, true, true, false)
    ensures Assemble(Field(w, 0, 7), neg, imm, f2, f3, f5, map0, map1, map2) == Decode(w)
  {
    DecodeCases(w);
  }

  lemma AssembleSB(w: u32, neg: bool, imm: seq<bool>, f2: seq<bool>, f3: seq<bool>, f5: seq<bool>,
                   map0: seq<bool>, map1: seq<bool>, map2: seq<bool>)
    requires |map0| == 5 && |map1| == 5 && |map2| == 5 && IsSBType(Field(w, 0, 7))
    requires ToNat(f3) == Field(w, 12, 3) && ToNat(map1) == Field(w, 15, 5) && ToNat(map2) == Field(w, 20, 5)
    requires Signed(neg, imm) == ImmediateSB(Bit(w, 31) == 1, FieldSB(w))
    requires Untouched(f2, f5, map0, map2, imm, neg, false, false, true, true)
    ensures Assemble(Field(w, 0, 7), neg, imm, f2, f3, f5, map0, map1, map2) == Decode(w)
  {
    DecodeCases(w);
  }

  lemma AssembleU(w: u32, neg: bool, imm: seq<bool>, f2: seq<bool>, f3: seq<bool>, f5: seq<bool>,
                  map0: seq<bool>, map1: seq<bool>, map2: seq<bool>)
    requires |map0| == 5 && |map1| == 5 && |map2| == 5 && IsUType(Field(w, 0, 7))
    requires ToNat(map0) == Field(w, 7, 5) && ToNat(imm) == FieldU(w) && !neg
    requires ToNat(f3) == 0 && ToNat(map1) == 0
    requires Untouched(f2, f5, map0, map2, imm, neg, false, true, false, true)
    ensures Assemble(Field(w, 0, 7), neg, imm, f2, f3, f5, map0, map1, map2) == Decode(w)
  {
    DecodeCases(w);
  }

  lemma AssembleUJ(w: u32, neg: bool, imm: seq<bool>, f2: seq<bool>, f3: seq<bool>, f5: seq<bool>,
                   map0: seq<bool>, map1: seq<bool>, map2: seq<bool>)
    requires |map0| == 5 && |map1| == 5 && |map2| == 5 && IsUJType(Field(w, 0, 7))
    requires ToNat(map0) == Field(w, 7, 5) && Signed(neg, imm) == ImmediateUJ(Bit(w, 31) == 1, FieldUJ(w))
    requires ToNat(f3) == 0 && ToNat(map1) == 0
    requires Untouched(f2, f5, map0, map2, imm, neg, false, true, false, true)
    ensures Assemble(Field(w, 0, 7), neg, imm, f2, f3, f5, map0, map1, map2) == Decode(w)
  {
    DecodeCases(w);
  }

  lemma AssembleUnhandled(w: u32, neg: bool, imm: seq<bool>, f2: seq<bool>, f3: seq<bool>, f5: seq<bool>,
                          map0: seq<bool>, map1: seq<bool>, map2: seq<bool>)
    requires |map0| == 5 && |map1| == 5 && |map2| == 5 && !IsHandled(Field(w, 0, 7))
    requires ToNat(f3) == 0 && ToNat(map1) == 0
    requires Untouched(f2, f5, map0, map2, imm, neg, false, false, false, false)
    ensures Assemble(Field(w, 0, 7), neg, imm, f2, f3, f5, map0, map1, map2) == Decode(w)
  {
    DecodeCases(w);
  }

  class InstructionDecoder {
    /** The most recently decoded instruction */
    var decoded: DecodedInstruction

    constructor ()
      ensures decoded == DecodedInstruction(0, 0, 0, 0, 0, 0, 0, 0)
    {
      decoded := DecodedInstruction(0, 0, 0, 0, 0, 0, 0, 0);
    }

    /** Decodes one instruction word into `decoded`: the opcode selects the
        format block, every bitset a block does not touch stays zero */
    method DecodeInstruction(instruction: u32)
      modifies this
      ensures decoded == Decode(instruction)
    {
      var imm, f2, f3, f5 := Zeros(20), Zeros(2), Zeros(3), Zeros(5);
      ToNatZeros(2); ToNatZeros(3); ToNatZeros(5); ToNatZeros(20);
      var map0, map1, map2 := Zeros(5), Zeros(5), Zeros(5);
      var bin := BitsOf(instruction, 0, 32);
      var neg := false;
      ghost var w := instruction;

      var op := DecodeOpcode(w, bin);
      var opcode := ToNat(op);

      if opcode == 0x13 || opcode == 0x03 || opcode == 0x67 || opcode == 0x1b {
        map0, f3, map1, imm, neg := DecodeIFormat(w, bin);
        AssembleI(w, neg, imm, f2, f3, f5, map0, map1, map2);
      }
      if opcode == 0x23 {
        f3, map1, map2, imm, neg := DecodeSFormat(w, bin);
        AssembleS(w, neg, imm, f2, f3, f5, map0, map1, map2);
      }
      if opcode == 0x33 || opcode == 0x3b {
        map0, f3, map1, map2, f2, f5 := DecodeRFormat(w, bin);
        AssembleR(w, neg, imm, f2, f3, f5, map0, map1, map2);
      }
      if opcode == 0x63 {
        f3, map1, map2, imm, neg := DecodeSBFormat(w, bin);
        AssembleSB(w, neg, imm, f2, f3, f5, map0, map1, map2);
      }
      if opcode == 0x37 {
        map0, imm := DecodeUFormat(w, bin);
        AssembleU(w, neg, imm, f2, f3, f5, map0, map1, map2);
      }
      if opcode == 0x6f {
        map0, imm, neg := DecodeUJFormat(w, bin);
        AssembleUJ(w, neg, imm, f2, f3, f5, map0, map1, map2);
      }
      if !IsHandled(opcode) {
        AssembleUnhandled(w, neg, imm, f2, f3, f5, map0, map1, map2);
      }

      decoded := Assemble(opcode, neg, imm, f2, f3, f5, map0, map1, map2);
    }

    /** The record the last DecodeInstruction produced */
    method GetDecodedInstruction() returns (d: DecodedInstruction)
      ensures d == decoded
    {
      d := decoded;
    }
  }
}
