/** A64 instruction words: the class predicates of insn.h, the immediate encoder, and the
    decoders of the Arm architecture that give the patched words their meaning. */
module Insn {
  import opened Bits

  type u32 = x: nat | x < TWO32
  type u64 = x: nat | x < TWO64

  // ----- instruction classes (insn.h, ArmARM C3.1)

  predicate IsAdr(code: u32) { BitAnd(code, 0x9F000000) == 0x10000000 }
  predicate IsAdrp(code: u32) { BitAnd(code, 0x9F000000) == 0x90000000 }
  predicate IsStoreImm(code: u32) { BitAnd(code, 0x3FC00000) == 0x39000000 }
  predicate IsLoadImm(code: u32) { BitAnd(code, 0x3FC00000) == 0x39400000 }
  predicate IsLdrLit(code: u32) { BitAnd(code, 0xBF000000) == 0x18000000 }
  predicate IsLdrswLit(code: u32) { BitAnd(code, 0xFF000000) == 0x98000000 }
  predicate IsAddImm(code: u32) { BitAnd(code, 0x7F000000) == 0x11000000 }
  predicate IsMovn(code: u32) { BitAnd(code, 0x7F800000) == 0x12800000 }
  predicate IsMovz(code: u32) { BitAnd(code, 0x7F800000) == 0x52800000 }
  predicate IsMovk(code: u32) { BitAnd(code, 0x7F800000) == 0x72800000 }
  predicate IsB(code: u32) { BitAnd(code, 0xFC000000) == 0x14000000 }
  predicate IsBl(code: u32) { BitAnd(code, 0xFC000000) == 0x94000000 }
  predicate IsCbz(code: u32) { BitAnd(code, 0x7F000000) == 0x34000000 }
  predicate IsCbnz(code: u32) { BitAnd(code, 0x7F000000) == 0x35000000 }
  predicate IsTbz(code: u32) { BitAnd(code, 0x7F000000) == 0x36000000 }
  predicate IsTbnz(code: u32) { BitAnd(code, 0x7F000000) == 0x37000000 }
  predicate IsBcond(code: u32) { BitAnd(code, 0xFF000010) == 0x54000000 }

  /** The 128-bit vector load and store with unsigned offset, which insn.h does not list. */
  predicate IsLdSt128(code: u32) {
    BitAnd(code, 0xFFC00000) == 0x3D800000 || BitAnd(code, 0xFFC00000) == 0x3DC00000
  }

  // ----- the immediate encoder

  const AARCH64_BREAK_FAULT: u32 := 0xd4202000

  datatype ImmType =
    | Adr | Imm26 | Imm19 | Imm16 | Imm14 | Imm12 | Imm9 | Imm7 | Imm6 | ImmS | ImmR | ImmN | ImmMax

  datatype ShiftMask = Invalid | ShiftMask(mask: u32, shift: nat)

  function GetImmShiftMask(imt: ImmType): ShiftMask {
    match imt
    case Imm26 => ShiftMask(0x3FFFFFF, 0)
    case Imm19 => ShiftMask(0x7FFFF, 5)
    case Imm16 => ShiftMask(0xFFFF, 5)
    case Imm14 => ShiftMask(0x3FFF, 5)
    case Imm12 => ShiftMask(0xFFF, 10)
    case Imm9 => ShiftMask(0x1FF, 12)
    case Imm7 => ShiftMask(0x7F, 15)
    case Imm6 => ShiftMask(0x3F, 10)
    case ImmS => ShiftMask(0x3F, 10)
    case ImmR => ShiftMask(0x3F, 16)
    case ImmN => ShiftMask(1, 22)
    case _ => Invalid
  }

  const ADR_IMM_LOMASK: u32 := 0x3
  const ADR_IMM_HIMASK: u32 := 0x7FFFF
  const ADR_IMM_LOSHIFT := 29
  const ADR_IMM_HISHIFT := 5

  /** Ors imm into the bits of insn that mask << shift names. */
  function Merge(insn: u32, imm: nat, mask: u32, shift: nat): u32 {
    BitOr(BitAnd(insn, Not32(Shl32(mask, shift))), Shl(BitAnd(imm, mask), shift)) % TWO32
  }

  function EncodeImmediate(imt: ImmType, insn: u32, imm: u64): u32 {
    if insn == AARCH64_BREAK_FAULT then AARCH64_BREAK_FAULT
    else if imt == Adr then
      var immlo := Shl32(BitAnd(imm, ADR_IMM_LOMASK), ADR_IMM_LOSHIFT);
      var immhi := Shl32(BitAnd(Shr(imm, 2), ADR_IMM_HIMASK), ADR_IMM_HISHIFT);
      var mask := BitOr(Shl(ADR_IMM_LOMASK, ADR_IMM_LOSHIFT), Shl(ADR_IMM_HIMASK, ADR_IMM_HISHIFT)) % TWO32;
      Merge(insn, BitOr(immlo, immhi), mask, 0)
    else
      match GetImmShiftMask(imt)
      case Invalid => AARCH64_BREAK_FAULT
      case ShiftMask(mask, shift) => Merge(insn, imm, mask, shift)
  }

  // ----- what the encoder means: fields written, everything else kept

  /** Position and width of an immediate that is one field, by the Arm architecture. */
  function ImmShift(imt: ImmType): nat
    requires imt != Adr && imt != ImmMax
  {
    match imt
    case Imm26 => 0
    case Imm19 => 5
    case Imm16 => 5
    case Imm14 => 5
    case Imm12 => 10
    case Imm9 => 12
    case Imm7 => 15
    case Imm6 => 10
    case ImmS => 10
    case ImmR => 16
    case ImmN => 22
  }

  function ImmWidth(imt: ImmType): (k: nat)
    requires imt != ImmMax
    ensures 0 < k && (imt != Adr ==> ImmShift(imt) + k <= 32)
  {
    match imt
    case Adr => 21
    case Imm26 => 26
    case Imm19 => 19
    case Imm16 => 16
    case Imm14 => 14
    case Imm12 => 12
    case Imm9 => 9
    case Imm7 => 7
    case Imm6 => 6
    case ImmS => 6
    case ImmR => 6
    case ImmN => 1
  }

  /** The code's table has those positions and widths. */
  lemma ImmMask(imt: ImmType)
    requires imt != Adr && imt != ImmMax
    ensures 0 <= Pow2(ImmWidth(imt)) - 1 < TWO32
    ensures GetImmShiftMask(imt) == ShiftMask(Pow2(ImmWidth(imt)) - 1, ImmShift(imt))
  {
    hide Pow2;
    Pow2Table();
  }

  /** The immediate held by an instruction word. */
  function ReadImm(imt: ImmType, w: u32): nat
    requires imt != ImmMax
  {
    if imt == Adr then Field(w, 29, 2) + 4 * Field(w, 5, 19)
    else Field(w, ImmShift(imt), ImmWidth(imt))
  }

  /** No bit of the mask lies in the immediate. */
  predicate ClearOf(imt: ImmType, mask: u32)
    requires imt != ImmMax
  {
    if imt == Adr then Field(mask, 29, 2) == 0 && Field(mask, 5, 19) == 0
    else Field(mask, ImmShift(imt), ImmWidth(imt)) == 0
  }

  /** Clearing a k-bit field and or-ing in the low k bits of a value writes that field only. */
  lemma MergeIsSetField(w: nat, imm: nat, s: nat, k: nat, t: nat)
    requires s + k <= t && w < Pow2(t)
    ensures 0 <= Shl(Pow2(k) - 1, s) < Pow2(t)
    ensures BitOr(BitAnd(w, Pow2(t) - 1 - Shl(Pow2(k) - 1, s)), Shl(BitAnd(imm, Pow2(k) - 1), s))
         == SetField(w, s, k, Low(imm, k))
    ensures SetField(w, s, k, Low(imm, k)) < Pow2(t)
  {
    AndClear(w, s, k, t);
    AndLow(imm, k);
    OrInto(w, s, k, Low(imm, k));
    SetFieldBound(w, s, k, Low(imm, k), t);
  }

  lemma MergeWord(insn: u32, imm: nat, mask: u32, s: nat, k: nat, t: nat)
    requires Pow2(t) == TWO32 && s + k <= t && mask == Pow2(k) - 1
    ensures Merge(insn, imm, mask, s) == SetField(insn, s, k, Low(imm, k))
  {
    hide BitAnd, BitOr, Shl, Low, SetField;
    MergeIsSetField(insn, imm, s, k, t);
  }

  lemma EncodeIsSetField(imt: ImmType, insn: u32, imm: u64)
    requires insn != AARCH64_BREAK_FAULT && imt != Adr && imt != ImmMax
    ensures EncodeImmediate(imt, insn, imm)
         == SetField(insn, ImmShift(imt), ImmWidth(imt), Low(imm, ImmWidth(imt)))
  {
    Pow2Table();
    ImmMask(imt);
    MergeWord(insn, imm, GetImmShiftMask(imt).mask, ImmShift(imt), ImmWidth(imt), 32);
  }

  /** The split ADR immediate: low 19 value bits 5 up in the low 24 bits of the word, the two
      lowest ones 5 up in the byte above. */
  function SetAdr(w: nat, lo: nat, hi: nat): nat
    requires lo < Pow2(2) && hi < Pow2(19)
  {
    SetField(Low(w, 24), 5, 19, hi) + Shl(SetField(Shr(w, 24), 5, 2, lo), 24)
  }

  lemma SetAdrParts(w: u32, lo: nat, hi: nat)
    requires lo < Pow2(2) && hi < Pow2(19)
    ensures Low(SetAdr(w, lo, hi), 24) == SetField(Low(w, 24), 5, 19, hi)
    ensures Shr(SetAdr(w, lo, hi), 24) == SetField(Shr(w, 24), 5, 2, lo)
    ensures SetAdr(w, lo, hi) < TWO32
  {
    hide Low, Shr, Shl, SetField, Pow2;
    assert Pow2(32) == TWO32 by { Pow2Table(); }
    ShrSmall(w, 24, 8);
    SetFieldBound(Low(w, 24), 5, 19, hi, 24);
    SetFieldBound(Shr(w, 24), 5, 2, lo, 8);
    Parts(SetAdr(w, lo, hi), 24, SetField(Low(w, 24), 5, 19, hi), SetField(Shr(w, 24), 5, 2, lo));
    InsertBound(SetField(Low(w, 24), 5, 19, hi), 24, 8, SetField(Shr(w, 24), 5, 2, lo));
  }

  /** Or of a part above bit 24 with one below it. */
  lemma OrHalves(hi: nat, lo: nat)
    requires lo < Pow2(24)
    ensures BitOr(Shl(hi, 24), lo) == lo + Shl(hi, 24)
  {
    hide Low, Shr, Shl, BitOr, Pow2;
    Parts(Shl(hi, 24), 24, 0, hi);
    LowSmall(lo, 24);
    OrSplit(Shl(hi, 24), lo, 24);
    OrZero(lo);
    OrZero(hi);
  }

  /** The two halves of the ADR mask and of its complement. */
  lemma AdrMask()
    ensures Shl32(ADR_IMM_LOMASK, ADR_IMM_LOSHIFT) == Shl(ADR_IMM_LOMASK, ADR_IMM_LOSHIFT) == 0x60000000
    ensures Shl32(ADR_IMM_HIMASK, ADR_IMM_HISHIFT) == Shl(ADR_IMM_HIMASK, ADR_IMM_HISHIFT) == 0xFFFFE0
    ensures Shl(3, 5) == 0x60 && Shl(0x60, 24) == 0x60000000 && Shl(0x9F, 24) == 0x9F000000
    ensures BitOr(0x60000000, 0xFFFFE0) == 0x60FFFFE0
  {
    Pow2Table();
    ShlIsMul(3, 29);
    ShlIsMul(0x7FFFF, 5);
    ShlIsMul(3, 5);
    ShlIsMul(0x60, 24);
    ShlIsMul(0x9F, 24);
    OrHalves(0x60, 0xFFFFE0);
  }

  /** Merging into a word is merging into its low 24 bits and into its top byte. */
  lemma MergeHalves(w: nat, x: nat, m: nat, nm: nat)
    ensures BitOr(BitAnd(w, nm), BitAnd(x, m))
         == BitOr(BitAnd(Low(w, 24), Low(nm, 24)), BitAnd(Low(x, 24), Low(m, 24)))
          + Shl(BitOr(BitAnd(Shr(w, 24), Shr(nm, 24)), BitAnd(Shr(x, 24), Shr(m, 24))), 24)
  {
    hide Low, Shr, Shl, BitOr, BitAnd, Pow2;
    AndParts(w, nm, 24);
    AndParts(x, m, 24);
    OrSplit(BitAnd(w, nm), BitAnd(x, m), 24);
  }

  /** One field of a t-bit half: a value already in place, masked in. */
  lemma MergePlaced(w: nat, v: nat, s: nat, k: nat, t: nat)
    requires s + k <= t && w < Pow2(t) && v < Pow2(k)
    ensures 0 <= Shl(Pow2(k) - 1, s) < Pow2(t)
    ensures BitOr(BitAnd(w, Pow2(t) - 1 - Shl(Pow2(k) - 1, s)), BitAnd(Shl(v, s), Shl(Pow2(k) - 1, s)))
         == SetField(w, s, k, v)
  {
    hide Low, Shr, Shl, BitOr, BitAnd, Pow2, SetField;
    AndShl(v, Pow2(k) - 1, s);
    LowSmall(v, k);
    MergeIsSetField(w, v, s, k, t);
  }

  /** The parts of the split immediate as the encoder builds them. */
  lemma AdrPlaced(imm: u64)
    ensures var lo, hi := Low(imm, 2), Low(Shr(imm, 2), 19);
            && Shl32(BitAnd(imm, ADR_IMM_LOMASK), ADR_IMM_LOSHIFT) == Shl(Shl(lo, 5), 24)
            && Shl32(BitAnd(Shr(imm, 2), ADR_IMM_HIMASK), ADR_IMM_HISHIFT) == Shl(hi, 5) < Pow2(24)
  {
    hide Low, Shr, Shl, BitOr, BitAnd, Pow2;
    var lo, hi := Low(imm, 2), Low(Shr(imm, 2), 19);
    assert Pow2(2) == 4 && Pow2(19) == 0x80000 && Pow2(24) == 0x1000000 && Pow2(31) == 0x80000000
      by { Pow2Table(); }
    AndLow(imm, 2);
    AndLow(Shr(imm, 2), 19);
    InsertBound(0, 29, 2, lo);
    InsertBound(0, 5, 19, hi);
    ShlShl(lo, 5, 24);
  }

  lemma EncodeAdr(insn: u32, imm: u64)
    requires insn != AARCH64_BREAK_FAULT
    ensures EncodeImmediate(Adr, insn, imm) == SetAdr(insn, Low(imm, 2), Low(Shr(imm, 2), 19))
  {
    hide Low, Shr, Shl, BitOr, BitAnd, Pow2, SetField;
    var lo, hi := Low(imm, 2), Low(Shr(imm, 2), 19);
    assert Pow2(2) == 4 && Pow2(19) == 0x80000 && Pow2(24) == 0x1000000 && Pow2(8) == 0x100
           && Pow2(32) == TWO32 by { Pow2Table(); }
    AdrMask();
    AdrPlaced(imm);
    var x, m, nm := BitOr(Shl(Shl(lo, 5), 24), Shl(hi, 5)), 0x60FFFFE0, 0x9F00001F;
    OrHalves(Shl(lo, 5), Shl(hi, 5));
    Parts(x, 24, Shl(hi, 5), Shl(lo, 5));
    Parts(m, 24, 0xFFFFE0, 0x60);
    Parts(nm, 24, 0x1F, 0x9F);
    assert Merge(insn, x, m, 0) == BitOr(BitAnd(insn, nm), BitAnd(x, m)) % TWO32 by {
      assert Shl(m, 0) == m && Shl(BitAnd(x, m), 0) == BitAnd(x, m) by { ShlByZero(m); ShlByZero(BitAnd(x, m)); }
    }
    MergeHalves(insn, x, m, nm);
    ShrSmall(insn, 24, 8);
    MergePlaced(Low(insn, 24), hi, 5, 19, 24);
    MergePlaced(Shr(insn, 24), lo, 5, 2, 8);
    SetAdrParts(insn, lo, hi);
  }

  // ----- the encoder's contract: the immediate reads back, no other bit moves

  lemma EncodeReads(imt: ImmType, insn: u32, imm: u64)
    requires insn != AARCH64_BREAK_FAULT && imt != ImmMax
    ensures ReadImm(imt, EncodeImmediate(imt, insn, imm)) == Low(imm, ImmWidth(imt))
  {
    hide Low, Shr, Shl, Pow2, SetField, EncodeImmediate, SetAdr;
    if imt == Adr {
      var lo, hi := Low(imm, 2), Low(Shr(imm, 2), 19);
      var w := SetAdr(insn, lo, hi);
      EncodeAdr(insn, imm);
      SetAdrParts(insn, lo, hi);
      FieldOfSet(Low(insn, 24), 5, 19, hi);
      FieldOfSet(Shr(insn, 24), 5, 2, lo);
      ShrShr(w, 24, 5);
      assert Low(w, 24) == Low(Low(w, 24), 24) by { LowSmall(Low(w, 24), 24); }
      FieldBelow(w, Low(w, 24), 24, 5, 19);
      LowLow(imm, 2, 19);
      assert Shl(hi, 2) == 4 * hi by { ShlIsMul(hi, 2); Pow2Table(); }
    } else {
      EncodeIsSetField(imt, insn, imm);
      FieldOfSet(insn, ImmShift(imt), ImmWidth(imt), Low(imm, ImmWidth(imt)));
    }
  }

  lemma EncodeBreak(imt: ImmType, imm: u64)
    ensures EncodeImmediate(imt, AARCH64_BREAK_FAULT, imm) == AARCH64_BREAK_FAULT
  {
  }

  lemma EncodeKeeps(imt: ImmType, insn: u32, imm: u64, mask: u32)
    requires imt != ImmMax && ClearOf(imt, mask)
    ensures BitAnd(EncodeImmediate(imt, insn, imm), mask) == BitAnd(insn, mask)
  {
    hide Low, Shr, Shl, Pow2, SetField, EncodeImmediate, SetAdr, BitAnd;
    if insn == AARCH64_BREAK_FAULT {
      assert EncodeImmediate(imt, insn, imm) == insn by { EncodeBreak(imt, imm); }
    } else if imt == Adr {
      var lo, hi := Low(imm, 2), Low(Shr(imm, 2), 19);
      var w := SetAdr(insn, lo, hi);
      EncodeAdr(insn, imm);
      SetAdrParts(insn, lo, hi);
      FieldOfSet(Low(insn, 24), 5, 19, hi);
      FieldOfSet(Shr(insn, 24), 5, 2, lo);
      ShrShr(mask, 24, 5);
      assert Low(mask, 24) == Low(Low(mask, 24), 24) by { LowSmall(Low(mask, 24), 24); }
      FieldBelow(mask, Low(mask, 24), 24, 5, 19);
      MaskBlind(Low(insn, 24), Low(w, 24), Low(mask, 24), 5, 19);
      MaskBlind(Shr(insn, 24), Shr(w, 24), Shr(mask, 24), 5, 2);
      AndSplit(insn, mask, 24);
      AndSplit(w, mask, 24);
    } else {
      var s, k := ImmShift(imt), ImmWidth(imt);
      EncodeIsSetField(imt, insn, imm);
      FieldOfSet(insn, s, k, Low(imm, k));
      MaskBlind(insn, SetField(insn, s, k, Low(imm, k)), mask, s, k);
    }
  }

  lemma EncodeTwice(imt: ImmType, insn: u32, imm: u64)
    requires imt != ImmMax
    ensures var w := EncodeImmediate(imt, insn, imm); EncodeImmediate(imt, w, imm) == w
  {
    hide Low, Shr, Shl, Pow2, EncodeImmediate;
    var w := EncodeImmediate(imt, insn, imm);
    if w == AARCH64_BREAK_FAULT {
      EncodeBreak(imt, imm);
    } else if insn == AARCH64_BREAK_FAULT {
      EncodeBreak(imt, imm);
    } else if imt == Adr {
      var lo, hi := Low(imm, 2), Low(Shr(imm, 2), 19);
      EncodeAdr(insn, imm);
      EncodeAdr(w, imm);
      SetAdrParts(insn, lo, hi);
      FieldOfSet(Low(insn, 24), 5, 19, hi);
      FieldOfSet(Shr(insn, 24), 5, 2, lo);
    } else {
      EncodeIsSetField(imt, insn, imm);
      EncodeIsSetField(imt, w, imm);
      FieldOfSet(insn, ImmShift(imt), ImmWidth(imt), Low(imm, ImmWidth(imt)));
    }
  }
}
