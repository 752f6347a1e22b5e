/** What patched A64 words compute, by the Arm architecture, and which words each relocation
    is for. */
module Decode {
  import opened Bits
  import opened Insn
  import opened Memory
  import opened Reloc

  // ----- operand values and branch targets (ArmARM C6.2)

  function BranchTarget(w: u32, pc: u64): u64 {
    ToU64(pc + 4 * SignExtend(Field(w, 0, 26), 26))
  }

  /** B.cond, CBZ, CBNZ and the literal loads. */
  function LiteralTarget(w: u32, pc: u64): u64 {
    ToU64(pc + 4 * SignExtend(Field(w, 5, 19), 19))
  }

  function TestTarget(w: u32, pc: u64): u64 {
    ToU64(pc + 4 * SignExtend(Field(w, 5, 14), 14))
  }

  /** immhi:immlo of ADR and ADRP. */
  function AdrImm(w: u32): nat {
    Field(w, 29, 2) + 4 * Field(w, 5, 19)
  }

  function AdrResult(w: u32, pc: u64): u64 {
    ToU64(pc + SignExtend(AdrImm(w), 21))
  }

  function AdrpResult(w: u32, pc: u64): u64 {
    ToU64(Page(pc) + 0x1000 * SignExtend(AdrImm(w), 21))
  }

  /** ADD (immediate), unshifted, on a 64-bit register. */
  function AddResult(w: u32, rn: u64): u64 {
    ToU64(rn + Field(w, 10, 12))
  }

  /** log2 of the access size of a load or store with unsigned offset. */
  function Scale(w: u32): nat {
    if IsLdSt128(w) then 4 else Field(w, 30, 2)
  }

  function LdStAddress(w: u32, rn: u64): u64 {
    ToU64(rn + Shl(Field(w, 10, 12), Scale(w)))
  }

  /** The encoder's notion of an immediate is the decoder's, for every type that a relocation
      writes. */
  lemma ImmFields(w: u32)
    ensures ReadImm(Imm26, w) == Field(w, 0, 26)
    ensures ReadImm(Imm19, w) == Field(w, 5, 19)
    ensures ReadImm(Imm14, w) == Field(w, 5, 14)
    ensures ReadImm(Imm12, w) == Field(w, 10, 12)
    ensures ReadImm(Imm16, w) == Field(w, 5, 16)
    ensures ReadImm(Adr, w) == AdrImm(w)
  {
    hide Field;
  }

  /** The register after MOVZ, MOVN or MOVK, given its value before. */
  function MoveWide(w: u32, rd: u64): u64 {
    var s, imm := 16 * Field(w, 21, 2), Field(w, 5, 16);
    if IsMovk(w) then ToU64(SetField(rd, s, 16, imm))
    else if IsMovz(w) then ToU64(Shl(imm, s))
    else Not64(ToU64(Shl(imm, s)))
  }

  // ----- the words a relocation is for

  /** 64-bit wide moves of one 16-bit group. */
  predicate WideGroup(w: u32, group: nat) {
    BitAnd(w, 0x80600000) == 0x80000000 + group * 0x200000
  }

  predicate LdSt(w: u32, scale: nat) {
    (IsLoadImm(w) || IsStoreImm(w)) && BitAnd(w, 0xC0000000) == scale * 0x40000000
  }

  predicate Targets(t: RelocType, w: u32) {
    match HowtoOf(t)
    case Movw(_, group, signed) =>
      WideGroup(w, group) && (IsMovz(w) || if signed then IsMovn(w) else IsMovk(w))
    case Imm(_, _, _, Imm26) => IsB(w) || IsBl(w)
    case Imm(_, _, _, Imm14) => IsTbz(w) || IsTbnz(w)
    case Imm(_, _, _, Imm19) =>
      if t == LD_PREL_LO19 then IsLdrLit(w) || IsLdrswLit(w) else IsBcond(w) || IsCbz(w) || IsCbnz(w)
    case Imm(op, _, _, Adr) => if op == OpPage then IsAdrp(w) else IsAdr(w)
    case Imm(_, lsb, _, _) =>
      if t == ADD_ABS_LO12_NC then IsAddImm(w) && BitAnd(w, 0x80C00000) == 0x80000000
      else if lsb == 4 then IsLdSt128(w)
      else LdSt(w, lsb)
    case _ => true
  }

  // ----- such words are never the fault marker, and patching keeps them in their class

  /** A class mask, its code and the marker, each by its bits from s on (k of them) and above. */
  lemma ClassNotFault(w: u32, mask: u32, code: u32, s: nat, k: nat,
                      mlo: nat, mhi: nat, clo: nat, c: nat, chi: nat, blo: nat, b: nat, bhi: nat)
    requires BitAnd(w, mask) == code && b != c
    requires mlo < Pow2(s) && mask == mlo + (Pow2(k) - 1) * Pow2(s) + mhi * Pow2(s + k)
    requires clo < Pow2(s) && c < Pow2(k) && code == clo + c * Pow2(s) + chi * Pow2(s + k)
    requires blo < Pow2(s) && b < Pow2(k) && AARCH64_BREAK_FAULT == blo + b * Pow2(s) + bhi * Pow2(s + k)
    ensures w != AARCH64_BREAK_FAULT
  {
    hide BitAnd, Pow2;
    ConstField(mask, s, k, mlo, Pow2(k) - 1, mhi);
    ConstField(code, s, k, clo, c, chi);
    ConstField(AARCH64_BREAK_FAULT, s, k, blo, b, bhi);
    MaskedField(w, mask, code, s, k);
  }

  lemma AddressingNotFault(w: u32)
    requires IsAdr(w) || IsAdrp(w) || IsAddImm(w)
    ensures w != AARCH64_BREAK_FAULT
  {
    hide BitAnd, Pow2, Low, Shr;
    Pow2Table();
    if IsAdr(w) {
      ClassNotFault(w, 0x9F000000, 0x10000000, 24, 5, 0, 4, 0, 0x10, 0, 0x202000, 0x14, 6);
    } else if IsAdrp(w) {
      ClassNotFault(w, 0x9F000000, 0x90000000, 24, 5, 0, 4, 0, 0x10, 4, 0x202000, 0x14, 6);
    } else if IsAddImm(w) {
      ClassNotFault(w, 0x7F000000, 0x11000000, 24, 5, 0, 3, 0, 0x11, 0, 0x202000, 0x14, 6);
    }
  }

  lemma LoadsNotFault(w: u32)
    requires IsLoadImm(w) || IsStoreImm(w) || IsLdrLit(w) || IsLdrswLit(w)
             || BitAnd(w, 0xFFC00000) == 0x3D800000 || BitAnd(w, 0xFFC00000) == 0x3DC00000
    ensures w != AARCH64_BREAK_FAULT
  {
    hide BitAnd, Pow2, Low, Shr;
    Pow2Table();
    if IsLoadImm(w) {
      ClassNotFault(w, 0x3FC00000, 0x39400000, 24, 5, 0xC00000, 1, 0x400000, 0x19, 1, 0x202000, 0x14, 6);
    } else if IsStoreImm(w) {
      ClassNotFault(w, 0x3FC00000, 0x39000000, 24, 5, 0xC00000, 1, 0, 0x19, 1, 0x202000, 0x14, 6);
    } else if IsLdrLit(w) {
      ClassNotFault(w, 0xBF000000, 0x18000000, 24, 5, 0, 5, 0, 0x18, 0, 0x202000, 0x14, 6);
    } else if IsLdrswLit(w) {
      ClassNotFault(w, 0xFF000000, 0x98000000, 24, 5, 0, 7, 0, 0x18, 4, 0x202000, 0x14, 6);
    } else if BitAnd(w, 0xFFC00000) == 0x3D800000 {
      ClassNotFault(w, 0xFFC00000, 0x3D800000, 24, 5, 0xC00000, 7, 0x800000, 0x1D, 1, 0x202000, 0x14, 6);
    } else if BitAnd(w, 0xFFC00000) == 0x3DC00000 {
      ClassNotFault(w, 0xFFC00000, 0x3DC00000, 24, 5, 0xC00000, 7, 0xC00000, 0x1D, 1, 0x202000, 0x14, 6);
    }
  }

  lemma WideNotFault(w: u32)
    requires IsMovn(w) || IsMovz(w) || IsMovk(w)
    ensures w != AARCH64_BREAK_FAULT
  {
    hide BitAnd, Pow2, Low, Shr;
    Pow2Table();
    if IsMovn(w) {
      ClassNotFault(w, 0x7F800000, 0x12800000, 24, 5, 0x800000, 3, 0x800000, 0x12, 0, 0x202000, 0x14, 6);
    } else if IsMovz(w) {
      ClassNotFault(w, 0x7F800000, 0x52800000, 24, 5, 0x800000, 3, 0x800000, 0x12, 2, 0x202000, 0x14, 6);
    } else if IsMovk(w) {
      ClassNotFault(w, 0x7F800000, 0x72800000, 24, 5, 0x800000, 3, 0x800000, 0x12, 3, 0x202000, 0x14, 6);
    }
  }

  lemma BranchesNotFault(w: u32)
    requires IsB(w) || IsBl(w) || IsCbz(w) || IsCbnz(w) || IsTbz(w) || IsTbnz(w) || IsBcond(w)
    ensures w != AARCH64_BREAK_FAULT
  {
    hide BitAnd, Pow2, Low, Shr;
    Pow2Table();
    if IsB(w) {
      ClassNotFault(w, 0xFC000000, 0x14000000, 26, 5, 0, 1, 0, 5, 0, 0x202000, 0x15, 1);
    } else if IsBl(w) {
      ClassNotFault(w, 0xFC000000, 0x94000000, 26, 5, 0, 1, 0, 5, 1, 0x202000, 0x15, 1);
    } else if IsCbz(w) {
      ClassNotFault(w, 0x7F000000, 0x34000000, 24, 7, 0, 0, 0, 0x34, 0, 0x202000, 0x54, 1);
    } else if IsCbnz(w) {
      ClassNotFault(w, 0x7F000000, 0x35000000, 24, 7, 0, 0, 0, 0x35, 0, 0x202000, 0x54, 1);
    } else if IsTbz(w) {
      ClassNotFault(w, 0x7F000000, 0x36000000, 24, 7, 0, 0, 0, 0x36, 0, 0x202000, 0x54, 1);
    } else if IsTbnz(w) {
      ClassNotFault(w, 0x7F000000, 0x37000000, 24, 7, 0, 0, 0, 0x37, 0, 0x202000, 0x54, 1);
    } else if IsBcond(w) {
      ClassNotFault(w, 0xFF000010, 0x54000000, 24, 8, 0x10, 0, 0, 0x54, 0, 0x202000, 0xD4, 0);
    }
  }

  lemma TargetsNotFault(t: RelocType, w: u32)
    requires HowtoOf(t).Imm? || HowtoOf(t).Movw?
    requires Targets(t, w)
    ensures w != AARCH64_BREAK_FAULT
  {
    hide BitAnd;
    if IsAdr(w) || IsAdrp(w) || IsAddImm(w) {
      AddressingNotFault(w);
    } else if IsMovz(w) || IsMovn(w) || IsMovk(w) {
      WideNotFault(w);
    } else if IsB(w) || IsBl(w) || IsCbz(w) || IsCbnz(w) || IsTbz(w) || IsTbnz(w) || IsBcond(w) {
      BranchesNotFault(w);
    } else {
      LoadsNotFault(w);
    }
  }

  /** The class masks avoid the immediates written in their classes. */
  lemma BranchMasks()
    ensures ClearOf(Imm26, 0xFC000000)
    ensures ClearOf(Imm19, 0xBF000000) && ClearOf(Imm19, 0xFF000000) && ClearOf(Imm19, 0x7F000000)
    ensures ClearOf(Imm19, 0xFF000010) && ClearOf(Imm14, 0x7F000000)
  {
    hide Pow2, Field;
    Pow2Table();
    ConstField(0xFC000000, 0, 26, 0, 0, 0x3F);
    ConstField(0xBF000000, 5, 19, 0, 0, 0xBF);
    ConstField(0xFF000000, 5, 19, 0, 0, 0xFF);
    ConstField(0x7F000000, 5, 19, 0, 0, 0x7F);
    ConstField(0xFF000010, 5, 19, 0x10, 0, 0xFF);
    ConstField(0x7F000000, 5, 14, 0, 0, 0xFE0);
  }

  lemma AddressMasks()
    ensures ClearOf(Adr, 0x9F000000)
    ensures ClearOf(Imm12, 0x3FC00000) && ClearOf(Imm12, 0x7F000000) && ClearOf(Imm12, 0xFFC00000)
    ensures ClearOf(Imm12, 0x80C00000) && ClearOf(Imm12, 0xC0000000)
  {
    hide Pow2, Field;
    Pow2Table();
    ConstField(0x9F000000, 29, 2, 0x1F000000, 0, 1);
    ConstField(0x9F000000, 5, 19, 0, 0, 0x9F);
    ConstField(0x3FC00000, 10, 12, 0, 0, 0xFF);
    ConstField(0x7F000000, 10, 12, 0, 0, 0x1FC);
    ConstField(0xFFC00000, 10, 12, 0, 0, 0x3FF);
    ConstField(0x80C00000, 10, 12, 0, 0, 0x203);
    ConstField(0xC0000000, 10, 12, 0, 0, 0x300);
  }

  lemma WideMasks()
    ensures ClearOf(Imm16, 0x7F800000) && ClearOf(Imm16, 0x80600000)
    ensures Field(0x80600000, 29, 2) == 0
    ensures Low(0x7F800000, 29) == 0x1F800000 && Shr(0x7F800000, 29) == 3
  {
    hide Pow2, Field, Low, Shr;
    Pow2Table();
    ConstField(0x7F800000, 5, 16, 0, 0, 0x3FC);
    ConstField(0x80600000, 5, 16, 0, 0, 0x403);
    ConstField(0x80600000, 29, 2, 0x600000, 0, 1);
    ShlIsMul(3, 29);
    Parts(0x7F800000, 29, 0x1F800000, 3);
  }

  /** The wide-move classes share all their code but the two opcode bits 29 and 30. */
  lemma WideCode(w: u32)
    ensures var base := BitAnd(Low(w, 29), 0x1F800000);
            && (IsMovn(w) <==> base == 0x12800000 && Field(w, 29, 2) == 0)
            && (IsMovz(w) <==> base == 0x12800000 && Field(w, 29, 2) == 2)
            && (IsMovk(w) <==> base == 0x12800000 && Field(w, 29, 2) == 3)
  {
    hide BitAnd, Low, Shr, Pow2, Shl;
    Pow2Table();
    WideMasks();
    AndSplit(w, 0x7F800000, 29);
    AndLow(Shr(w, 29), 2);
    ShlIsMul(Field(w, 29, 2), 29);
  }

  /** The signed groups choose MOVZ exactly for the values that are not negative. */
  lemma OpcodeChoosesClass(x: int, group: nat, w: u32)
    requires WideGroup(w, group) && (IsMovz(w) || IsMovn(w))
    ensures var w' := MovwOpcode(x, true, w);
            WideGroup(w', group) && (IsMovz(w') <==> x >= 0) && (IsMovn(w') <==> x < 0) && !IsMovk(w')
  {
    hide BitAnd, Low, Shr, Pow2, Shl, SetField;
    Pow2Table();
    var opc := if x >= 0 then 2 else 0;
    var w' := MovwOpcode(x, true, w);
    WideMasks();
    FieldOfSet(w, 29, 2, opc);
    MaskBlind(w, w', 0x80600000, 29, 2);
    WideCode(w);
    WideCode(w');
  }

  lemma KeepsBranch(imt: ImmType, w: u32, imm: u64)
    requires imt in {Imm26, Imm19, Imm14}
    ensures var w' := EncodeImmediate(imt, w, imm);
            && (imt == Imm26 ==> BitAnd(w', 0xFC000000) == BitAnd(w, 0xFC000000))
            && (imt == Imm14 ==> BitAnd(w', 0x7F000000) == BitAnd(w, 0x7F000000))
            && (imt == Imm19 ==>
                 && BitAnd(w', 0xBF000000) == BitAnd(w, 0xBF000000) && BitAnd(w', 0xFF000000) == BitAnd(w, 0xFF000000)
                 && BitAnd(w', 0x7F000000) == BitAnd(w, 0x7F000000) && BitAnd(w', 0xFF000010) == BitAnd(w, 0xFF000010))
  {
    hide BitAnd, EncodeImmediate, ClearOf;
    BranchMasks();
    match imt {
      case Imm26 => EncodeKeeps(Imm26, w, imm, 0xFC000000);
      case Imm14 => EncodeKeeps(Imm14, w, imm, 0x7F000000);
      case Imm19 =>
        EncodeKeeps(Imm19, w, imm, 0xBF000000);
        EncodeKeeps(Imm19, w, imm, 0xFF000000);
        EncodeKeeps(Imm19, w, imm, 0x7F000000);
        EncodeKeeps(Imm19, w, imm, 0xFF000010);
    }
  }

  lemma KeepsAddress(w: u32, imm: u64)
    ensures BitAnd(EncodeImmediate(Adr, w, imm), 0x9F000000) == BitAnd(w, 0x9F000000)
    ensures var w' := EncodeImmediate(Imm12, w, imm);
            && BitAnd(w', 0x3FC00000) == BitAnd(w, 0x3FC00000) && BitAnd(w', 0x7F000000) == BitAnd(w, 0x7F000000)
            && BitAnd(w', 0xFFC00000) == BitAnd(w, 0xFFC00000) && BitAnd(w', 0x80C00000) == BitAnd(w, 0x80C00000)
            && BitAnd(w', 0xC0000000) == BitAnd(w, 0xC0000000)
  {
    hide BitAnd, EncodeImmediate, ClearOf;
    AddressMasks();
    EncodeKeeps(Adr, w, imm, 0x9F000000);
    EncodeKeeps(Imm12, w, imm, 0x3FC00000);
    EncodeKeeps(Imm12, w, imm, 0x7F000000);
    EncodeKeeps(Imm12, w, imm, 0xFFC00000);
    EncodeKeeps(Imm12, w, imm, 0x80C00000);
    EncodeKeeps(Imm12, w, imm, 0xC0000000);
  }

  /** The encoder keeps every class it is applied to. */
  lemma EncodeKeepsClass(t: RelocType, w: u32, imm: u64)
    requires HowtoOf(t).Imm? && Targets(t, w)
    ensures Targets(t, EncodeImmediate(HowtoOf(t).imt, w, imm))
  {
    hide BitAnd, EncodeImmediate;
    if HowtoOf(t).imt in {Imm26, Imm19, Imm14} {
      KeepsBranch(HowtoOf(t).imt, w, imm);
    } else {
      KeepsAddress(w, imm);
    }
  }

  lemma EncodeKeepsWide(w: u32, imm: u64, group: nat)
    ensures var w' := EncodeImmediate(Imm16, w, imm);
            && (WideGroup(w', group) <==> WideGroup(w, group))
            && (IsMovz(w') <==> IsMovz(w)) && (IsMovn(w') <==> IsMovn(w)) && (IsMovk(w') <==> IsMovk(w))
  {
    hide BitAnd, EncodeImmediate, ClearOf, Low, Shr;
    WideMasks();
    EncodeKeeps(Imm16, w, imm, 0x7F800000);
    EncodeKeeps(Imm16, w, imm, 0x80600000);
  }

  /** A mask that sees nothing of what a relocation writes: its immediate, and for a signed group
      the opcode bits. */
  predicate Unwritten(h: Howto, mask: u32)
    requires WellFormed(h)
  {
    match h
    case Movw(_, _, signed) => ClearOf(Imm16, mask) && (signed ==> Field(mask, 29, 2) == 0)
    case Imm(_, _, _, imt) => ClearOf(imt, mask)
    case _ => false
  }

  lemma OpcodeKeeps(x: int, signed: bool, w: u32, mask: u32)
    requires signed ==> Field(mask, 29, 2) == 0
    ensures BitAnd(MovwOpcode(x, signed, w), mask) == BitAnd(w, mask)
  {
    hide BitAnd, Low, Shr, Pow2, SetField;
    if signed {
      assert 2 < Pow2(2) by { Pow2Table(); }
      FieldOfSet(w, 29, 2, if x >= 0 then 2 else 0);
      MaskBlind(w, MovwOpcode(x, signed, w), mask, 29, 2);
    }
  }

  /** The frame of a whole relocation, on any word: all bits but those stay. */
  lemma PatchKeepsRest(h: Howto, place: u64, val: u64, w: u32, mask: u32)
    requires WellFormed(h) && Unwritten(h, mask)
    ensures w < CellTop(Width(h)) && Cell(h, place, val, w) < TWO32
    ensures BitAnd(Cell(h, place, val, w), mask) == BitAnd(w, mask)
  {
    CellTops();
    hide BitAnd, EncodeImmediate, Low, Shr, Pow2, CellTop, DoReloc, SetField, MovwOpcode, ClearOf, MovwImm, Field;
    var x := Value(OpOf(h), place, val);
    match h {
      case Imm(_, lsb, len, imt) =>
        Pow2Table();
        Pow2Mono(len, 64);
        EncodeKeeps(imt, w, Low(Shr(x, lsb), len), mask);
      case Movw(_, group, signed) =>
        OpcodeKeeps(x, signed, w, mask);
        EncodeKeeps(Imm16, MovwOpcode(x, signed, w), MovwImm(x, group, signed), mask);
    }
  }

  /** Patching keeps a word in the class its relocation is for, never makes it the fault
      marker, changes no bit outside its immediate and a signed group's opcode, and for a signed
      group leaves MOVZ exactly when the value is not negative. */
  lemma PatchKeepsClass(t: RelocType, place: u64, val: u64, w: u32)
    requires (HowtoOf(t).Imm? || HowtoOf(t).Movw?) && Targets(t, w)
    ensures WellFormed(HowtoOf(t)) && CellTop(4) == TWO32
    ensures var w' := Cell(HowtoOf(t), place, val, w);
            && w' < TWO32 && Targets(t, w') && w' != AARCH64_BREAK_FAULT
            && (forall mask: u32 :: Unwritten(HowtoOf(t), mask) ==> BitAnd(w', mask) == BitAnd(w, mask))
            && (HowtoOf(t).Movw? && HowtoOf(t).signed ==>
                  (IsMovz(w') <==> Value(HowtoOf(t).op, place, val) >= 0))
  {
    CellTops();
    HowtoWellFormed(t);
    hide BitAnd, EncodeImmediate, Low, Shr, Pow2, CellTop, DoReloc, SetField, Unwritten;
    forall mask: u32 | Unwritten(HowtoOf(t), mask)
      ensures BitAnd(Cell(HowtoOf(t), place, val, w), mask) == BitAnd(w, mask)
    {
      PatchKeepsRest(HowtoOf(t), place, val, w, mask);
    }
    var x := Value(OpOf(HowtoOf(t)), place, val);
    match HowtoOf(t) {
      case Imm(_, lsb, len, imt) =>
        Pow2Table();
        Pow2Mono(len, 64);
        EncodeKeepsClass(t, w, Low(Shr(x, lsb), len));
      case Movw(_, group, signed) =>
        if signed {
          OpcodeChoosesClass(x, group, w);
        }
        EncodeKeepsWide(MovwOpcode(x, signed, w), MovwImm(x, group, signed), group);
    }
    TargetsNotFault(t, Cell(HowtoOf(t), place, val, w));
  }

  /** A patched instruction word. */
  function Word(t: RelocType, place: u64, val: u64, w: u32): (w': u32)
  {
    CellTops();
    HowtoWellFormed(t);
    if HowtoOf(t).Imm? || HowtoOf(t).Movw? then Cell(HowtoOf(t), place, val, w) else w
  }
}
