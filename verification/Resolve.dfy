/** What it means for a place to be resolved, by the formulas of ELF for the Arm 64-bit
    Architecture (section 4.6), and the proof that the engine's status says exactly that. */
module Resolve {
  import opened Bits
  import opened Insn
  import opened Memory
  import opened Reloc
  import opened Decode

  // val is S + A; each formula compares what the patched cell yields at its place with it

  predicate ResolvedData(op: RelocOp, size: nat, place: u64, val: u64, cell: nat)
    requires size > 0
  {
    if op == OpAbs then cell == val
    else ToU64(place + SignExtend(cell, 8 * size)) == val
  }

  /** A wide move of group g agrees with x from bit 16g on, or, unchecked, on its own 16 bits. */
  predicate ResolvedWide(group: nat, signed: bool, partial: bool, x: u64, cell: u32) {
    if signed then Shr(ToI64(MoveWide(cell, 0)), 16 * group) == Shr(ToI64(x), 16 * group)
    else if partial then Field(cell, 5, 16) == Field(x, 16 * group, 16)
    else Field(cell, 5, 16) == Shr(x, 16 * group)
  }

  predicate ResolvedBranch(imt: ImmType, place: u64, val: u64, cell: u32)
    requires imt in {Imm26, Imm19, Imm14}
  {
    var target := ToU64(val - (val - place) % 4);
    if imt == Imm26 then BranchTarget(cell, place) == target
    else if imt == Imm19 then LiteralTarget(cell, place) == target
    else TestTarget(cell, place) == target
  }

  predicate ResolvedAdr(op: RelocOp, place: u64, val: u64, cell: u32) {
    if op == OpPage then AdrpResult(cell, place) == Page(val) else AdrResult(cell, place) == val
  }

  /** The low 12 bits, scaled by the access size for a load or store. */
  predicate ResolvedLow(add: bool, lsb: nat, val: u64, cell: u32) {
    if add then Field(cell, 10, 12) == val % 0x1000
    else Shl(Field(cell, 10, 12), Scale(cell)) == val % 0x1000 - val % Pow2(lsb)
  }

  predicate ResolvedImm(op: RelocOp, imt: ImmType, add: bool, lsb: nat, place: u64, val: u64, cell: u32) {
    if imt == Adr then ResolvedAdr(op, place, val, cell)
    else if imt == Imm12 then ResolvedLow(add, lsb, val, cell)
    else imt in {Imm26, Imm19, Imm14} && ResolvedBranch(imt, place, val, cell)
  }

  /** The unchecked groups: 16 bits of the value, whatever lies above them. */
  predicate Partial(t: RelocType) {
    match t
    case MOVW_UABS_G0_NC => true
    case MOVW_UABS_G1_NC => true
    case MOVW_UABS_G2_NC => true
    case MOVW_PREL_G0_NC => true
    case MOVW_PREL_G1_NC => true
    case MOVW_PREL_G2_NC => true
    case _ => false
  }

  predicate Resolved(t: RelocType, place: u64, val: u64, cell: nat) {
    HowtoWellFormed(t);
    match HowtoOf(t)
    case Data(op, size) => ResolvedData(op, size, place, val, cell)
    case Movw(op, group, signed) =>
      cell < TWO32 && ResolvedWide(group, signed, Partial(t), DoReloc(op, place, val), cell)
    case Imm(op, lsb, _, imt) =>
      cell < TWO32 && ResolvedImm(op, imt, t == ADD_ABS_LO12_NC, lsb, place, val, cell)
    case _ => true
  }

  /** The relocations that by design take any value. */
  predicate AnyValue(t: RelocType) {
    Partial(t) || t.ABS64? || t.PREL64? || t.MOVW_UABS_G3?
    || (HowtoOf(t).Imm? && HowtoOf(t).imt == Imm12)
  }

  // ----- modular arithmetic at 64 bits

  lemma ModEq(a: int, b: int)
    requires -TWO64 < a - b < TWO64
    ensures ToU64(a) == ToU64(b) <==> a == b
  {
  }

  /** With x = S+A-P as a signed number, P + x is S+A again. */
  lemma PrelBack(place: u64, val: u64)
    ensures var x := ToI64(ToU64(val - place));
            && (x == val - place || x == val - place + TWO64 || x == val - place - TWO64)
            && ToU64(place + x) == val && x % 4 == (val - place) % 4
  {
    var d := val - place;
    assert ToU64(d) == d || ToU64(d) == d + TWO64;
  }

  // ----- instruction immediates

  lemma ShrByTwo(x: int)
    ensures Shr(x, 2) == x / 4
  {
    assert Shr(x, 2) == Shr(x / 2, 1) == Shr(x / 2 / 2, 0);
  }

  lemma WordAligned(place: u64, val: u64)
    ensures var x := ToI64(ToU64(val - place));
            4 * Shr(x, 2) == x - x % 4 && ToU64(val - (val - place) % 4) == ToU64(place + 4 * Shr(x, 2))
  {
    hide Shr, ToI64;
    var x := ToI64(ToU64(val - place));
    assert Shr(x, 2) == x / 4 by { ShrByTwo(x); }
    PrelBack(place, val);
  }

  lemma SignedBound(x: int, n: nat, m: nat)
    requires 0 < n <= m && InSigned(x, n)
    ensures 0 < x + Pow2(m) && x < Pow2(m)
  {
    Pow2Mono(n - 1, m);
    Pow2Mono(n, m);
  }

  lemma I64RangeOf(u: u64)
    ensures -TWO63 <= ToI64(u) < TWO63
  {
  }

  /** A pc-relative field of scale 4 that holds the low bits of q = x >> 2. */
  lemma WordOffset(place: u64, val: u64, field: nat, len: nat)
    requires 0 < len <= 26
    requires field == Low(Shr(ToI64(ToU64(val - place)), 2), len)
    ensures ToU64(place + 4 * SignExtend(field, len)) == ToU64(val - (val - place) % 4)
       <==> InSigned(Shr(ToI64(ToU64(val - place)), 2), len)
  {
    hide Low, Shr, SignExtend, InSigned, ToI64, Pow2;
    var x := ToI64(ToU64(val - place));
    var q, se := Shr(x, 2), SignExtend(field, len);
    assert Pow2(26) == 0x4000000 by { Pow2Table(); }
    SignExtendExact(q, len);
    SignedBound(se, len, 26);
    I64RangeOf(ToU64(val - place));
    WordAligned(place, val);
    ModEq(place + 4 * se, place + 4 * q);
  }

  lemma ByteOffset(place: u64, val: u64, field: nat)
    requires field == Low(ToI64(ToU64(val - place)), 21)
    ensures ToU64(place + SignExtend(field, 21)) == val <==> InSigned(ToI64(ToU64(val - place)), 21)
  {
    hide Low, SignExtend, InSigned, ToI64, Pow2;
    var x := ToI64(ToU64(val - place));
    var se := SignExtend(field, 21);
    assert Pow2(21) == 0x200000 by { Pow2Table(); }
    SignExtendExact(x, 21);
    SignedBound(se, 21, 21);
    PrelBack(place, val);
    I64RangeOf(ToU64(val - place));
    ModEq(place + se, place + x);
  }

  lemma ShrByPage(x: int)
    ensures Shr(x, 12) == x / 0x1000
  {
    hide Shr, Pow2;
    assert Pow2(12) == 0x1000 by { Pow2Table(); }
    ShrIsDiv(x, 12);
  }

  lemma PageAligned(x: int, v: int, p: int)
    requires v % 0x1000 == 0 && p % 0x1000 == 0
    requires x == v - p || x == v - p + TWO64 || x == v - p - TWO64
    ensures x == 0x1000 * Shr(x, 12)
  {
    hide Shr;
    assert x % 0x1000 == 0;
    assert Shr(x, 12) == x / 0x1000 by { ShrByPage(x); }
  }

  lemma PageOffset(place: u64, val: u64, field: nat)
    requires field == Low(Shr(ToI64(ToU64(Page(val) - Page(place))), 12), 21)
    ensures ToU64(Page(place) + 0x1000 * SignExtend(field, 21)) == Page(val)
       <==> InSigned(Shr(ToI64(ToU64(Page(val) - Page(place))), 12), 21)
  {
    hide Low, Shr, SignExtend, InSigned, ToI64, Pow2;
    var p, v := Page(place), Page(val);
    var x := ToI64(ToU64(v - p));
    var q, se := Shr(x, 12), SignExtend(field, 21);
    assert Pow2(21) == 0x200000 by { Pow2Table(); }
    SignExtendExact(q, 21);
    SignedBound(se, 21, 21);
    PrelBack(p, v);
    I64RangeOf(ToU64(v - p));
    PageAligned(x, v, p);
    hide Page;
    ModEq(p + 0x1000 * se, p + 0x1000 * q);
  }

  lemma LowOfI64(val: u64, n: nat)
    requires n <= 64
    ensures Low(ToI64(val), n) == Low(val, n)
  {
    hide Low;
    LowOfU64(ToI64(val), n);
  }

  /** The scaled low-12 field: bits lsb to 11 of the value, put back in place. */
  lemma LowOffset(val: u64, lsb: nat, len: nat)
    requires lsb + len == 12
    ensures Shl(Low(Shr(ToI64(val), lsb), len), lsb) == val % 0x1000 - val % Pow2(lsb)
  {
    hide Low, Shr, Shl, Pow2;
    var x := ToI64(val);
    assert Pow2(12) == 0x1000 by { Pow2Table(); }
    LowLow(x, lsb, len);
    assert Low(x, 12) == val % 0x1000 && Low(x, lsb) == val % Pow2(lsb) by {
      LowOfI64(val, 12);
      LowOfI64(val, lsb);
      ShrIsDiv(val, 12);
      ShrIsDiv(val, lsb);
    }
  }

  // ----- data cells

  lemma {:induction false} CellIsBits(n: nat)
    ensures CellTop(n) == Pow2(8 * n)
  {
    if n == 0 {
    } else {
      CellIsBits(n - 1);
      Pow2Plus(8 * (n - 1));
    }
  }

  lemma DataCellIsLow(x: int, size: nat)
    ensures DataCell(x, size) == Low(x, 8 * size)
  {
    hide CellTop, Low, Pow2;
    CellIsBits(size);
    ShrIsDiv(x, 8 * size);
  }

  lemma AbsDataExact(size: nat, val: u64)
    requires size in {2, 4, 8}
    ensures DataCell(ToI64(val), size) == val <==> size == 8 || 0 <= ToI64(val) < Pow2(8 * size)
  {
    hide CellTop, Pow2;
    CellTops();
    assert Pow2(16) == TWO16 && Pow2(32) == TWO32 by { Pow2Table(); }
  }

  lemma PrelDataExact(size: nat, place: u64, val: u64)
    requires size in {2, 4, 8}
    ensures var x := ToI64(ToU64(val - place));
            ToU64(place + SignExtend(DataCell(x, size), 8 * size)) == val <==> size == 8 || InSigned(x, 8 * size)
  {
    hide CellTop, Low, Pow2, SignExtend, InSigned, DataCell, ToI64;
    var x := ToI64(ToU64(val - place));
    var se := SignExtend(DataCell(x, size), 8 * size);
    DataCellIsLow(x, size);
    SignExtendExact(x, 8 * size);
    PrelBack(place, val);
    I64RangeOf(ToU64(val - place));
    I64Range(x);
    assert -TWO63 <= se < TWO63 by {
      if size == 8 { I64Range(se); } else { SignedBound(se, 8 * size, 63); Pow2Table(); }
    }
    ModEq(place + se, place + x);
  }

  lemma DataExact(op: RelocOp, size: nat, place: u64, val: u64)
    requires size in {2, 4, 8} && (op == OpAbs || op == OpPrel)
    ensures var x := ToI64(DoReloc(op, place, val));
            ResolvedData(op, size, place, val, DataCell(x, size)) <==> size == 8 || Fits(Data(op, size), x)
  {
    hide DataCell, SignExtend, InSigned, Pow2, ToI64;
    if op == OpAbs {
      AbsDataExact(size, val);
    } else {
      PrelDataExact(size, place, val);
    }
  }

  // ----- wide moves

  lemma ShlNegate(f: int, s: nat)
    ensures -1 - Shl(f, s) == Pow2(s) - 1 + Shl(-1 - f, s)
  {
    ShlAdd(f, -1 - f, s);
    ShlIsMul(-1, s);
  }

  /** MOVZ and MOVN of a 16-bit field in group g, read as signed numbers and cut at bit 16g. */
  lemma WideValue(f: nat, g: nat)
    requires f < TWO16 && g < 4
    ensures 0 <= Shl(f, 16 * g) < TWO64
    ensures g < 3 || f < 0x8000 ==> Shr(ToI64(ToU64(Shl(f, 16 * g))), 16 * g) == f
    ensures g < 3 || f < 0x8000 ==> Shr(ToI64(Not64(ToU64(Shl(f, 16 * g)))), 16 * g) == -1 - f
  {
    hide Shl, Shr, Low, Pow2;
    assert Pow2(16) == TWO16 && Pow2(15) == 0x8000 && Pow2(63) == TWO63 && Pow2(64) == TWO64 by { Pow2Table(); }
    var s := 16 * g;
    InsertBound(0, s, 16, f);
    Pow2Mono(s + 16, 64);
    if g < 3 || f < 0x8000 {
      if g < 3 {
        Pow2Mono(s + 16, 63);
      } else {
        InsertBound(0, s, 15, f);
      }
      Parts(Shl(f, s), s, 0, f);
      ShlNegate(f, s);
      Parts(-1 - Shl(f, s), s, Pow2(s) - 1, -1 - f);
    }
  }

  lemma Low16(imm: nat)
    ensures Low(imm, 16) == imm <==> imm < TWO16
  {
    hide Low, Pow2;
    assert Pow2(16) == TWO16 by { Pow2Table(); }
    if imm < TWO16 {
      LowSmall(imm, 16);
    }
  }

  lemma TopGroup(x: int)
    requires -TWO63 <= x < TWO63
    ensures -0x8000 <= Shr(x, 48) < 0x8000
    ensures 0 <= x ==> Low(Shr(x, 48), 16) < 0x8000
    ensures x < 0 ==> Low(-1 - Shr(x, 48), 16) < 0x8000
  {
    hide Shr, Low, Pow2;
    assert Pow2(48) == 0x1_0000_0000_0000 && Pow2(16) == TWO16 by { Pow2Table(); }
    ShrIsDiv(x, 48);
    if x >= 0 {
      LowSmall(Shr(x, 48), 16);
    } else {
      LowSmall(-1 - Shr(x, 48), 16);
    }
  }

  /** The 16 bits a signed group gets, against the whole quotient. */
  lemma SignedGroup(x: int, group: nat)
    requires -TWO63 <= x < TWO63 && group < 4
    ensures var q, f := Shr(x, 16 * group), Low(MovwImm(x, group, true), 16);
            && (x >= 0 ==> (f == q <==> Fits(Movw(OpAbs, group, true), x)))
            && (x < 0 ==> (-1 - f == q <==> Fits(Movw(OpAbs, group, true), x)))
            && (group == 3 ==> f < 0x8000)
  {
    hide Shr, Low, Pow2;
    var q, imm := Shr(x, 16 * group), MovwImm(x, group, true);
    assert imm == if x >= 0 then q else -1 - q;
    Low16(imm);
    if group == 3 {
      TopGroup(x);
    }
  }

  lemma GroupField(w: u32, group: nat)
    requires WideGroup(w, group) && group < 4
    ensures Field(w, 21, 2) == group
  {
    hide BitAnd, Low, Shr, Pow2;
    Pow2Table();
    ConstField(0x80600000, 21, 2, 0, 3, 0x100);
    ConstField(0x80000000 + group * 0x200000, 21, 2, 0, group, 0x100);
    MaskedField(w, 0x80600000, 0x80000000 + group * 0x200000, 21, 2);
  }

  /** Below the top group an address at or above 2^63 has bits beyond any 16-bit group. */
  lemma UnsignedTop(u: u64, s: nat)
    requires s <= 32
    ensures 0 <= Shr(ToI64(u), s) < TWO16 <==> Shr(u, s) < TWO16
  {
    hide Low, Shr, Shl;
    if u >= TWO63 {
      Pow2Table();
      Pow2Mono(s + 16, 48);
      if Shr(u, s) < TWO16 {
        Recompose(u, s);
        InsertBound(Low(u, s), s, 16, Shr(u, s));
      }
    }
  }

  lemma UnsignedGroup(u: u64, group: nat)
    requires group < 4
    ensures var imm := MovwImm(ToI64(u), group, false);
            && Low(imm, 16) == Field(u, 16 * group, 16)
            && (Low(imm, 16) == Shr(u, 16 * group) <==> group == 3 || Fits(Movw(OpAbs, group, false), ToI64(u)))
  {
    hide Low, Shr, Pow2;
    var s, x := 16 * group, ToI64(u);
    assert Pow2(16) == TWO16 && Pow2(64) == TWO64 by { Pow2Table(); }
    LowOfU64(Shr(x, s), 16);
    LowOfI64(u, s + 16);
    LowLow(x, s, 16);
    LowLow(u, s, 16);
    if group == 3 {
      ShrSmall(u, 48, 16);
      LowSmall(Shr(u, 48), 16);
    } else {
      UnsignedTop(u, s);
      if Shr(u, s) < TWO16 {
        LowSmall(Shr(u, s), 16);
      }
    }
  }

  lemma WideExact(op: RelocOp, group: nat, signed: bool, partial: bool, place: u64, val: u64, w: u32)
    requires WideGroup(w, group) && group < 4
    requires IsMovz(w) || if signed then IsMovn(w) else IsMovk(w)
    requires MovwOpcode(Value(op, place, val), signed, w) != AARCH64_BREAK_FAULT
    requires signed ==> !partial
    ensures var x := Value(op, place, val);
            ResolvedWide(group, signed, partial, DoReloc(op, place, val), MovwWord(x, group, signed, w))
            <==> partial || (group == 3 && !signed) || Fits(Movw(op, group, signed), x)
  {
    hide Shr, Low, Pow2, Shl, BitAnd, SetField, DoReloc, EncodeImmediate;
    var u := DoReloc(op, place, val);
    var x := ToI64(u);
    I64RangeOf(u);
    var w0, imm := MovwOpcode(x, signed, w), MovwImm(x, group, signed);
    var w' := EncodeImmediate(Imm16, w0, imm);
    EncodeReads(Imm16, w0, imm);
    EncodeKeepsWide(w0, imm, group);
    assert Field(w', 5, 16) == Low(imm, 16);
    if signed {
      OpcodeChoosesClass(x, group, w);
      GroupField(w', group);
      assert Pow2(16) == TWO16 by { Pow2Table(); }
      SignedGroup(x, group);
      WideValue(Low(imm, 16), group);
    } else {
      UnsignedGroup(u, group);
    }
  }

  // ----- instruction immediates, assembled

  lemma ImmReads(t: RelocType, x: int, w: u32)
    requires HowtoOf(t).Imm? && Targets(t, w)
    ensures WellFormed(HowtoOf(t))
    ensures var h := HowtoOf(t);
            var w' := ImmWord(x, h.lsb, h.len, h.imt, w);
            ReadImm(h.imt, w') == Low(Shr(x, h.lsb), h.len) && Targets(t, w')
  {
    hide Low, Shr, Pow2, BitAnd, EncodeImmediate, ReadImm;
    HowtoWellFormed(t);
    var h := HowtoOf(t);
    var imm := Low(Shr(x, h.lsb), h.len);
    Pow2Table();
    Pow2Mono(h.len, 64);
    Pow2Mono(h.len, ImmWidth(h.imt));
    TargetsNotFault(t, w);
    EncodeReads(h.imt, w, imm);
    LowSmall(imm, ImmWidth(h.imt));
    EncodeKeepsClass(t, w, imm);
  }

  lemma LoadStoreCode(w: u32)
    ensures IsLoadImm(w) || IsStoreImm(w) ==> Field(w, 24, 5) == 0x19
    ensures IsLdSt128(w) ==> Field(w, 24, 5) == 0x1D
  {
    hide BitAnd, Low, Shr, Pow2;
    Pow2Table();
    if IsLdSt128(w) {
      ConstField(0xFFC00000, 24, 5, 0xC00000, 0x1F, 7);
      ConstField(0x3D800000, 24, 5, 0x800000, 0x1D, 1);
      ConstField(0x3DC00000, 24, 5, 0xC00000, 0x1D, 1);
      MaskedField(w, 0xFFC00000, BitAnd(w, 0xFFC00000), 24, 5);
    }
    if IsLoadImm(w) || IsStoreImm(w) {
      ConstField(0x3FC00000, 24, 5, 0xC00000, 0x1F, 1);
      ConstField(0x39400000, 24, 5, 0x400000, 0x19, 1);
      ConstField(0x39000000, 24, 5, 0, 0x19, 1);
      MaskedField(w, 0x3FC00000, BitAnd(w, 0x3FC00000), 24, 5);
    }
  }

  lemma LoadStoreScale(w: u32, lsb: nat)
    requires LdSt(w, lsb) && lsb < 4
    ensures Scale(w) == lsb
  {
    hide BitAnd, Low, Shr, Pow2;
    Pow2Table();
    ConstField(0xC0000000, 30, 2, 0, 3, 0);
    ConstField(lsb * 0x40000000, 30, 2, 0, lsb, 0);
    MaskedField(w, 0xC0000000, lsb * 0x40000000, 30, 2);
    LoadStoreCode(w);
  }

  lemma BranchExact(imt: ImmType, place: u64, val: u64, w': u32)
    requires imt in {Imm26, Imm19, Imm14}
    requires ReadImm(imt, w') == Low(Shr(ToI64(ToU64(val - place)), 2), ImmWidth(imt))
    ensures ResolvedBranch(imt, place, val, w')
       <==> InSigned(Shr(ToI64(ToU64(val - place)), 2), ImmWidth(imt))
  {
    hide Low, Shr, ReadImm, SignExtend, InSigned, ToI64, Field, Pow2;
    ImmFields(w');
    WordOffset(place, val, ReadImm(imt, w'), ImmWidth(imt));
  }

  lemma AdrExact(op: RelocOp, place: u64, val: u64, w': u32)
    requires op == OpPrel || op == OpPage
    requires var lsb := if op == OpPage then 12 else 0;
             ReadImm(Adr, w') == Low(Shr(Value(op, place, val), lsb), 21)
    ensures var lsb := if op == OpPage then 12 else 0;
            ResolvedAdr(op, place, val, w') <==> InSigned(Shr(Value(op, place, val), lsb), 21)
  {
    hide Low, Shr, ReadImm, SignExtend, InSigned, ToI64, BitAnd, Page, Field, AdrImm, Pow2;
    ImmFields(w');
    if op == OpPage {
      PageMask(place);
      PageMask(val);
      PageOffset(place, val, ReadImm(Adr, w'));
    } else {
      ShrByZero(Value(op, place, val));
      ByteOffset(place, val, ReadImm(Adr, w'));
    }
  }

  lemma VectorScale(w: u32)
    requires IsLdSt128(w)
    ensures Scale(w) == 4
  {
  }

  lemma LowExact(t: RelocType, val: u64, w': u32)
    requires HowtoOf(t).Imm? && HowtoOf(t).imt == Imm12 && Targets(t, w')
    requires ReadImm(Imm12, w') == Low(Shr(ToI64(val), HowtoOf(t).lsb), HowtoOf(t).len)
    ensures HowtoOf(t).op == OpAbs
    ensures ResolvedLow(t == ADD_ABS_LO12_NC, HowtoOf(t).lsb, val, w')
  {
    hide Low, Shr, Shl, ReadImm, ToI64, BitAnd, Scale, Pow2, Field;
    ImmFields(w');
    var lsb := HowtoOf(t).lsb;
    LowOffset(val, lsb, HowtoOf(t).len);
    if t == ADD_ABS_LO12_NC {
      ShlByZero(ReadImm(Imm12, w'));
      assert Pow2(0) == 1 by { Pow2Table(); }
    } else {
      assert Scale(w') == lsb by {
        if lsb < 4 { LoadStoreScale(w', lsb); } else { VectorScale(w'); }
      }
    }
  }

  /** The immediate relocations as the table has them. */
  lemma ImmShapes(t: RelocType)
    requires HowtoOf(t).Imm?
    ensures var h := HowtoOf(t);
            && WellFormed(h)
            && (h.imt in {Imm26, Imm19, Imm14} ==> h.op == OpPrel && h.lsb == 2 && h.len == ImmWidth(h.imt))
            && (h.imt == Adr ==> h.len == 21 && ((h.op == OpPage && h.lsb == 12) || (h.op == OpPrel && h.lsb == 0)))
            && (h.imt == Imm12 ==> h.op == OpAbs)
            && h.imt in {Imm26, Imm19, Imm14, Adr, Imm12}
  {
  }

  lemma ImmExact(t: RelocType, place: u64, val: u64, w: u32)
    requires HowtoOf(t).Imm? && Targets(t, w)
    ensures WellFormed(HowtoOf(t))
    ensures var h := HowtoOf(t); var x := Value(h.op, place, val);
            ResolvedImm(h.op, h.imt, t == ADD_ABS_LO12_NC, h.lsb, place, val, ImmWord(x, h.lsb, h.len, h.imt, w))
            <==> h.imt == Imm12 || Fits(h, x)
  {
    hide Low, Shr, BitAnd, ReadImm, InSigned, ImmWord, ToI64, HowtoOf, Targets;
    hide ResolvedAdr, ResolvedBranch, ResolvedLow;
    var h := HowtoOf(t);
    ImmShapes(t);
    var x := Value(h.op, place, val);
    ImmReads(t, x, w);
    var w' := ImmWord(x, h.lsb, h.len, h.imt, w);
    if h.imt == Adr {
      AdrExact(h.op, place, val, w');
    } else if h.imt == Imm12 {
      LowExact(t, val, w');
    } else {
      BranchExact(h.imt, place, val, w');
    }
  }

  // ----- the main result on one relocation

  /** The data and wide-move relocations as the table has them. */
  lemma OtherShapes(t: RelocType)
    ensures var h := HowtoOf(t);
            && (h.Data? ==> h.size in {2, 4, 8} && (h.op == OpAbs || h.op == OpPrel) && (AnyValue(t) <==> h.size == 8))
            && (h.Movw? ==> h.group < 4 && (h.signed ==> !Partial(t)))
            && (h.Movw? ==> (AnyValue(t) <==> Partial(t) || (h.group == 3 && !h.signed)))
            && (h.Imm? ==> (AnyValue(t) <==> h.imt == Imm12))
  {
  }

  lemma WideResolved(t: RelocType, place: u64, val: u64, w: u32)
    requires HowtoOf(t).Movw? && Targets(t, w)
    ensures HowtoOf(t).group < 4
    ensures var h := HowtoOf(t); var x := Value(h.op, place, val);
            ResolvedWide(h.group, h.signed, Partial(t), DoReloc(h.op, place, val), MovwWord(x, h.group, h.signed, w))
            <==> AnyValue(t) || Fits(h, x)
  {
    hide Low, Shr, BitAnd, EncodeImmediate, SetField, DoReloc, ResolvedWide, HowtoOf, Partial, AnyValue, MovwOpcode;
    OtherShapes(t);
    var h := HowtoOf(t);
    var x := Value(h.op, place, val);
    TargetsNotFault(t, w);
    if h.signed {
      OpcodeChoosesClass(x, h.group, w);
      WideNotFault(MovwOpcode(x, true, w));
    } else {
      UnsignedOpcode(x, w);
    }
    WideExact(h.op, h.group, h.signed, Partial(t), place, val, w);
  }

  /** A patched place computes its AAELF64 formula exactly when the value fits the field, or the
      relocation takes any value. */
  lemma ResolvedExactly(t: RelocType, place: u64, val: u64, cell: nat)
    requires WellFormed(HowtoOf(t)) && cell < CellTop(Width(HowtoOf(t)))
    requires HowtoOf(t).Imm? || HowtoOf(t).Movw? ==> cell < TWO32 && Targets(t, cell)
    ensures Resolved(t, place, val, Cell(HowtoOf(t), place, val, cell))
       <==> AnyValue(t) || Fits(HowtoOf(t), Value(OpOf(HowtoOf(t)), place, val))
  {
    hide HowtoOf, Targets, DataCell, MovwWord, ImmWord, DoReloc, CellTop, Partial, AnyValue, InSigned, Shr, Pow2;
    hide ResolvedData, ResolvedWide, ResolvedImm, Page, ToI64;
    OtherShapes(t);
    match HowtoOf(t) {
      case Data(op, size) => DataExact(op, size, place, val);
      case Movw(_, _, _) => WideResolved(t, place, val, cell);
      case Imm(_, _, _, _) => ImmExact(t, place, val, cell);
      case _ =>
    }
  }

  /** The engine's verdict is exact: a checked relocation returns 0 if and only if the patched
      place computes its formula. */
  lemma StatusExact(t: RelocType, place: u64, val: u64, cell: nat)
    requires Checked(t) && WellFormed(HowtoOf(t)) && cell < CellTop(Width(HowtoOf(t)))
    requires HowtoOf(t).Imm? || HowtoOf(t).Movw? ==> cell < TWO32 && Targets(t, cell)
    ensures Status(t, place, val) == 0 <==> Resolved(t, place, val, Cell(HowtoOf(t), place, val, cell))
  {
    hide Resolved, Fits, Cell, Value, CellTop, Targets;
    ResolvedExactly(t, place, val, cell);
  }

  /** Every supported relocation that returned 0 resolved its place; the one exception is the
      unchecked page relocation, which resolves it exactly when the page offset fits 21 bits. */
  lemma SuccessResolves(t: RelocType, place: u64, val: u64, cell: nat)
    requires WellFormed(HowtoOf(t)) && cell < CellTop(Width(HowtoOf(t)))
    requires HowtoOf(t).Imm? || HowtoOf(t).Movw? ==> cell < TWO32 && Targets(t, cell)
    requires Status(t, place, val) == 0
    requires t == ADR_PREL_PG_HI21_NC ==> Fits(HowtoOf(t), Value(OpPage, place, val))
    ensures Resolved(t, place, val, Cell(HowtoOf(t), place, val, cell))
  {
    hide Resolved, Cell, CellTop, Targets, DoReloc, Low, Shr, Pow2, ToI64;
    ResolvedExactly(t, place, val, cell);
    if t == MOVW_PREL_G3 {
      I64RangeOf(DoReloc(OpPrel, place, val));
      TopGroup(Value(OpPrel, place, val));
    }
  }
}
