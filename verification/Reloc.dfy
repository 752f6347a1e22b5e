/** The AArch64 relocation engine: what each relocation must write and when it must be
    refused, and the in-place code that does it with masks and shifts. */
module Reloc {
  import opened Bits
  import opened Insn
  import opened Memory

  const ERANGE := 34
  const ENOEXEC := 8

  datatype RelocOp = OpNone | OpAbs | OpPrel | OpPage

  datatype MovwImmType = MovNZ | MovKZ

  datatype RelocType =
    | NONE
    | ABS64 | ABS32 | ABS16 | PREL64 | PREL32 | PREL16
    | MOVW_UABS_G0 | MOVW_UABS_G0_NC | MOVW_UABS_G1 | MOVW_UABS_G1_NC
    | MOVW_UABS_G2 | MOVW_UABS_G2_NC | MOVW_UABS_G3
    | MOVW_SABS_G0 | MOVW_SABS_G1 | MOVW_SABS_G2
    | MOVW_PREL_G0 | MOVW_PREL_G0_NC | MOVW_PREL_G1 | MOVW_PREL_G1_NC
    | MOVW_PREL_G2 | MOVW_PREL_G2_NC | MOVW_PREL_G3
    | LD_PREL_LO19 | ADR_PREL_LO21 | ADR_PREL_PG_HI21 | ADR_PREL_PG_HI21_NC
    | ADD_ABS_LO12_NC | LDST8_ABS_LO12_NC | LDST16_ABS_LO12_NC | LDST32_ABS_LO12_NC
    | LDST64_ABS_LO12_NC | LDST128_ABS_LO12_NC
    | TSTBR14 | CONDBR19 | JUMP26 | CALL26
    | Unsupported(code: nat)

  // ----- the value of a relocation

  function DoReloc(op: RelocOp, place: u64, val: u64): u64 {
    match op
    case OpNone => 0
    case OpAbs => val
    case OpPrel => ToU64(val - place)
    case OpPage => ToU64(BitAnd(val, Not64(0xfff)) - BitAnd(place, Not64(0xfff)))
  }

  /** The relocation value as a signed number, and the value each operation stands for. */
  function Value(op: RelocOp, place: u64, val: u64): int {
    ToI64(DoReloc(op, place, val))
  }

  function Page(x: int): int {
    x - x % 0x1000
  }

  lemma PageMask(x: u64)
    ensures BitAnd(x, Not64(0xfff)) == Page(x)
  {
    hide BitAnd, Low, Shr, Shl, Pow2;
    assert Pow2(12) == 0x1000 && Pow2(0) == 1 && Pow2(64) == TWO64 by { Pow2Table(); }
    AndClear(x, 0, 12, 64);
    ShlByZero(Pow2(12) - 1);
    ShlByZero(0);
    assert Low(x, 0) == 0;
    Recompose(x, 12);
    ShrIsDiv(x, 12);
  }

  // ----- what each relocation is: AAELF64's operation, field and range, as a table

  datatype Howto =
    | Nothing
    | Data(op: RelocOp, size: nat)
    | Movw(op: RelocOp, group: nat, signed: bool)
    | Imm(op: RelocOp, lsb: nat, len: nat, imt: ImmType)
    | NotSupported

  function HowtoOf(t: RelocType): Howto {
    match t
    case NONE => Nothing
    case ABS64 => Data(OpAbs, 8)
    case ABS32 => Data(OpAbs, 4)
    case ABS16 => Data(OpAbs, 2)
    case PREL64 => Data(OpPrel, 8)
    case PREL32 => Data(OpPrel, 4)
    case PREL16 => Data(OpPrel, 2)
    case MOVW_UABS_G0 => Movw(OpAbs, 0, false)
    case MOVW_UABS_G0_NC => Movw(OpAbs, 0, false)
    case MOVW_UABS_G1 => Movw(OpAbs, 1, false)
    case MOVW_UABS_G1_NC => Movw(OpAbs, 1, false)
    case MOVW_UABS_G2 => Movw(OpAbs, 2, false)
    case MOVW_UABS_G2_NC => Movw(OpAbs, 2, false)
    case MOVW_UABS_G3 => Movw(OpAbs, 3, false)
    case MOVW_SABS_G0 => Movw(OpAbs, 0, true)
    case MOVW_SABS_G1 => Movw(OpAbs, 1, true)
    case MOVW_SABS_G2 => Movw(OpAbs, 2, true)
    case MOVW_PREL_G0 => Movw(OpPrel, 0, true)
    case MOVW_PREL_G0_NC => Movw(OpPrel, 0, false)
    case MOVW_PREL_G1 => Movw(OpPrel, 1, true)
    case MOVW_PREL_G1_NC => Movw(OpPrel, 1, false)
    case MOVW_PREL_G2 => Movw(OpPrel, 2, true)
    case MOVW_PREL_G2_NC => Movw(OpPrel, 2, false)
    case MOVW_PREL_G3 => Movw(OpPrel, 3, true)
    case LD_PREL_LO19 => Imm(OpPrel, 2, 19, Imm19)
    case ADR_PREL_LO21 => Imm(OpPrel, 0, 21, Adr)
    case ADR_PREL_PG_HI21 => Imm(OpPage, 12, 21, Adr)
    case ADR_PREL_PG_HI21_NC => Imm(OpPage, 12, 21, Adr)
    case ADD_ABS_LO12_NC => Imm(OpAbs, 0, 12, Imm12)
    case LDST8_ABS_LO12_NC => Imm(OpAbs, 0, 12, Imm12)
    case LDST16_ABS_LO12_NC => Imm(OpAbs, 1, 11, Imm12)
    case LDST32_ABS_LO12_NC => Imm(OpAbs, 2, 10, Imm12)
    case LDST64_ABS_LO12_NC => Imm(OpAbs, 3, 9, Imm12)
    case LDST128_ABS_LO12_NC => Imm(OpAbs, 4, 8, Imm12)
    case TSTBR14 => Imm(OpPrel, 2, 14, Imm14)
    case CONDBR19 => Imm(OpPrel, 2, 19, Imm19)
    case JUMP26 => Imm(OpPrel, 2, 26, Imm26)
    case CALL26 => Imm(OpPrel, 2, 26, Imm26)
    case Unsupported(_) => NotSupported
  }

  /** The relocations whose overflow is an error. */
  predicate Checked(t: RelocType) {
    match t
    case NONE => false
    case ABS64 => false
    case PREL64 => false
    case MOVW_UABS_G0_NC => false
    case MOVW_UABS_G1_NC => false
    case MOVW_UABS_G2_NC => false
    case MOVW_UABS_G3 => false
    case MOVW_PREL_G0_NC => false
    case MOVW_PREL_G1_NC => false
    case MOVW_PREL_G2_NC => false
    case MOVW_PREL_G3 => false
    case ADR_PREL_PG_HI21_NC => false
    case ADD_ABS_LO12_NC => false
    case LDST8_ABS_LO12_NC => false
    case LDST16_ABS_LO12_NC => false
    case LDST32_ABS_LO12_NC => false
    case LDST64_ABS_LO12_NC => false
    case LDST128_ABS_LO12_NC => false
    case Unsupported(_) => false
    case _ => true
  }

  /** Bytes patched at the place. */
  function Width(h: Howto): nat {
    match h
    case Data(_, size) => size
    case Movw(_, _, _) => 4
    case Imm(_, _, _, _) => 4
    case _ => 0
  }

  // ----- what is written

  function DataCell(x: int, size: nat): nat {
    x % CellTop(size)
  }

  /** MOVZ for a signed group that is not negative, MOVN for one that is. */
  function MovwOpcode(x: int, signed: bool, insn: u32): u32 {
    if signed then
      Pow2Table();
      var opc := if x >= 0 then 2 else 0;
      SetFieldBound(insn, 29, 2, opc, 32);
      SetField(insn, 29, 2, opc)
    else insn
  }

  lemma UnsignedOpcode(x: int, w: u32)
    ensures MovwOpcode(x, false, w) == w
  {
  }

  function MovwImm(x: int, group: nat, signed: bool): u64 {
    var q := Shr(x, 16 * group);
    if signed && x < 0 then Not64(ToU64(q)) else ToU64(q)
  }

  function MovwWord(x: int, group: nat, signed: bool, insn: u32): u32 {
    EncodeImmediate(Imm16, MovwOpcode(x, signed, insn), MovwImm(x, group, signed))
  }

  function ImmWord(x: int, lsb: nat, len: nat, imt: ImmType, insn: u32): u32
    requires len <= 64
  {
    assert Low(Shr(x, lsb), len) < TWO64 by { Pow2Mono(len, 64); Pow2Table(); }
    EncodeImmediate(imt, insn, Low(Shr(x, lsb), len))
  }

  // ----- when it fits

  predicate WellFormed(h: Howto) {
    match h
    case Data(op, size) => size in {2, 4, 8} && (op == OpAbs || op == OpPrel)
    case Movw(_, group, _) => group < 4
    case Imm(_, lsb, len, imt) => 0 < len && lsb + len < 64 && imt != ImmMax
    case _ => true
  }

  predicate Fits(h: Howto, x: int)
    requires WellFormed(h)
  {
    match h
    case Data(op, size) => if op == OpAbs then 0 <= x < Pow2(8 * size) else InSigned(x, 8 * size)
    case Movw(_, group, signed) => (if signed then -TWO16 else 0) <= Shr(x, 16 * group) < TWO16
    case Imm(_, lsb, len, _) => InSigned(Shr(x, lsb), len)
    case _ => true
  }

  // ----- the two bit tricks of reloc_insn_imm

  /** BIT(lsb + len) - 1 >> lsb is the mask of len ones. */
  lemma ImmMaskTrick(lsb: nat, len: nat)
    ensures Shr(Shl(1, lsb + len) - 1, lsb) == Pow2(len) - 1
  {
    hide Shl, Shr, Low, Pow2;
    ShlOne(lsb + len);
    ShlPow2(len, lsb);
    ShlAdd(Pow2(len) - 1, 1, lsb);
    ShlOne(lsb);
    Parts(Pow2(lsb + len) - 1, lsb, Pow2(lsb) - 1, Pow2(len) - 1);
  }

  /** Clearing the value bits below the sign and shifting them out keeps the sign bits of a
      signed 64-bit number. */
  lemma ClearThenShift(q: int, k: nat)
    requires InSigned(q, 64) && k < 63
    ensures 0 <= Pow2(k) - 1 < TWO64
    ensures Shr(ToI64(BitAnd(ToU64(q), Not64(Pow2(k) - 1))), k) == Shr(q, k)
  {
    hide Shl, Shr, Low, Pow2, BitAnd;
    assert Pow2(63) == TWO63 && Pow2(64) == TWO64 && Pow2(0) == 1 by { Pow2Table(); }
    var u := ToU64(q);
    AndClear(u, 0, k, 64);
    ShlByZero(Pow2(k) - 1);
    ShlByZero(0);
    var t := Shr(u, k);
    var a := Shl(t, k);
    assert BitAnd(u, Not64(Pow2(k) - 1)) == a by {
      assert Low(u, 0) < 1;
    }
    Recompose(u, k);
    var j := 63 - k;
    assert Shl(Pow2(j), k) == TWO63 by { ShlPow2(j, k); assert j + k == 63; }
    if q >= 0 {
      Parts(a, k, 0, t);
    } else {
      var p := Pow2(j);
      if t < p {
        ShlAdd(t, 1, k);
        ShlMono(t + 1, p, k);
        ShlOne(k);
        assert false;
      }
      ShlMono(p, t, k);
      ShlAdd(t - 2 * p, p, k);
      ShlAdd(t - p, p, k);
      Parts(q, k, Low(u, k), t - 2 * p);
      Parts(a - TWO64, k, 0, t - 2 * p);
    }
  }

  lemma I64Range(q: int)
    ensures InSigned(q, 64) <==> -TWO63 <= q < TWO63
  {
    hide Pow2;
    Pow2Table();
  }

  lemma TopBits(top: int)
    requires -TWO63 <= top < TWO63
    ensures ToU64(top + 1) >= 2 <==> !(-1 <= top <= 0)
  {
  }

  lemma HalfMask(len: nat)
    requires len > 0
    ensures Shr(Pow2(len) - 1, 1) == Pow2(len - 1) - 1
  {
    assert Shr(Pow2(len) - 1, 1) == Shr((Pow2(len) - 1) / 2, 0);
  }

  /** The overflow test: with sval the shifted value and imm_mask its len value bits, the code
      reports an overflow exactly when sval is not a len-bit signed number. */
  lemma OverflowTestExact(sval: int, len: nat)
    requires InSigned(sval, 64) && 0 < len < 64
    ensures Shr(Pow2(len) - 1, 1) == Pow2(len - 1) - 1 < TWO64
    ensures ToU64(Shr(ToI64(BitAnd(ToU64(sval), Not64(Shr(Pow2(len) - 1, 1)))), len - 1) + 1) >= 2
       <==> !InSigned(sval, len)
  {
    hide Shl, Low, BitAnd, Shr, Pow2, ToI64, InSigned, Not64;
    HalfMask(len);
    assert -TWO63 <= sval < TWO63 by { I64Range(sval); }
    ClearThenShift(sval, len - 1);
    SignShift(sval, len);
    TopBits(Shr(sval, len - 1));
  }

  // ----- one relocation as a whole: the cell it leaves and the status it returns

  function OpOf(h: Howto): RelocOp {
    match h
    case Data(op, _) => op
    case Movw(op, _, _) => op
    case Imm(op, _, _, _) => op
    case _ => OpNone
  }

  function Cell(h: Howto, place: u64, val: u64, cell: nat): nat
    requires WellFormed(h) && cell < CellTop(Width(h))
  {
    CellTops();
    var x := Value(OpOf(h), place, val);
    match h
    case Data(_, size) => DataCell(x, size)
    case Movw(_, group, signed) => MovwWord(x, group, signed, cell)
    case Imm(_, lsb, len, imt) => ImmWord(x, lsb, len, imt, cell)
    case _ => cell
  }

  /** The address of an image offset. */
  function Place(base: nat, loc: nat): u64 {
    ToU64(base + loc)
  }

  /** The image after one relocation at loc. */
  function Patch(mem: seq<byte>, base: nat, loc: nat, h: Howto, val: u64): (mem': seq<byte>)
    requires WellFormed(h) && loc + Width(h) <= |mem|
    ensures |mem'| == |mem|
  {
    if Width(h) == 0 then mem
    else
      LoadBound(mem, loc, Width(h));
      Store(mem, loc, Width(h), Cell(h, Place(base, loc), val, Load(mem, loc, Width(h))))
  }

  function Range(h: Howto, place: u64, val: u64): (r: int)
    requires WellFormed(h)
    ensures r == 0 || r == -ERANGE
  {
    if Fits(h, Value(OpOf(h), place, val)) then 0 else -ERANGE
  }

  lemma HowtoWellFormed(t: RelocType)
    ensures WellFormed(HowtoOf(t))
  {
  }

  function Status(t: RelocType, place: u64, val: u64): int {
    HowtoWellFormed(t);
    if t.Unsupported? then -ENOEXEC
    else if Checked(t) && Range(HowtoOf(t), place, val) != 0 then -ENOEXEC
    else 0
  }

  lemma CellBound(h: Howto, place: u64, val: u64, cell: nat)
    requires WellFormed(h) && cell < CellTop(Width(h))
    ensures Cell(h, place, val, cell) < CellTop(Width(h))
  {
    CellTops();
  }

  // ----- the code that patches in place

  /** What reloc_data must store and test, in numbers. */
  lemma DataPatch(mem: seq<byte>, base: nat, loc: nat, op: RelocOp, val: u64)
    requires op == OpAbs || op == OpPrel
    requires base + loc < TWO64
    ensures var x, place := Value(op, base + loc, val), Place(base, loc);
            && (loc + 2 <= |mem| ==> Patch(mem, base, loc, Data(op, 2), val) == Store(mem, loc, 2, x % TWO16))
            && (loc + 4 <= |mem| ==> Patch(mem, base, loc, Data(op, 4), val) == Store(mem, loc, 4, x % TWO32))
            && (loc + 8 <= |mem| ==> Patch(mem, base, loc, Data(op, 8), val) == Store(mem, loc, 8, x % TWO64))
            && (Range(Data(op, 2), place, val) == 0
                <==> if op == OpAbs then 0 <= x <= 0xFFFF else -0x8000 <= x <= 0x7FFF)
            && (Range(Data(op, 4), place, val) == 0
                <==> if op == OpAbs then 0 <= x <= 0xFFFFFFFF else -0x80000000 <= x <= 0x7FFFFFFF)
  {
    hide Pow2, CellTop, Store, Load, Value;
    Pow2Table();
    CellTops();
  }

  method RelocData(op: RelocOp, img: Image, loc: nat, val: u64, len: nat) returns (ret: int)
    requires img.Valid() && len in {16, 32, 64} && loc + len / 8 <= img.bytes.Length
    requires op == OpAbs || op == OpPrel
    modifies img.bytes
    ensures img.bytes[..] == Patch(old(img.bytes[..]), img.base, loc, Data(op, len / 8), val)
    ensures ret == if len == 64 then 0 else Range(Data(op, len / 8), Place(img.base, loc), val)
  {
    hide Patch, Range, Store, Load, DoReloc, CellTop;
    var sval := ToI64(DoReloc(op, img.base + loc, val));
    DataPatch(img.bytes[..], img.base, loc, op, val);
    ret := 0;
    match len {
      case 16 =>
        img.StoreCell(loc, 2, sval % TWO16);
        match op {
          case OpAbs =>
            if sval < 0 || sval > 0xFFFF { ret := -ERANGE; }
          case _ =>
            if sval < -0x8000 || sval > 0x7FFF { ret := -ERANGE; }
        }
      case 32 =>
        img.StoreCell(loc, 4, sval % TWO32);
        match op {
          case OpAbs =>
            if sval < 0 || sval > 0xFFFFFFFF { ret := -ERANGE; }
          case _ =>
            if sval < -0x80000000 || sval > 0x7FFFFFFF { ret := -ERANGE; }
        }
      case _ =>
        img.StoreCell(loc, 8, sval % TWO64);
    }
  }

  /** The unsigned 16-bit test on the shifted, possibly inverted value is the range test. */
  lemma MovwImmRange(x: int, group: nat, signed: bool, op: RelocOp)
    requires -TWO63 <= x < TWO63 && group < 4
    ensures Fits(Movw(op, group, signed), x) <==> MovwImm(x, group, signed) <= 0xFFFF
  {
    hide Shr;
  }

  /** Patch and Range of a MOVW relocation, from the opcode and immediate the code computes. */
  lemma MovwPatch(mem: seq<byte>, base: nat, loc: nat, op: RelocOp, group: nat, signed: bool, val: u64)
    requires base + loc < TWO64 && loc + 4 <= |mem| && group < 4
    ensures CellTop(4) == TWO32 && Load(mem, loc, 4) < TWO32
    ensures var x := Value(op, base + loc, val);
            && Patch(mem, base, loc, Movw(op, group, signed), val)
               == Store(mem, loc, 4, MovwWord(x, group, signed, Load(mem, loc, 4)))
            && (Range(Movw(op, group, signed), Place(base, loc), val) == 0 <==> MovwImm(x, group, signed) <= 0xFFFF)
  {
    hide CellTop, Store, Load, DoReloc, MovwWord, Fits, MovwImm;
    CellTops();
    LoadBound(mem, loc, 4);
    MovwImmRange(Value(op, base + loc, val), group, signed, op);
  }

  /** Clearing bits 29 and 30, and setting bit 30, is writing the two-bit opcode field. */
  lemma OpcodeBits(insn: u32)
    ensures BitAnd(insn, Not32(0x60000000)) == SetField(insn, 29, 2, 0) < TWO32
    ensures 2 < Pow2(2)
    ensures BitOr(SetField(insn, 29, 2, 0), 0x40000000) == SetField(insn, 29, 2, 2) < TWO32
  {
    hide BitAnd, BitOr, SetField, Low, Shr, Pow2;
    Pow2Table();
    ShlIsMul(3, 29);
    ShlIsMul(2, 29);
    AndClear(insn, 29, 2, 32);
    OrInto(insn, 29, 2, 2);
    SetFieldBound(insn, 29, 2, 0, 32);
    SetFieldBound(insn, 29, 2, 2, 32);
  }

  method RelocInsnMovw(op: RelocOp, img: Image, loc: nat, val: u64, lsb: nat, immType: MovwImmType)
    returns (ret: int)
    requires img.Valid() && loc + 4 <= img.bytes.Length && lsb in {0, 16, 32, 48}
    modifies img.bytes
    ensures img.bytes[..] == Patch(old(img.bytes[..]), img.base, loc, Movw(op, lsb / 16, immType == MovNZ), val)
    ensures ret == Range(Movw(op, lsb / 16, immType == MovNZ), Place(img.base, loc), val)
  {
    hide BitAnd, BitOr, SetField, Low, Shr, Pow2, Load, Store, EncodeImmediate, CellTop, Patch, Range;
    MovwPatch(img.bytes[..], img.base, loc, op, lsb / 16, immType == MovNZ, val);
    var word := img.LoadCell(loc, 4);
    var insn: u32 := word;
    var sval := ToI64(DoReloc(op, img.base + loc, val));
    hide DoReloc;
    var imm: u64 := ToU64(Shr(sval, lsb));
    OpcodeBits(insn);
    if immType == MovNZ {
      insn := BitAnd(insn, Not32(0x60000000));
      if sval >= 0 {
        insn := BitOr(insn, 0x40000000);
      } else {
        imm := Not64(imm);
      }
    }
    insn := EncodeImmediate(Imm16, insn, imm);
    img.StoreCell(loc, 4, insn);
    ret := if imm > 0xFFFF then -ERANGE else 0;
  }

  /** Patch and Range of an immediate relocation, from the shifted value. */
  lemma ImmPatch(mem: seq<byte>, base: nat, loc: nat, op: RelocOp, lsb: nat, len: nat, imt: ImmType, val: u64)
    requires base + loc < TWO64 && loc + 4 <= |mem| && 0 < len && lsb + len < 64 && imt != ImmMax
    ensures Load(mem, loc, 4) < CellTop(4) == TWO32
    ensures var q := Shr(Value(op, base + loc, val), lsb); var h := Imm(op, lsb, len, imt);
            && InSigned(q, 64) && Low(q, len) < TWO64
            && Patch(mem, base, loc, h, val) == Store(mem, loc, 4, EncodeImmediate(imt, Load(mem, loc, 4), Low(q, len)))
            && (Range(h, Place(base, loc), val) == 0 <==> InSigned(q, len))
  {
    hide CellTop, Store, Load, DoReloc, EncodeImmediate, Low, Shr, Pow2, InSigned;
    CellTops();
    LoadBound(mem, loc, 4);
    I64Range(Value(op, base + loc, val));
    I64Range(Shr(Value(op, base + loc, val), lsb));
    assert Low(Shr(Value(op, base + loc, val), lsb), len) < TWO64 by { Pow2Mono(len, 64); Pow2Table(); }
  }

  lemma ImmBits(sval: int, len: nat)
    requires len < 64
    ensures Pow2(len) - 1 < TWO64
    ensures BitAnd(ToU64(sval), Pow2(len) - 1) == Low(sval, len)
  {
    hide BitAnd, Low, Pow2;
    Pow2Table();
    Pow2Mono(len, 64);
    AndLow(ToU64(sval), len);
    LowOfU64(sval, len);
  }

  method RelocInsnImm(op: RelocOp, img: Image, loc: nat, val: u64, lsb: nat, len: nat, immType: ImmType)
    returns (ret: int)
    requires img.Valid() && loc + 4 <= img.bytes.Length
    requires 0 < len && lsb + len < 64 && immType != ImmMax
    modifies img.bytes
    ensures img.bytes[..] == Patch(old(img.bytes[..]), img.base, loc, Imm(op, lsb, len, immType), val)
    ensures ret == Range(Imm(op, lsb, len, immType), Place(img.base, loc), val)
  {
    hide BitAnd, Shl, Low, Shr, Pow2, InSigned, Load, Store, EncodeImmediate, CellTop, Patch, Range, DoReloc;
    ImmPatch(img.bytes[..], img.base, loc, op, lsb, len, immType, val);
    var word := img.LoadCell(loc, 4);
    var insn: u32 := word;
    var sval := ToI64(DoReloc(op, img.base + loc, val));
    sval := Shr(sval, lsb);
    ImmMaskTrick(lsb, len);
    ImmBits(sval, len);
    OverflowTestExact(sval, len);
    var immMask: u64 := Shr(Shl(1, lsb + len) - 1, lsb);
    var imm: u64 := BitAnd(ToU64(sval), immMask);
    insn := EncodeImmediate(immType, insn, imm);
    img.StoreCell(loc, 4, insn);
    var top := Shr(ToI64(BitAnd(ToU64(sval), Not64(Shr(immMask, 1)))), len - 1);
    ret := if ToU64(top + 1) >= 2 then -ERANGE else 0;
  }

  /** No place is forbidden to ADRP, so the branch that would turn it into ADR is never taken. */
  method RelocInsnAdrp(img: Image, loc: nat, val: u64) returns (ret: int)
    requires img.Valid() && loc + 4 <= img.bytes.Length
    modifies img.bytes
    ensures img.bytes[..] == Patch(old(img.bytes[..]), img.base, loc, Imm(OpPage, 12, 21, Adr), val)
    ensures ret == Range(Imm(OpPage, 12, 21, Adr), Place(img.base, loc), val)
  {
    ret := RelocInsnImm(OpPage, img, loc, val, 12, 21, Adr);
  }

  lemma UnpatchedIsSame(mem: seq<byte>, base: nat, loc: nat, h: Howto, val: u64)
    requires Width(h) == 0 && WellFormed(h) && loc <= |mem|
    ensures Patch(mem, base, loc, h, val) == mem
  {
  }

  /** The data relocations of the switch. */
  method RelocateData(t: RelocType, img: Image, loc: nat, val: u64) returns (check: bool, ovf: int)
    requires HowtoOf(t).Data? && img.Valid() && loc + Width(HowtoOf(t)) <= img.bytes.Length
    modifies img.bytes
    ensures WellFormed(HowtoOf(t)) && check == Checked(t)
    ensures img.bytes[..] == Patch(old(img.bytes[..]), img.base, loc, HowtoOf(t), val)
    ensures check ==> ovf == Range(HowtoOf(t), Place(img.base, loc), val)
  {
    hide Patch, Range, Place, Fits, Load, Store, CellTop;
    check, ovf := true, 0;
    match t {
      case ABS64 =>
        check := false;
        ovf := RelocData(OpAbs, img, loc, val, 64);
      case ABS32 => ovf := RelocData(OpAbs, img, loc, val, 32);
      case ABS16 => ovf := RelocData(OpAbs, img, loc, val, 16);
      case PREL64 =>
        check := false;
        ovf := RelocData(OpPrel, img, loc, val, 64);
      case PREL32 => ovf := RelocData(OpPrel, img, loc, val, 32);
      case PREL16 => ovf := RelocData(OpPrel, img, loc, val, 16);
    }
  }

  /** The MOVW relocations of the switch. */
  method RelocateMovw(t: RelocType, img: Image, loc: nat, val: u64) returns (check: bool, ovf: int)
    requires HowtoOf(t).Movw? && img.Valid() && loc + Width(HowtoOf(t)) <= img.bytes.Length
    modifies img.bytes
    ensures WellFormed(HowtoOf(t)) && check == Checked(t)
    ensures img.bytes[..] == Patch(old(img.bytes[..]), img.base, loc, HowtoOf(t), val)
    ensures check ==> ovf == Range(HowtoOf(t), Place(img.base, loc), val)
  {
    hide Patch, Range, Place, Fits, Load, Store, CellTop;
    check, ovf := true, 0;
    match t {
      case MOVW_UABS_G0_NC =>
        check := false;
        ovf := RelocInsnMovw(OpAbs, img, loc, val, 0, MovKZ);
      case MOVW_UABS_G0 => ovf := RelocInsnMovw(OpAbs, img, loc, val, 0, MovKZ);
      case MOVW_UABS_G1_NC =>
        check := false;
        ovf := RelocInsnMovw(OpAbs, img, loc, val, 16, MovKZ);
      case MOVW_UABS_G1 => ovf := RelocInsnMovw(OpAbs, img, loc, val, 16, MovKZ);
      case MOVW_UABS_G2_NC =>
        check := false;
        ovf := RelocInsnMovw(OpAbs, img, loc, val, 32, MovKZ);
      case MOVW_UABS_G2 => ovf := RelocInsnMovw(OpAbs, img, loc, val, 32, MovKZ);
      case MOVW_UABS_G3 =>
        check := false;
        ovf := RelocInsnMovw(OpAbs, img, loc, val, 48, MovKZ);
      case MOVW_SABS_G0 => ovf := RelocInsnMovw(OpAbs, img, loc, val, 0, MovNZ);
      case MOVW_SABS_G1 => ovf := RelocInsnMovw(OpAbs, img, loc, val, 16, MovNZ);
      case MOVW_SABS_G2 => ovf := RelocInsnMovw(OpAbs, img, loc, val, 32, MovNZ);
      case MOVW_PREL_G0_NC =>
        check := false;
        ovf := RelocInsnMovw(OpPrel, img, loc, val, 0, MovKZ);
      case MOVW_PREL_G0 => ovf := RelocInsnMovw(OpPrel, img, loc, val, 0, MovNZ);
      case MOVW_PREL_G1_NC =>
        check := false;
        ovf := RelocInsnMovw(OpPrel, img, loc, val, 16, MovKZ);
      case MOVW_PREL_G1 => ovf := RelocInsnMovw(OpPrel, img, loc, val, 16, MovNZ);
      case MOVW_PREL_G2_NC =>
        check := false;
        ovf := RelocInsnMovw(OpPrel, img, loc, val, 32, MovKZ);
      case MOVW_PREL_G2 => ovf := RelocInsnMovw(OpPrel, img, loc, val, 32, MovNZ);
      case MOVW_PREL_G3 =>
        check := false;
        ovf := RelocInsnMovw(OpPrel, img, loc, val, 48, MovNZ);
    }
  }

  /** The immediate relocations of the switch. */
  method RelocateImm(t: RelocType, img: Image, loc: nat, val: u64) returns (check: bool, ovf: int)
    requires HowtoOf(t).Imm? && img.Valid() && loc + Width(HowtoOf(t)) <= img.bytes.Length
    modifies img.bytes
    ensures WellFormed(HowtoOf(t)) && check == Checked(t)
    ensures img.bytes[..] == Patch(old(img.bytes[..]), img.base, loc, HowtoOf(t), val)
    ensures check ==> ovf == Range(HowtoOf(t), Place(img.base, loc), val)
  {
    hide Patch, Range, Place, Fits, Load, Store, CellTop;
    check, ovf := true, 0;
    match t {
      case LD_PREL_LO19 => ovf := RelocInsnImm(OpPrel, img, loc, val, 2, 19, Imm19);
      case ADR_PREL_LO21 => ovf := RelocInsnImm(OpPrel, img, loc, val, 0, 21, Adr);
      case ADR_PREL_PG_HI21_NC =>
        check := false;
        ovf := RelocInsnAdrp(img, loc, val);
      case ADR_PREL_PG_HI21 =>
        ovf := RelocInsnAdrp(img, loc, val);
      case ADD_ABS_LO12_NC =>
        check := false;
        ovf := RelocInsnImm(OpAbs, img, loc, val, 0, 12, Imm12);
      case LDST8_ABS_LO12_NC =>
        check := false;
        ovf := RelocInsnImm(OpAbs, img, loc, val, 0, 12, Imm12);
      case LDST16_ABS_LO12_NC =>
        check := false;
        ovf := RelocInsnImm(OpAbs, img, loc, val, 1, 11, Imm12);
      case LDST32_ABS_LO12_NC =>
        check := false;
        ovf := RelocInsnImm(OpAbs, img, loc, val, 2, 10, Imm12);
      case LDST64_ABS_LO12_NC =>
        check := false;
        ovf := RelocInsnImm(OpAbs, img, loc, val, 3, 9, Imm12);
      case LDST128_ABS_LO12_NC =>
        check := false;
        ovf := RelocInsnImm(OpAbs, img, loc, val, 4, 8, Imm12);
      case TSTBR14 => ovf := RelocInsnImm(OpPrel, img, loc, val, 2, 14, Imm14);
      case CONDBR19 => ovf := RelocInsnImm(OpPrel, img, loc, val, 2, 19, Imm19);
      case JUMP26 => ovf := RelocInsnImm(OpPrel, img, loc, val, 2, 26, Imm26);
      case CALL26 => ovf := RelocInsnImm(OpPrel, img, loc, val, 2, 26, Imm26);
    }
  }

  lemma TableEnds(t: RelocType)
    ensures HowtoOf(t).NotSupported? <==> t.Unsupported?
    ensures HowtoOf(t).Nothing? ==> !Checked(t)
  {
  }

  /** The types that the dispatch never rejects. */
  const UNCHECKED: set<RelocType> :=
    {NONE, ABS64, PREL64, MOVW_UABS_G0_NC, MOVW_UABS_G1_NC, MOVW_UABS_G2_NC, MOVW_UABS_G3, MOVW_PREL_G0_NC,
     MOVW_PREL_G1_NC, MOVW_PREL_G2_NC, MOVW_PREL_G3, ADR_PREL_PG_HI21_NC, ADD_ABS_LO12_NC, LDST8_ABS_LO12_NC,
     LDST16_ABS_LO12_NC, LDST32_ABS_LO12_NC, LDST64_ABS_LO12_NC, LDST128_ABS_LO12_NC}

  lemma UncheckedTypes(t: RelocType)
    ensures Checked(t) <==> !t.Unsupported? && t !in UNCHECKED
    ensures t.Unsupported? || t.NONE? ==> Width(HowtoOf(t)) == 0
    ensures t.NONE? <==> HowtoOf(t).Nothing?
  {
  }

  method DoRelocateAdd(t: RelocType, img: Image, loc: nat, val: u64) returns (ret: int)
    requires img.Valid() && loc + Width(HowtoOf(t)) <= img.bytes.Length
    modifies img.bytes
    ensures WellFormed(HowtoOf(t))
    ensures img.bytes[..] == Patch(old(img.bytes[..]), img.base, loc, HowtoOf(t), val)
    ensures ret == Status(t, Place(img.base, loc), val)
    ensures ret == 0 || ret == -ENOEXEC
    ensures t in UNCHECKED ==> ret == 0
    ensures t.Unsupported? ==> ret != 0
    ensures t.Unsupported? || t.NONE? ==> img.bytes[..] == old(img.bytes[..])
  {
    hide Patch, Range, Place, Fits, Load, Store, CellTop, HowtoOf, Checked;
    var check, ovf := false, 0;
    HowtoWellFormed(t);
    UncheckedTypes(t);
    TableEnds(t);
    match HowtoOf(t) {
      case Nothing =>
        UnpatchedIsSame(img.bytes[..], img.base, loc, HowtoOf(t), val);
      case NotSupported =>
        UnpatchedIsSame(img.bytes[..], img.base, loc, HowtoOf(t), val);
        return -ENOEXEC;
      case Data(_, _) => check, ovf := RelocateData(t, img, loc, val);
      case Movw(_, _, _) => check, ovf := RelocateMovw(t, img, loc, val);
      case Imm(_, _, _, _) => check, ovf := RelocateImm(t, img, loc, val);
    }
    ret := if check && ovf == -ERANGE then -ENOEXEC else 0;
  }
}
