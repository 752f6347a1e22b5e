/** The relocation table of ELF for the Arm 64-bit Architecture (section 4.6) written out type by
    type, and the proof that the engine's own table has that meaning and those ranges. */
module Formulas {
  import opened Bits
  import opened Insn
  import opened Memory
  import opened Reloc
  import opened Decode
  import opened Resolve

  /** A branch ignores what its target and its place differ by modulo 4. */
  function Reachable(place: u64, val: u64): u64 {
    ToU64(val - (val - place) % 4)
  }

  /** What a loaded or stored address must have in its low 12 bits, for accesses of n bytes. */
  function Offset12(val: u64, n: nat): int
    requires n > 0
  {
    val % 0x1000 - val % n
  }

  // ----- the formulas

  predicate DataFormula(t: RelocType, place: u64, val: u64, cell: nat) {
    match t
    case ABS64 => cell == val
    case ABS32 => cell == val
    case ABS16 => cell == val
    case PREL64 => ToU64(place + SignExtend(cell, 64)) == val
    case PREL32 => ToU64(place + SignExtend(cell, 32)) == val
    case PREL16 => ToU64(place + SignExtend(cell, 16)) == val
    case _ => true
  }

  predicate CodeFormula(t: RelocType, place: u64, val: u64, w: u32) {
    match t
    case JUMP26 => BranchTarget(w, place) == Reachable(place, val)
    case CALL26 => BranchTarget(w, place) == Reachable(place, val)
    case CONDBR19 => LiteralTarget(w, place) == Reachable(place, val)
    case LD_PREL_LO19 => LiteralTarget(w, place) == Reachable(place, val)
    case TSTBR14 => TestTarget(w, place) == Reachable(place, val)
    case ADR_PREL_LO21 => AdrResult(w, place) == val
    case ADR_PREL_PG_HI21 => AdrpResult(w, place) == Page(val)
    case ADR_PREL_PG_HI21_NC => AdrpResult(w, place) == Page(val)
    case ADD_ABS_LO12_NC => Field(w, 10, 12) == val % 0x1000
    case LDST8_ABS_LO12_NC => Shl(Field(w, 10, 12), Scale(w)) == Offset12(val, 1)
    case LDST16_ABS_LO12_NC => Shl(Field(w, 10, 12), Scale(w)) == Offset12(val, 2)
    case LDST32_ABS_LO12_NC => Shl(Field(w, 10, 12), Scale(w)) == Offset12(val, 4)
    case LDST64_ABS_LO12_NC => Shl(Field(w, 10, 12), Scale(w)) == Offset12(val, 8)
    case LDST128_ABS_LO12_NC => Shl(Field(w, 10, 12), Scale(w)) == Offset12(val, 16)
    case _ => true
  }

  /** The value from its group of 16 bits on. */
  function From(x: int, group: nat): int {
    if group == 0 then x else if group == 1 then x / 0x1_0000 else if group == 2 then x / 0x1_0000_0000
    else x / 0x1_0000_0000_0000
  }

  predicate WideFormula(t: RelocType, x: u64, w: u32) {
    var field, moved := Field(w, 5, 16), ToI64(MoveWide(w, 0));
    match t
    case MOVW_UABS_G0 => field == From(x, 0)
    case MOVW_UABS_G0_NC => field == From(x, 0) % 0x1_0000
    case MOVW_UABS_G1 => field == From(x, 1)
    case MOVW_UABS_G1_NC => field == From(x, 1) % 0x1_0000
    case MOVW_UABS_G2 => field == From(x, 2)
    case MOVW_UABS_G2_NC => field == From(x, 2) % 0x1_0000
    case MOVW_UABS_G3 => field == From(x, 3)
    case MOVW_SABS_G0 => From(moved, 0) == From(ToI64(x), 0)
    case MOVW_SABS_G1 => From(moved, 1) == From(ToI64(x), 1)
    case MOVW_SABS_G2 => From(moved, 2) == From(ToI64(x), 2)
    case MOVW_PREL_G0 => From(moved, 0) == From(ToI64(x), 0)
    case MOVW_PREL_G0_NC => field == From(x, 0) % 0x1_0000
    case MOVW_PREL_G1 => From(moved, 1) == From(ToI64(x), 1)
    case MOVW_PREL_G1_NC => field == From(x, 1) % 0x1_0000
    case MOVW_PREL_G2 => From(moved, 2) == From(ToI64(x), 2)
    case MOVW_PREL_G2_NC => field == From(x, 2) % 0x1_0000
    case MOVW_PREL_G3 => From(moved, 3) == From(ToI64(x), 3)
    case _ => true
  }

  predicate Relative(t: RelocType) {
    t in {PREL64, PREL32, PREL16, MOVW_PREL_G0, MOVW_PREL_G0_NC, MOVW_PREL_G1, MOVW_PREL_G1_NC, MOVW_PREL_G2,
          MOVW_PREL_G2_NC, MOVW_PREL_G3, LD_PREL_LO19, ADR_PREL_LO21, TSTBR14, CONDBR19, JUMP26, CALL26}
  }

  /** The value relocated with: S+A, S+A-P or Page(S+A)-Page(P). */
  function Pattern(t: RelocType, place: u64, val: u64): u64 {
    if Relative(t) then ToU64(val - place)
    else if t == ADR_PREL_PG_HI21 || t == ADR_PREL_PG_HI21_NC then ToU64(Page(val) - Page(place))
    else val
  }

  predicate Formula(t: RelocType, place: u64, val: u64, cell: nat) {
    DataFormula(t, place, val, cell)
    && (HowtoOf(t).Imm? || HowtoOf(t).Movw? ==>
          cell < TWO32 && CodeFormula(t, place, val, cell) && WideFormula(t, Pattern(t, place, val), cell))
  }

  /** The checked ranges, of the value as a signed number. ABS32 and ABS16 must be unsigned, where
      the standard also admits negative values. */
  predicate InRange(t: RelocType, x: int) {
    match t
    case ABS32 => 0 <= x < 0x1_0000_0000
    case ABS16 => 0 <= x < 0x1_0000
    case PREL32 => -0x8000_0000 <= x < 0x8000_0000
    case PREL16 => -0x8000 <= x < 0x8000
    case MOVW_UABS_G0 => 0 <= x < 0x1_0000
    case MOVW_UABS_G1 => 0 <= x < 0x1_0000_0000
    case MOVW_UABS_G2 => 0 <= x < 0x1_0000_0000_0000
    case MOVW_SABS_G0 => -0x1_0000 <= x < 0x1_0000
    case MOVW_SABS_G1 => -0x1_0000_0000 <= x < 0x1_0000_0000
    case MOVW_SABS_G2 => -0x1_0000_0000_0000 <= x < 0x1_0000_0000_0000
    case MOVW_PREL_G0 => -0x1_0000 <= x < 0x1_0000
    case MOVW_PREL_G1 => -0x1_0000_0000 <= x < 0x1_0000_0000
    case MOVW_PREL_G2 => -0x1_0000_0000_0000 <= x < 0x1_0000_0000_0000
    case LD_PREL_LO19 => -0x10_0000 <= x < 0x10_0000
    case ADR_PREL_LO21 => -0x10_0000 <= x < 0x10_0000
    case ADR_PREL_PG_HI21 => -0x1_0000_0000 <= x < 0x1_0000_0000
    case TSTBR14 => -0x8000 <= x < 0x8000
    case CONDBR19 => -0x10_0000 <= x < 0x10_0000
    case JUMP26 => -0x800_0000 <= x < 0x800_0000
    case CALL26 => -0x800_0000 <= x < 0x800_0000
    case _ => true
  }

  // ----- the engine's table means that

  lemma PatternIs(t: RelocType, place: u64, val: u64)
    requires HowtoOf(t).Data? || HowtoOf(t).Movw? || HowtoOf(t).Imm?
    ensures DoReloc(OpOf(HowtoOf(t)), place, val) == Pattern(t, place, val)
  {
    hide BitAnd, Page, ToU64;
    PageMask(val);
    PageMask(place);
  }

  lemma ShiftsAre(x: int)
    ensures Shr(x, 0) == x && Shr(x, 16) == x / 0x1_0000 && Shr(x, 32) == x / 0x1_0000_0000
    ensures Shr(x, 48) == x / 0x1_0000_0000_0000
    ensures Low(x, 16) == x % 0x1_0000
  {
    hide Shr, Low, Pow2;
    Pow2Table();
    ShrIsDiv(x, 0);
    ShrIsDiv(x, 16);
    ShrIsDiv(x, 32);
    ShrIsDiv(x, 48);
  }

  lemma FieldIs(x: nat, s: nat)
    ensures Field(x, s, 16) == Low(Shr(x, s), 16)
  {
    LowLow(x, s, 16);
  }

  lemma ShrIsFrom(x: int, group: nat)
    requires group < 4
    ensures Shr(x, 16 * group) == From(x, group)
    ensures x >= 0 ==> Field(x, 16 * group, 16) == From(x, group) % 0x1_0000
  {
    hide Shr, Low, Field;
    ShiftsAre(x);
    ShiftsAre(From(x, group));
    if x >= 0 {
      FieldIs(x, 16 * group);
    }
  }

  /** A wide move's formula by its group, from the quotients. */
  predicate WideMeans(group: nat, signed: bool, partial: bool, x: u64, w: u32) {
    if signed then From(ToI64(MoveWide(w, 0)), group) == From(ToI64(x), group)
    else if partial then Field(w, 5, 16) == From(x, group) % 0x1_0000
    else Field(w, 5, 16) == From(x, group)
  }

  lemma WideQuotients(group: nat, signed: bool, partial: bool, x: u64, w: u32)
    requires group < 4
    ensures ResolvedWide(group, signed, partial, x, w) <==> WideMeans(group, signed, partial, x, w)
  {
    hide Shr, Low, Field, MoveWide, ToI64, From;
    ShrIsFrom(x, group);
    ShrIsFrom(ToI64(x), group);
    ShrIsFrom(ToI64(MoveWide(w, 0)), group);
  }

  lemma WideByType(t: RelocType, x: u64, w: u32)
    requires HowtoOf(t).Movw?
    ensures WideFormula(t, x, w) <==> WideMeans(HowtoOf(t).group, HowtoOf(t).signed, Partial(t), x, w)
  {
    hide Field, MoveWide, ToI64, From, Pow2, Low, Shr;
  }

  lemma WideIsFormula(t: RelocType, place: u64, val: u64, w: u32)
    requires HowtoOf(t).Movw?
    ensures WideFormula(t, Pattern(t, place, val), w) <==> Resolved(t, place, val, w)
  {
    hide Field, MoveWide, Pattern, DoReloc, ToI64, ResolvedWide, WideFormula, WideMeans, Partial, HowtoOf;
    PatternIs(t, place, val);
    HowtoWellFormed(t);
    var h := HowtoOf(t);
    WideQuotients(h.group, h.signed, Partial(t), Pattern(t, place, val), w);
    WideByType(t, Pattern(t, place, val), w);
  }

  lemma CodeIsFormula(t: RelocType, place: u64, val: u64, w: u32)
    requires HowtoOf(t).Imm?
    ensures CodeFormula(t, place, val, w) <==> Resolved(t, place, val, w)
  {
    hide Field, Shl, BranchTarget, LiteralTarget, TestTarget, AdrResult, AdrpResult, Page, Scale, Pow2;
    assert Pow2(0) == 1 && Pow2(1) == 2 && Pow2(2) == 4 && Pow2(3) == 8 && Pow2(4) == 16 by { Pow2Table(); }
  }

  lemma DataIsFormula(t: RelocType, place: u64, val: u64, cell: nat)
    requires !HowtoOf(t).Movw? && !HowtoOf(t).Imm?
    ensures DataFormula(t, place, val, cell) <==> Resolved(t, place, val, cell)
  {
    hide SignExtend, ToU64, ResolvedWide, ResolvedImm, DoReloc;
  }

  lemma WordNeeded(t: RelocType, place: u64, val: u64, cell: nat)
    requires (HowtoOf(t).Movw? || HowtoOf(t).Imm?) && cell >= TWO32
    ensures !Resolved(t, place, val, cell)
  {
    hide ResolvedWide, ResolvedImm, DoReloc, HowtoOf;
  }

  lemma OnlyOneFormula(t: RelocType, place: u64, val: u64, x: u64, w: u32)
    ensures HowtoOf(t).Movw? ==> CodeFormula(t, place, val, w) && DataFormula(t, place, val, w)
    ensures HowtoOf(t).Imm? ==> WideFormula(t, x, w) && DataFormula(t, place, val, w)
  {
    hide Field, MoveWide, BranchTarget, LiteralTarget, TestTarget, AdrResult, AdrpResult, Shl, Page;
  }

  /** Resolved, read off the engine's table, is the standard's formula for every type. */
  lemma FormulaIsResolved(t: RelocType, place: u64, val: u64, cell: nat)
    ensures Formula(t, place, val, cell) <==> Resolved(t, place, val, cell)
  {
    hide CodeFormula, WideFormula, DataFormula, Resolved, Pattern, HowtoOf;
    if HowtoOf(t).Movw? || HowtoOf(t).Imm? {
      if cell < TWO32 {
        OnlyOneFormula(t, place, val, Pattern(t, place, val), cell);
        if HowtoOf(t).Movw? {
          WideIsFormula(t, place, val, cell);
        } else {
          CodeIsFormula(t, place, val, cell);
        }
      } else {
        WordNeeded(t, place, val, cell);
      }
    } else {
      DataIsFormula(t, place, val, cell);
    }
  }

  lemma SignedRange(x: int, lsb: nat, len: nat)
    requires len > 0
    ensures InSigned(Shr(x, lsb), len) <==> -Shl(Pow2(len - 1), lsb) <= x < Shl(Pow2(len - 1), lsb)
  {
    hide Shr, Shl, Pow2, Low;
    var p: int, q := Pow2(len - 1), Shr(x, lsb);
    Recompose(x, lsb);
    ShlOne(lsb);
    ShlAdd(q, 1, lsb);
    ShlAdd(-p, p, lsb);
    ShlZero(lsb);
    if q < p { ShlMono(q + 1, p, lsb); } else { ShlMono(p, q, lsb); }
    if q < -p { ShlMono(q + 1, -p, lsb); } else { ShlMono(-p, q, lsb); }
  }

  lemma DataRange(t: RelocType, x: int)
    requires HowtoOf(t).Data? && Checked(t)
    ensures Fits(HowtoOf(t), x) <==> InRange(t, x)
  {
    hide Pow2;
    Pow2Table();
  }

  lemma QuotientRange(x: int, q: int, d: nat)
    requires d > 0 && q == x / d
    ensures q < 0x1_0000 <==> x < 0x1_0000 * d
    ensures 0 <= q <==> 0 <= x
    ensures -0x1_0000 <= q <==> -0x1_0000 * d <= x
  {
    assert x == q * d + x % d;
    assert q * d + d == (q + 1) * d;
    if q < 0x1_0000 { MulLe(q + 1, 0x1_0000, d); } else { MulLe(0x1_0000, q, d); }
    if q < 0 { MulLe(q + 1, 0, d); } else { MulLe(0, q, d); }
    if q < -0x1_0000 { MulLe(q + 1, -0x1_0000, d); } else { MulLe(-0x1_0000, q, d); }
  }

  lemma GroupRange(x: int)
    ensures Shr(x, 0) == x
    ensures Shr(x, 16) < 0x1_0000 <==> x < 0x1_0000_0000
    ensures 0 <= Shr(x, 16) <==> 0 <= x
    ensures -0x1_0000 <= Shr(x, 16) <==> -0x1_0000_0000 <= x
    ensures Shr(x, 32) < 0x1_0000 <==> x < 0x1_0000_0000_0000
    ensures 0 <= Shr(x, 32) <==> 0 <= x
    ensures -0x1_0000 <= Shr(x, 32) <==> -0x1_0000_0000_0000 <= x
  {
    hide Shr;
    ShiftsAre(x);
    QuotientRange(x, Shr(x, 16), 0x1_0000);
    QuotientRange(x, Shr(x, 32), 0x1_0000_0000);
  }

  lemma WideRange(t: RelocType, x: int)
    requires HowtoOf(t).Movw? && Checked(t)
    ensures Fits(HowtoOf(t), x) <==> InRange(t, x)
  {
    hide Shr;
    GroupRange(x);
  }

  lemma CodeRange(t: RelocType, x: int)
    requires HowtoOf(t).Imm? && Checked(t)
    ensures WellFormed(HowtoOf(t))
    ensures Fits(HowtoOf(t), x) <==> InRange(t, x)
  {
    hide Shr, Pow2, InSigned, Shl;
    Pow2Table();
    SignedRange(x, HowtoOf(t).lsb, HowtoOf(t).len);
    ShlPow2(25, 2);
    ShlPow2(18, 2);
    ShlPow2(13, 2);
    ShlPow2(20, 12);
    ShlPow2(20, 0);
    Pow2Plus(26);
  }

  /** A checked relocation returns 0 exactly for values in the range of its type. */
  lemma StatusRange(t: RelocType, place: u64, val: u64)
    requires Checked(t)
    ensures Status(t, place, val) == 0 <==> InRange(t, ToI64(Pattern(t, place, val)))
  {
    hide DoReloc, Pattern, Shr, Low, ToI64, InSigned, Pow2;
    assert HowtoOf(t).Data? || HowtoOf(t).Movw? || HowtoOf(t).Imm?;
    PatternIs(t, place, val);
    var x := ToI64(Pattern(t, place, val));
    match HowtoOf(t) {
      case Data(_, size) => DataRange(t, x);
      case Movw(_, _, _) => WideRange(t, x);
      case Imm(_, _, _, _) => CodeRange(t, x);
    }
  }

  lemma PageTwin(place: u64, val: u64)
    ensures WellFormed(HowtoOf(ADR_PREL_PG_HI21_NC))
    ensures InRange(ADR_PREL_PG_HI21, ToI64(Pattern(ADR_PREL_PG_HI21_NC, place, val)))
       <==> Fits(HowtoOf(ADR_PREL_PG_HI21_NC), Value(OpPage, place, val))
  {
    hide Pattern, Shr, Pow2, InSigned, DoReloc, ToI64;
    PatternIs(ADR_PREL_PG_HI21_NC, place, val);
    CodeRange(ADR_PREL_PG_HI21, Value(OpPage, place, val));
  }

  /** Every relocation that returned 0 left a cell that satisfies its formula; only the unchecked
      page relocation needs its page distance within 2^32. */
  lemma SuccessMeetsFormula(t: RelocType, place: u64, val: u64, cell: nat)
    requires WellFormed(HowtoOf(t)) && cell < CellTop(Width(HowtoOf(t)))
    requires HowtoOf(t).Imm? || HowtoOf(t).Movw? ==> cell < TWO32 && Targets(t, cell)
    requires Status(t, place, val) == 0
    requires t == ADR_PREL_PG_HI21_NC ==> InRange(ADR_PREL_PG_HI21, ToI64(Pattern(t, place, val)))
    ensures Formula(t, place, val, Cell(HowtoOf(t), place, val, cell))
  {
    hide Formula, Cell, CellTop, Targets, Fits, InRange, Pattern, Status, Value, Resolved;
    if t == ADR_PREL_PG_HI21_NC {
      PageTwin(place, val);
    }
    SuccessResolves(t, place, val, cell);
    FormulaIsResolved(t, place, val, Cell(HowtoOf(t), place, val, cell));
  }

  // ----- when a branch reaches its target

  predicate Branches(t: RelocType) {
    t in {JUMP26, CALL26, CONDBR19, TSTBR14, LD_PREL_LO19}
  }

  /** Where a branch or literal load of the given kind goes. */
  function Destination(t: RelocType, w: u32, pc: u64): u64
    requires Branches(t)
  {
    match t
    case TSTBR14 => TestTarget(w, pc)
    case CONDBR19 => LiteralTarget(w, pc)
    case LD_PREL_LO19 => LiteralTarget(w, pc)
    case _ => BranchTarget(w, pc)
  }

  lemma BranchMeans(t: RelocType, place: u64, val: u64, w: u32)
    requires Branches(t)
    ensures HowtoOf(t).Imm? && Checked(t)
    ensures Formula(t, place, val, w) <==> Destination(t, w, place) == Reachable(place, val)
  {
    hide BranchTarget, LiteralTarget, TestTarget, Reachable, Pattern, Field, MoveWide;
  }

  lemma WrapsByWords(pc: u64, n: int)
    ensures (ToU64(pc + 4 * n) - pc) % 4 == 0
  {
    var x := pc + 4 * n;
    assert x == TWO64 * (x / TWO64) + ToU64(x);
    assert ToU64(x) - pc == 4 * (n - 0x4000_0000_0000_0000 * (x / TWO64));
  }

  lemma DestinationAligned(t: RelocType, w: u32, pc: u64)
    requires Branches(t)
    ensures (Destination(t, w, pc) - pc) % 4 == 0
  {
    hide Field, SignExtend, ToU64, Pow2;
    WrapsByWords(pc, SignExtend(Field(w, 0, 26), 26));
    WrapsByWords(pc, SignExtend(Field(w, 5, 19), 19));
    WrapsByWords(pc, SignExtend(Field(w, 5, 14), 14));
  }

  lemma ReachableIs(place: u64, val: u64)
    ensures Reachable(place, val) == val <==> (val - place) % 4 == 0
  {
    var r := (val - place) % 4;
    ModEq(val - r, val);
  }

  lemma BranchIsWord(t: RelocType)
    requires Branches(t)
    ensures WellFormed(HowtoOf(t)) && Width(HowtoOf(t)) == 4
  {
  }

  /** A branch or literal load goes to S+A itself exactly when its relocation returned 0 and its
      place and S+A differ by a multiple of 4, which the code does not check. */
  lemma BranchReaches(t: RelocType, place: u64, val: u64, w: u32)
    requires Branches(t) && Targets(t, w)
    ensures Destination(t, Word(t, place, val, w), place) == val
       <==> Status(t, place, val) == 0 && (val - place) % 4 == 0
  {
    hide Destination, Reachable, Formula, Status, Targets, HowtoOf, Cell, Resolved, Checked, CellTop;
    CellTops();
    var w' := Word(t, place, val, w);
    BranchMeans(t, place, val, w');
    BranchIsWord(t);
    StatusExact(t, place, val, w);
    FormulaIsResolved(t, place, val, w');
    DestinationAligned(t, w', place);
    ReachableIs(place, val);
  }

  // ----- what is written, in range or not

  /** A signed group of a negative value is written inverted, for MOVN. */
  function Signed16(x: u64, group: nat): int {
    if ToI64(x) < 0 then 0xFFFF - group else group
  }

  /** The bits of the value X that each type writes, where it writes them. */
  predicate Truncated(t: RelocType, x: u64, cell: nat) {
    match t
    case ABS64 => cell == x
    case PREL64 => cell == x
    case ABS32 => cell == x % 0x1_0000_0000
    case PREL32 => cell == x % 0x1_0000_0000
    case ABS16 => cell == x % 0x1_0000
    case PREL16 => cell == x % 0x1_0000
    case JUMP26 => Field(cell, 0, 26) == x / 4 % 0x400_0000
    case CALL26 => Field(cell, 0, 26) == x / 4 % 0x400_0000
    case CONDBR19 => Field(cell, 5, 19) == x / 4 % 0x8_0000
    case LD_PREL_LO19 => Field(cell, 5, 19) == x / 4 % 0x8_0000
    case TSTBR14 => Field(cell, 5, 14) == x / 4 % 0x4000
    case ADR_PREL_LO21 => Field(cell, 29, 2) + 4 * Field(cell, 5, 19) == x % 0x20_0000
    case ADR_PREL_PG_HI21 => Field(cell, 29, 2) + 4 * Field(cell, 5, 19) == x / 0x1000 % 0x20_0000
    case ADR_PREL_PG_HI21_NC => Field(cell, 29, 2) + 4 * Field(cell, 5, 19) == x / 0x1000 % 0x20_0000
    case ADD_ABS_LO12_NC => Field(cell, 10, 12) == x % 0x1000
    case LDST8_ABS_LO12_NC => Field(cell, 10, 12) == x % 0x1000
    case LDST16_ABS_LO12_NC => Field(cell, 10, 12) == x / 2 % 0x800
    case LDST32_ABS_LO12_NC => Field(cell, 10, 12) == x / 4 % 0x400
    case LDST64_ABS_LO12_NC => Field(cell, 10, 12) == x / 8 % 0x200
    case LDST128_ABS_LO12_NC => Field(cell, 10, 12) == x / 16 % 0x100
    case MOVW_UABS_G0 => Field(cell, 5, 16) == x % 0x1_0000
    case MOVW_UABS_G0_NC => Field(cell, 5, 16) == x % 0x1_0000
    case MOVW_UABS_G1 => Field(cell, 5, 16) == x / 0x1_0000 % 0x1_0000
    case MOVW_UABS_G1_NC => Field(cell, 5, 16) == x / 0x1_0000 % 0x1_0000
    case MOVW_UABS_G2 => Field(cell, 5, 16) == x / 0x1_0000_0000 % 0x1_0000
    case MOVW_UABS_G2_NC => Field(cell, 5, 16) == x / 0x1_0000_0000 % 0x1_0000
    case MOVW_UABS_G3 => Field(cell, 5, 16) == x / 0x1_0000_0000_0000 % 0x1_0000
    case MOVW_SABS_G0 => Field(cell, 5, 16) == Signed16(x, x % 0x1_0000)
    case MOVW_SABS_G1 => Field(cell, 5, 16) == Signed16(x, x / 0x1_0000 % 0x1_0000)
    case MOVW_SABS_G2 => Field(cell, 5, 16) == Signed16(x, x / 0x1_0000_0000 % 0x1_0000)
    case MOVW_PREL_G0 => Field(cell, 5, 16) == Signed16(x, x % 0x1_0000)
    case MOVW_PREL_G0_NC => Field(cell, 5, 16) == x % 0x1_0000
    case MOVW_PREL_G1 => Field(cell, 5, 16) == Signed16(x, x / 0x1_0000 % 0x1_0000)
    case MOVW_PREL_G1_NC => Field(cell, 5, 16) == x / 0x1_0000 % 0x1_0000
    case MOVW_PREL_G2 => Field(cell, 5, 16) == Signed16(x, x / 0x1_0000_0000 % 0x1_0000)
    case MOVW_PREL_G2_NC => Field(cell, 5, 16) == x / 0x1_0000_0000 % 0x1_0000
    case MOVW_PREL_G3 => Field(cell, 5, 16) == Signed16(x, x / 0x1_0000_0000_0000 % 0x1_0000)
    case _ => true
  }

  lemma BitsOf(x: u64, lsb: nat, len: nat)
    requires lsb + len <= 64
    ensures Low(Shr(ToI64(x), lsb), len) == x / Pow2(lsb) % Pow2(len)
  {
    hide Low, Shr, Pow2, ToI64;
    LowOfI64(x, lsb + len);
    LowLow(ToI64(x), lsb, len);
    LowLow(x, lsb, len);
    ShrIsDiv(x, lsb);
    ShrIsDiv(Shr(x, lsb), len);
  }

  lemma Inverted(u: u64)
    ensures Low(Not64(u), 16) == 0xFFFF - Low(u, 16)
  {
    hide Low, Shr, Shl, Pow2;
    assert Pow2(16) == 0x1_0000 by { Pow2Table(); }
    Recompose(u, 16);
    ShlIsMul(Shr(u, 16), 16);
    ShlIsMul(0xFFFF_FFFF_FFFF - Shr(u, 16), 16);
    Parts(Not64(u), 16, 0xFFFF - Low(u, 16), 0xFFFF_FFFF_FFFF - Shr(u, 16));
  }

  lemma U64Bound(q: int)
    ensures ToU64(q) < TWO64
  {
  }

  lemma WideBitsOf(x: u64, group: nat, signed: bool)
    requires group < 4
    ensures Low(MovwImm(ToI64(x), group, signed), 16)
         == if signed then Signed16(x, x / Pow2(16 * group) % 0x1_0000) else x / Pow2(16 * group) % 0x1_0000
  {
    hide Low, Shr, Pow2, ToI64, Not64, ToU64;
    assert Pow2(16) == 0x1_0000 by { Pow2Table(); }
    BitsOf(x, 16 * group, 16);
    var q := Shr(ToI64(x), 16 * group);
    LowOfU64(q, 16);
    assert ToU64(q) < TWO64 by { U64Bound(q); }
    Inverted(ToU64(q));
  }

  lemma CodeTruncated(t: RelocType, place: u64, val: u64, w: u32)
    requires HowtoOf(t).Imm? && Targets(t, w)
    ensures Truncated(t, Pattern(t, place, val), Word(t, place, val, w))
  {
    hide Low, Shr, ToI64, ImmWord, DoReloc, Pattern, Field, Targets, Pow2, ReadImm;
    PatternIs(t, place, val);
    var h, x := HowtoOf(t), Pattern(t, place, val);
    Pow2Table();
    ImmReads(t, ToI64(x), w);
    ImmFields(Word(t, place, val, w));
    BitsOf(x, h.lsb, h.len);
  }

  /** A written group, as the table and as the list of types say it. */
  lemma GroupTruncated(t: RelocType, x: u64, cell: nat)
    requires HowtoOf(t).Movw?
    requires var h := HowtoOf(t); var bits := x / Pow2(16 * h.group) % 0x1_0000;
             Field(cell, 5, 16) == if h.signed then Signed16(x, bits) else bits
    ensures Truncated(t, x, cell)
  {
    hide Field, Pow2, Signed16;
    assert Pow2(0) == 1 && Pow2(16) == 0x1_0000 && Pow2(32) == 0x1_0000_0000 && Pow2(48) == 0x1_0000_0000_0000
      by { Pow2Table(); }
  }

  lemma WideNotRefused(t: RelocType, x: int, w: u32)
    requires HowtoOf(t).Movw? && Targets(t, w)
    ensures MovwOpcode(x, HowtoOf(t).signed, w) != AARCH64_BREAK_FAULT
  {
    hide BitAnd, SetField, MovwOpcode, Low, Shr, Pow2, HowtoOf;
    TargetsNotFault(t, w);
    if HowtoOf(t).signed {
      OpcodeChoosesClass(x, HowtoOf(t).group, w);
      WideNotFault(MovwOpcode(x, true, w));
    } else {
      UnsignedOpcode(x, w);
    }
  }

  lemma WideTruncated(t: RelocType, place: u64, val: u64, w: u32)
    requires HowtoOf(t).Movw? && Targets(t, w)
    ensures Truncated(t, Pattern(t, place, val), Word(t, place, val, w))
  {
    hide Low, Shr, ToI64, MovwImm, MovwOpcode, EncodeImmediate, DoReloc, Pattern, Field, Targets, Pow2, Signed16;
    hide Truncated, HowtoOf, CellTop;
    PatternIs(t, place, val);
    var h, x := HowtoOf(t), Pattern(t, place, val);
    HowtoWellFormed(t);
    CellTops();
    WideNotRefused(t, ToI64(x), w);
    EncodeReads(Imm16, MovwOpcode(ToI64(x), h.signed, w), MovwImm(ToI64(x), h.group, h.signed));
    ImmFields(Word(t, place, val, w));
    WideBitsOf(x, h.group, h.signed);
    GroupTruncated(t, x, Word(t, place, val, w));
  }

  lemma DataBits(x: u64)
    ensures DataCell(ToI64(x), 8) == x && DataCell(ToI64(x), 4) == x % 0x1_0000_0000
    ensures DataCell(ToI64(x), 2) == x % 0x1_0000
  {
    hide CellTop;
    CellTops();
  }

  lemma DataTruncated(t: RelocType, place: u64, val: u64, cell: nat)
    requires !HowtoOf(t).Imm? && !HowtoOf(t).Movw? && cell < CellTop(Width(HowtoOf(t)))
    ensures WellFormed(HowtoOf(t))
    ensures Truncated(t, Pattern(t, place, val), Cell(HowtoOf(t), place, val, cell))
  {
    hide Pattern, DoReloc, CellTop, Field, Signed16, DataCell, ToI64;
    HowtoWellFormed(t);
    if HowtoOf(t).Data? {
      PatternIs(t, place, val);
      DataBits(Pattern(t, place, val));
    }
  }

  /** Whatever is returned, the value is written, cut to its place: failed relocations change memory
      too. */
  lemma WrittenAnyway(t: RelocType, place: u64, val: u64, cell: nat)
    requires WellFormed(HowtoOf(t)) && cell < CellTop(Width(HowtoOf(t)))
    requires HowtoOf(t).Imm? || HowtoOf(t).Movw? ==> cell < TWO32 && Targets(t, cell)
    ensures Truncated(t, Pattern(t, place, val), Cell(HowtoOf(t), place, val, cell))
  {
    hide Targets, Pattern, DoReloc, CellTop, Truncated, MovwWord, ImmWord;
    if HowtoOf(t).Imm? {
      CodeTruncated(t, place, val, cell);
    } else if HowtoOf(t).Movw? {
      WideTruncated(t, place, val, cell);
    } else {
      DataTruncated(t, place, val, cell);
    }
  }
}
