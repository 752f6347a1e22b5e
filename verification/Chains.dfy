/** Instruction sequences whose relocations together build one address. */
module Chains {
  import opened Bits
  import opened Insn
  import opened Memory
  import opened Reloc
  import opened Decode
  import opened Resolve

  // ----- ADRP, then ADD or a load or store

  lemma AdrpResolved(place: u64, val: u64, w: u32)
    requires Targets(ADR_PREL_PG_HI21, w)
    ensures AdrpResult(Word(ADR_PREL_PG_HI21, place, val, w), place) == Page(val)
       <==> Status(ADR_PREL_PG_HI21, place, val) == 0
  {
    hide BitAnd, EncodeImmediate, ReadImm, Targets, Cell, AdrpResult, Status, Page;
    CellTops();
    StatusExact(ADR_PREL_PG_HI21, place, val, w);
  }

  lemma LowResolved(t: RelocType, place: u64, val: u64, w: u32)
    requires HowtoOf(t).Imm? && HowtoOf(t).imt == Imm12 && Targets(t, w)
    ensures ResolvedLow(t == ADD_ABS_LO12_NC, HowtoOf(t).lsb, val, Word(t, place, val, w))
  {
    hide BitAnd, EncodeImmediate, ReadImm, Targets, Cell, Status, ResolvedLow, CellTop, Value;
    CellTops();
    HowtoWellFormed(t);
    ResolvedExactly(t, place, val, w);
  }

  /** ADRP at one place followed by ADD at any other yields S+A exactly when the page
      relocation returned 0. */
  lemma AdrpAddExact(place: u64, place': u64, val: u64, adrp: u32, add: u32)
    requires Targets(ADR_PREL_PG_HI21, adrp) && Targets(ADD_ABS_LO12_NC, add)
    ensures AddResult(Word(ADD_ABS_LO12_NC, place', val, add),
                      AdrpResult(Word(ADR_PREL_PG_HI21, place, val, adrp), place)) == val
       <==> Status(ADR_PREL_PG_HI21, place, val) == 0
  {
    hide Field, Targets, Word, AdrpResult, Status;
    AdrpResolved(place, val, adrp);
    LowResolved(ADD_ABS_LO12_NC, place', val, add);
  }

  lemma PageStays(p: int, n: int)
    requires p % 0x1000 == 0
    ensures ToU64(p + 0x1000 * n) % 0x1000 == 0
  {
    var x := p + 0x1000 * n;
    var q := x / TWO64;
    assert ToU64(x) == x - TWO64 * q;
    assert x == 0x1000 * (p / 0x1000 + n);
    assert ToU64(x) == 0x1000 * (p / 0x1000 + n - 0x10_0000_0000_0000 * q);
  }

  lemma AdrpIsPage(w: u32, place: u64)
    ensures AdrpResult(w, place) % 0x1000 == 0
  {
    hide AdrImm, SignExtend, ToU64, Pow2;
    PageStays(Page(place), SignExtend(AdrImm(w), 21));
  }

  lemma LowRest(val: u64, lsb: nat)
    requires lsb <= 12
    ensures 0 <= val % Pow2(lsb) <= val % 0x1000
  {
    hide Pow2, Low, Shr, Shl;
    assert Pow2(12) == 0x1000 by { Pow2Table(); }
    assert Low(val, 12) == val % 0x1000 by { ShrIsDiv(val, 12); }
    LowLow(val, lsb, 12 - lsb);
    ShrIsDiv(val, lsb);
  }

  lemma LowerBits(t: RelocType)
    requires HowtoOf(t).Imm? && HowtoOf(t).imt == Imm12
    ensures HowtoOf(t).lsb <= 12
  {
  }

  /** A page and an offset in it add up to an address without wrapping. */
  lemma PageAndRest(a: u64, rest: int, val: u64, lsb: nat)
    requires a % 0x1000 == 0 && lsb <= 12 && rest == val % 0x1000 - val % Pow2(lsb)
    ensures ToU64(a + rest) == a + rest
    ensures a + rest == val - val % Pow2(lsb) <==> a == Page(val)
    ensures a + rest == val <==> a == Page(val) && val % Pow2(lsb) == 0
  {
    hide Pow2;
    LowRest(val, lsb);
  }

  /** The same with a load or store of 2^lsb bytes: the access is at S+A, rounded down to the
      access size, exactly when the page relocation returned 0, and so at S+A itself exactly when
      that is also aligned. */
  lemma AdrpLoadStore(t: RelocType, place: u64, place': u64, val: u64, adrp: u32, access: u32)
    requires HowtoOf(t).Imm? && HowtoOf(t).imt == Imm12 && t != ADD_ABS_LO12_NC
    requires Targets(ADR_PREL_PG_HI21, adrp) && Targets(t, access)
    ensures var address := LdStAddress(Word(t, place', val, access),
                                       AdrpResult(Word(ADR_PREL_PG_HI21, place, val, adrp), place));
            var returned0 := Status(ADR_PREL_PG_HI21, place, val) == 0;
            && (address == val - val % Pow2(HowtoOf(t).lsb) <==> returned0)
            && (address == val <==> returned0 && val % Pow2(HowtoOf(t).lsb) == 0)
  {
    hide Field, Targets, Word, AdrpResult, Status, Shl, Scale, Pow2, HowtoOf, Page;
    AdrpResolved(place, val, adrp);
    LowResolved(t, place', val, access);
    LowerBits(t);
    var a, w' := AdrpResult(Word(ADR_PREL_PG_HI21, place, val, adrp), place), Word(t, place', val, access);
    AdrpIsPage(Word(ADR_PREL_PG_HI21, place, val, adrp), place);
    PageAndRest(a, Shl(Field(w', 10, 12), Scale(w')), val, HowtoOf(t).lsb);
  }

  // ----- MOVZ or MOVN, then MOVK

  datatype Wide = Wide(t: RelocType, place: u64, val: u64, w: u32) {
    predicate Of(u: u64) {
      HowtoOf(t).Movw? && Targets(t, w) && DoReloc(HowtoOf(t).op, place, val) == u
    }

    /** A MOVK of an unsigned group of u. */
    predicate Keeps(u: u64) {
      Of(u) && IsMovk(w) && !HowtoOf(t).signed
    }

    /** A first instruction: a MOVZ of an unsigned group, or a signed group in range. */
    predicate Starts(u: u64) {
      Of(u) && if HowtoOf(t).signed then Fits(HowtoOf(t), ToI64(u)) else IsMovz(w)
    }

    function Group(): nat {
      if HowtoOf(t).Movw? then HowtoOf(t).group else 0
    }

    /** A first instruction gets its own group right, and those above when u is in range. */
    predicate StartCovers(u: u64, g: nat) {
      HowtoWellFormed(t);
      g == Group() || (Group() <= g && Fits(HowtoOf(t), ToI64(u)))
    }

    function Run(rd: u64): u64 {
      MoveWide(Word(t, place, val, w), rd)
    }
  }

  function Exec(steps: seq<Wide>, rd: u64): u64 {
    if steps == [] then rd else Exec(steps[1..], steps[0].Run(rd))
  }

  predicate Agree(r: u64, u: u64, g: nat) {
    Field(r, 16 * g, 16) == Field(u, 16 * g, 16)
  }

  lemma AgreeEverywhere(r: u64, u: u64)
    requires forall g :: 0 <= g < 4 ==> Agree(r, u, g)
    ensures r == u
  {
    hide Low, Shr, Shl, Pow2;
    assert Pow2(64) == TWO64 by { Pow2Table(); }
    assert Agree(r, u, 0) && Agree(r, u, 1) && Agree(r, u, 2) && Agree(r, u, 3);
    LowSmall(r, 64);
    LowSmall(u, 64);
    LowLow(r, 48, 16);
    LowLow(u, 48, 16);
    LowLow(r, 32, 16);
    LowLow(u, 32, 16);
    LowLow(r, 16, 16);
    LowLow(u, 16, 16);
    ShrByZero(r);
    ShrByZero(u);
  }

  lemma SameField(r: u64, g: nat)
    requires g < 4
    ensures Low(Shr(ToI64(r), 16 * g), 16) == Field(r, 16 * g, 16)
  {
    hide Low, Shr, Shl, Pow2, ToI64;
    LowOfI64(r, 16 * g + 16);
    LowLow(ToI64(r), 16 * g, 16);
    LowLow(r, 16 * g, 16);
  }

  /** Numbers that agree from bit 16k on agree in the groups from k on. */
  lemma AgreeAbove(r: u64, u: u64, k: nat, g: nat)
    requires k <= g < 4 && (Shr(r, 16 * k) == Shr(u, 16 * k) || Shr(ToI64(r), 16 * k) == Shr(ToI64(u), 16 * k))
    ensures Agree(r, u, g)
  {
    hide Low, Shr, Shl, Pow2, ToI64;
    var j := 16 * (g - k);
    assert 16 * g == 16 * k + j;
    ShrShr(r, 16 * k, j);
    ShrShr(u, 16 * k, j);
    ShrShr(ToI64(r), 16 * k, j);
    ShrShr(ToI64(u), 16 * k, j);
    SameField(r, g);
    SameField(u, g);
  }

  /** A MOVK of its group of u gets that group right and leaves the others as they were. */
  lemma KeepStep(s: Wide, u: u64, r: u64)
    requires s.Keeps(u)
    ensures var r' := s.Run(r);
            && s.Group() < 4 && Agree(r', u, s.Group())
            && forall g :: 0 <= g < 4 && g != s.Group() ==> Field(r', 16 * g, 16) == Field(r, 16 * g, 16)
  {
    hide Low, Shr, Shl, Pow2, BitAnd, EncodeImmediate, SetField, DoReloc;
    HowtoWellFormed(s.t);
    var k := s.Group();
    var imm := MovwImm(ToI64(u), k, false);
    var w' := Word(s.t, s.place, s.val, s.w);
    assert w' == EncodeImmediate(Imm16, s.w, imm);
    TargetsNotFault(s.t, s.w);
    EncodeReads(Imm16, s.w, imm);
    EncodeKeepsWide(s.w, imm, k);
    GroupField(w', k);
    UnsignedGroup(u, k);
    var f := Field(w', 5, 16);
    assert Pow2(64) == TWO64 by { Pow2Table(); }
    SetFieldBound(r, 16 * k, 16, f, 64);
    FieldOfSet(r, 16 * k, 16, f);
    var r' := SetField(r, 16 * k, 16, f);
    forall g | 0 <= g < 4 && g != k
      ensures Field(r', 16 * g, 16) == Field(r, 16 * g, 16)
    {
      if g < k {
        FieldBelow(r', r, 16 * k, 16 * g, 16);
      } else {
        FieldAbove(r', r, 16 * k + 16, 16 * g, 16);
      }
    }
  }

  lemma OthersAgree(s: Wide, u: u64, r: u64)
    requires s.Keeps(u)
    ensures forall g :: 0 <= g < 4 && g != s.Group() && Agree(r, u, g) ==> Agree(s.Run(r), u, g)
  {
    hide Field, Word, MoveWide, Wide.Keeps, Wide.Group;
    KeepStep(s, u, r);
  }

  lemma {:induction false} KeepChain(steps: seq<Wide>, u: u64, r: u64, known: set<nat>)
    requires forall s :: s in steps ==> s.Keeps(u)
    requires forall g :: g in known ==> g < 4 && Agree(r, u, g)
    ensures forall g :: 0 <= g < 4 && (g in known || exists s :: s in steps && s.Group() == g) ==>
              Agree(Exec(steps, r), u, g)
  {
    hide Field, Word, MoveWide, Agree, Wide.Keeps, Wide.Group;
    if steps == [] {
    } else {
      var s := steps[0];
      KeepStep(s, u, r);
      OthersAgree(s, u, r);
      var r' := s.Run(r);
      KeepChain(steps[1..], u, r', known + {s.Group()});
      forall g | 0 <= g < 4 && (g in known || exists s' :: s' in steps && s'.Group() == g)
        ensures Agree(Exec(steps, r), u, g)
      {
        if g !in known && g != s.Group() {
          var s' :| s' in steps && s'.Group() == g;
          assert s' in steps[1..];
        }
      }
    }
  }

  lemma StartSigned(s: Wide, u: u64, r: u64, g: nat)
    requires s.Starts(u) && HowtoOf(s.t).signed && s.Group() <= g < 4
    ensures Agree(s.Run(r), u, g)
  {
    hide Low, Shr, Shl, Pow2, BitAnd, EncodeImmediate, SetField, DoReloc, Field, MovwOpcode;
    hide Fits;
    var k := s.Group();
    PatchKeepsClass(s.t, s.place, s.val, s.w);
    CellTops();
    ResolvedExactly(s.t, s.place, s.val, s.w);
    AgreeAbove(s.Run(r), u, k, g);
  }

  lemma ShrOfShl(f: nat, k: nat)
    requires f < Pow2(16) && k < 4
    ensures ToU64(Shl(f, 16 * k)) == Shl(f, 16 * k)
    ensures Shr(Shl(f, 16 * k), 16 * k) == f && Low(f, 16) == f
  {
    hide Low, Shr, Shl, Pow2;
    assert Pow2(64) == TWO64 by { Pow2Table(); }
    InsertBound(0, 16 * k, 16, f);
    Pow2Mono(16 * k + 16, 64);
    Parts(Shl(f, 16 * k), 16 * k, 0, f);
    LowSmall(f, 16);
  }

  lemma StartUnsigned(s: Wide, u: u64, r: u64, g: nat)
    requires s.Starts(u) && !HowtoOf(s.t).signed && g < 4 && s.StartCovers(u, g)
    ensures Agree(s.Run(r), u, g)
  {
    hide Low, Shr, Shl, Pow2, BitAnd, EncodeImmediate, SetField, DoReloc;
    HowtoWellFormed(s.t);
    var k := s.Group();
    var imm := MovwImm(ToI64(u), k, false);
    var w' := Word(s.t, s.place, s.val, s.w);
    assert w' == EncodeImmediate(Imm16, s.w, imm);
    TargetsNotFault(s.t, s.w);
    EncodeReads(Imm16, s.w, imm);
    EncodeKeepsWide(s.w, imm, k);
    GroupField(w', k);
    UnsignedGroup(u, k);
    var f := Field(w', 5, 16);
    ShrOfShl(f, k);
    if g != k {
      AgreeAbove(s.Run(r), u, k, g);
    }
  }

  lemma StartStep(s: Wide, u: u64, r: u64)
    requires s.Starts(u)
    ensures forall g :: 0 <= g < 4 && s.StartCovers(u, g) ==> Agree(s.Run(r), u, g)
  {
    hide Field, Wide.Run;
    forall g | 0 <= g < 4 && s.StartCovers(u, g)
      ensures Agree(s.Run(r), u, g)
    {
      if HowtoOf(s.t).signed {
        StartSigned(s, u, r, g);
      } else {
        StartUnsigned(s, u, r, g);
      }
    }
  }

  /** A wide-move sequence builds u: one MOVZ or MOVN, then MOVKs in any order, whatever the
      register held, as long as every group is covered. For absolute groups u is S+A; for
      place-relative ones it is the S+A-P that the places share. */
  lemma MovwChain(first: Wide, rest: seq<Wide>, u: u64, rd: u64)
    requires first.Starts(u) && forall s :: s in rest ==> s.Keeps(u)
    requires forall g :: 0 <= g < 4 ==> first.StartCovers(u, g) || exists s :: s in rest && s.Group() == g
    ensures Exec([first] + rest, rd) == u
  {
    hide Field, Wide.Run, Wide.Starts, Wide.Keeps, Wide.StartCovers, Wide.Group;
    var r := first.Run(rd);
    StartStep(first, u, rd);
    KeepChain(rest, u, r, set g | 0 <= g < 4 && first.StartCovers(u, g));
    assert ([first] + rest)[1..] == rest;
    AgreeEverywhere(Exec(rest, r), u);
  }
}
